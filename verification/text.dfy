/** The slice operations of Rust's `str` that the parsers are built from:
    `strip_prefix`, `split_once` and `split`, on byte sequences. */
module Text {
  import opened Wrappers

  /** `s.strip_prefix(p)`: the rest of `s` when `s` starts with `p`. */
  function StripPrefix(s: Bytes, p: Bytes): (r: Option<Bytes>)
    ensures r.Some? <==> (|p| <= |s| && s[..|p|] == p)
    ensures r.Some? ==> s == p + r.value
  {
    if |p| <= |s| && s[..|p|] == p then
      assert s == p + s[|p|..];
      Some(s[|p|..])
    else None
  }

  /** `s.split_once(d)`: the text before and after the FIRST occurrence of `d`. */
  function SplitOnce(s: Bytes, d: Byte): (r: Option<(Bytes, Bytes)>)
    ensures r.Some? <==> d in s
    ensures r.Some? ==> s == r.value.0 + [d] + r.value.1 && d !in r.value.0
  {
    if s == [] then None
    else if s[0] == d then
      assert s == [] + [d] + s[1..];
      Some(([], s[1..]))
    else
      match SplitOnce(s[1..], d)
      case None => None
      case Some((l, r)) =>
        assert s == [s[0]] + s[1..];
        Some(([s[0]] + l, r))
  }

  /** Splitting `a + [d] + b` where `a` holds no `d` gives back `a` and `b`. */
  lemma {:induction false} SplitOnceAt(a: Bytes, d: Byte, b: Bytes)
    requires d !in a
    ensures SplitOnce(a + [d] + b, d) == Some((a, b))
  {
    var s := a + [d] + b;
    var r := SplitOnce(s, d);
    assert d in s by { assert s[|a|] == d; }
    var (l, rest) := r.value;
    assert s[|l|] == d;
    assert |a| < |s| && s[|a|] == d;
    assert |l| == |a| by {
      if |l| < |a| {
        assert false;
      } else if |a| < |l| {
        assert false;
      }
    }
    assert l == s[..|a|] == a;
    assert rest == s[|a| + 1..] == b;
  }

  /** `s.split(d)`: every piece between occurrences of `d`, empty pieces included. */
  function Split(s: Bytes, d: Byte): (parts: seq<Bytes>)
    ensures |parts| >= 1
    ensures forall i | 0 <= i < |parts| :: d !in parts[i]
    ensures Join(parts, d) == s
    decreases |s|
  {
    match SplitOnce(s, d)
    case None => [s]
    case Some((l, r)) => [l] + Split(r, d)
  }

  /** The pieces glued back together with `d` between them. */
  function Join(parts: seq<Bytes>, d: Byte): Bytes
    requires |parts| >= 1
  {
    if |parts| == 1 then parts[0] else parts[0] + [d] + Join(parts[1..], d)
  }

  /** A text without `d` is one piece: the single-part branches of the parsers
      agree with their `split` loops. */
  lemma SplitWithout(s: Bytes, d: Byte)
    requires d !in s
    ensures Split(s, d) == [s]
  {
  }
}
