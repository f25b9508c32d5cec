/** Percent-encoding, percent-decoding and method-name validation for the
    pieces of DID syntax (`src/string.rs`). */
module ByteCodec {
  import opened Wrappers

  const PERCENT: Byte := 0x25
  const COLON: Byte := 0x3A
  const LOWER_A: Byte := 0x61
  const LOWER_Z: Byte := 0x7A

  predicate IsDigit(b: Byte) { 0x30 <= b <= 0x39 }
  predicate IsUpperLetter(b: Byte) { 0x41 <= b <= 0x5A }
  predicate IsLowerLetter(b: Byte) { LOWER_A <= b <= LOWER_Z }

  /** The bytes `url_encoded` copies unchanged: `[0-9A-Za-z.-_]`. */
  predicate IsUnreserved(b: Byte) {
    IsDigit(b) || IsUpperLetter(b) || IsLowerLetter(b) || b == 0x2E || b == 0x2D || b == 0x5F
  }

  /** The bytes `url_decoded` treats as hex digits: `[0-9a-fA-F]`. */
  predicate IsHexDigit(b: Byte) {
    IsDigit(b) || 0x61 <= b <= 0x66 || 0x41 <= b <= 0x46
  }

  /** The two-digit form `format!("%{:02X}")` writes uses only `[0-9A-F]`. */
  predicate IsUpperHexDigit(b: Byte) {
    IsDigit(b) || 0x41 <= b <= 0x46
  }

  /** `char::to_digit(16)` on a hex digit. */
  function HexValue(b: Byte): (v: nat)
    requires IsHexDigit(b)
    ensures v < 16
  {
    if IsDigit(b) then b - 0x30
    else if 0x61 <= b <= 0x66 then b - 0x61 + 10
    else b - 0x41 + 10
  }

  /** One uppercase hex digit, as `{:X}` prints it. */
  function UpperHex(n: nat): (d: Byte)
    requires n < 16
    ensures IsUpperHexDigit(d) && IsHexDigit(d) && IsUnreserved(d)
    ensures HexValue(d) == n
  {
    if n < 10 then 0x30 + n else 0x41 + n - 10
  }

  // ---------------------------------------------------------------------------
  // Encoding
  // ---------------------------------------------------------------------------

  /** Whether the encoder copies `b` unchanged. `url_encoded` copies exactly the
      unreserved bytes; the method-id encoding used by `DID::to_string` copies
      `:` as well. */
  predicate Passes(b: Byte, keepColon: bool) {
    IsUnreserved(b) || (keepColon && b == COLON)
  }

  /** What one input byte becomes: itself, or `%` and two uppercase hex digits
      giving the byte's value, high nibble first. */
  function EncodeByte(b: Byte, keepColon: bool): (r: Bytes)
    ensures |r| == 1 <==> Passes(b, keepColon)
    ensures |r| == 1 || |r| == 3
    ensures |r| == 1 ==> r[0] == b
    ensures |r| == 3 ==> r[0] == PERCENT && IsUpperHexDigit(r[1]) && IsUpperHexDigit(r[2])
                         && 16 * HexValue(r[1]) + HexValue(r[2]) == b
  {
    if Passes(b, keepColon) then [b] else [PERCENT, UpperHex(b / 16), UpperHex(b % 16)]
  }

  /** The whole encoded text, byte by byte. */
  function EncodedWith(s: Bytes, keepColon: bool): Bytes
  {
    if s == [] then [] else EncodeByte(s[0], keepColon) + EncodedWith(s[1..], keepColon)
  }

  /** `url_encoded`. */
  function Encoded(s: Bytes): Bytes { EncodedWith(s, false) }

  /** `method_id_encoded`: `url_encoded` that also lets `:` through. */
  function MethodIdEncoded(s: Bytes): Bytes { EncodedWith(s, true) }

  lemma {:induction false} EncodedWithAppend(a: Bytes, b: Bytes, keepColon: bool)
    ensures EncodedWith(a + b, keepColon) == EncodedWith(a, keepColon) + EncodedWith(b, keepColon)
  {
    if a == [] {
      assert a + b == b;
    } else {
      assert (a + b)[1..] == a[1..] + b;
      EncodedWithAppend(a[1..], b, keepColon);
    }
  }

  /** Encoding one more byte of a prefix appends that byte's encoding. */
  lemma EncodedPrefixStep(s: Bytes, i: nat, keepColon: bool)
    requires i < |s|
    ensures EncodedWith(s[..i + 1], keepColon) == EncodedWith(s[..i], keepColon) + EncodeByte(s[i], keepColon)
  {
    assert s[..i + 1] == s[..i] + [s[i]];
    EncodedWithAppend(s[..i], [s[i]], keepColon);
    assert [s[i]][1..] == [];
  }

  /** `url_encoded`: pushes each byte, or its `%XX` escape, onto `ret`. */
  method UrlEncoded(input: Bytes) returns (ret: Bytes)
    ensures ret == Encoded(input)
  {
    ret := [];
    for i := 0 to |input|
      invariant ret == EncodedWith(input[..i], false)
    {
      var b := input[i];
      EncodedPrefixStep(input, i, false);
      if IsUnreserved(b) {
        ret := ret + [b];
      } else {
        ret := ret + [PERCENT, UpperHex(b / 16), UpperHex(b % 16)];
      }
    }
    assert input[..|input|] == input;
  }

  /** Number of input bytes the encoder copies unchanged. */
  function CountPassing(s: Bytes, keepColon: bool): (n: nat)
    ensures n <= |s|
  {
    if s == [] then 0 else (if Passes(s[0], keepColon) then 1 else 0) + CountPassing(s[1..], keepColon)
  }

  /** Each copied byte costs one output byte and each escaped byte three. */
  lemma {:induction false} EncodedLength(s: Bytes, keepColon: bool)
    ensures |EncodedWith(s, keepColon)| == CountPassing(s, keepColon) + 3 * (|s| - CountPassing(s, keepColon))
  {
    if s != [] {
      EncodedLength(s[1..], keepColon);
    }
  }

  /** The encoded text holds only bytes the encoder lets through, and `%`. */
  lemma {:induction false} EncodedAlphabet(s: Bytes, keepColon: bool)
    ensures forall i | 0 <= i < |EncodedWith(s, keepColon)| ::
      Passes(EncodedWith(s, keepColon)[i], keepColon) || EncodedWith(s, keepColon)[i] == PERCENT
  {
    if s != [] {
      EncodedAlphabet(s[1..], keepColon);
      var head := EncodeByte(s[0], keepColon);
      var tail := EncodedWith(s[1..], keepColon);
      assert EncodedWith(s, keepColon) == head + tail;
      forall i | 0 <= i < |head + tail|
        ensures Passes((head + tail)[i], keepColon) || (head + tail)[i] == PERCENT
      {
        if i >= |head| {
          assert (head + tail)[i] == tail[i - |head|];
        }
      }
    }
  }

  /** Text made only of bytes the encoder lets through is its own encoding. */
  lemma {:induction false} EncodedIdentity(s: Bytes, keepColon: bool)
    requires forall i | 0 <= i < |s| :: Passes(s[i], keepColon)
    ensures EncodedWith(s, keepColon) == s
  {
    if s != [] {
      EncodedIdentity(s[1..], keepColon);
      assert s == [s[0]] + s[1..];
    }
  }

  // ---------------------------------------------------------------------------
  // Decoding
  // ---------------------------------------------------------------------------

  /** The variables of `url_decoded`'s loop: `hexval`, `hexleft`, `in_pct`, `ret`. */
  datatype DecodeState = DecodeState(hexval: Byte, hexleft: bool, inPct: bool, out: Bytes)

  /** The state between escapes, with `out` decoded so far. */
  function Idle(out: Bytes): DecodeState { DecodeState(0, true, false, out) }

  /** `a | b`, bit by bit, on naturals (the `|=` on the `u8` `hexval`). */
  function BitOr(a: nat, b: nat): (r: nat)
    decreases a + b
  {
    if a == 0 then b
    else if b == 0 then a
    else 2 * BitOr(a / 2, b / 2) + (if a % 2 == 1 || b % 2 == 1 then 1 else 0)
  }

  function Pow2(k: nat): (p: nat)
    ensures p >= 1
  {
    if k == 0 then 1 else 2 * Pow2(k - 1)
  }

  /** OR of a multiple of `2^k` and a number below `2^k` is their sum: the
      set bits do not overlap. */
  lemma {:induction false} BitOrDisjoint(m: nat, b: nat, k: nat)
    requires b < Pow2(k)
    ensures BitOr(Pow2(k) * m, b) == Pow2(k) * m + b
  {
    var a := Pow2(k) * m;
    if a != 0 && b != 0 {
      var x := Pow2(k - 1) * m;
      assert a == 2 * x;
      assert a / 2 == x && a % 2 == 0;
      BitOrDisjoint(m, b / 2, k - 1);
    }
  }

  lemma BitOrNibbles(hi: nat, lo: nat)
    requires hi < 16 && lo < 16
    ensures BitOr(0, 16 * hi) == 16 * hi
    ensures BitOr(16 * hi, lo) == 16 * hi + lo
  {
    assert Pow2(4) == 16;
    BitOrDisjoint(hi, lo, 4);
  }

  /** One iteration of `url_decoded`'s loop on byte `b`: `%` only sets
      `in_pct`; a hex digit while `in_pct` fills the high, then the low nibble
      and the second one pushes the byte; every other byte is pushed. */
  function Step(st: DecodeState, b: Byte): DecodeState
  {
    if b == PERCENT then
      st.(inPct := true)
    else if IsHexDigit(b) && st.inPct then
      var v := HexValue(b);
      var hexval := BitOr(st.hexval, if st.hexleft then 16 * v else v) % 256;
      if st.hexleft then
        st.(hexval := hexval, hexleft := false)
      else
        DecodeState(0, true, false, st.out + [hexval])
    else
      st.(out := st.out + [b])
  }

  /** The loop run over `s` from state `st`. */
  function Run(st: DecodeState, s: Bytes): DecodeState
    decreases |s|
  {
    if s == [] then st else Run(Step(st, s[0]), s[1..])
  }

  /** `url_decoded`. */
  function Decoded(s: Bytes): Bytes { Run(Idle([]), s).out }

  /** `Run` takes its first byte with one `Step`. */
  lemma RunCons(st: DecodeState, b: Byte, rest: Bytes)
    ensures Run(st, [b] + rest) == Run(Step(st, b), rest)
  {
    assert ([b] + rest)[1..] == rest;
  }

  /** `url_decoded`, as the loop the source runs. */
  method UrlDecoded(s: Bytes) returns (ret: Bytes)
    ensures ret == Decoded(s)
  {
    var hexval: Byte := 0;
    var hexleft := true;
    ret := [];
    var inPct := false;
    for i := 0 to |s|
      invariant Run(DecodeState(hexval, hexleft, inPct, ret), s[i..]) == Run(Idle([]), s)
    {
      assert s[i..][1..] == s[i + 1..];
      var b := s[i];
      if b == PERCENT {
        inPct := true;
      } else if IsHexDigit(b) {
        if inPct {
          var val := HexValue(b);
          hexval := BitOr(hexval, if hexleft then 16 * val else val) % 256;
          if hexleft {
            hexleft := false;
          } else {
            ret := ret + [hexval];
            inPct := false;
            hexleft := true;
            hexval := 0;
          }
        } else {
          ret := ret + [b];
        }
      } else {
        ret := ret + [b];
      }
    }
  }

  lemma {:induction false} RunAppend(st: DecodeState, a: Bytes, b: Bytes)
    ensures Run(st, a + b) == Run(Run(st, a), b)
    decreases |a|
  {
    if a != [] {
      assert a + b != [];
      assert (a + b)[0] == a[0];
      assert (a + b)[1..] == a[1..] + b;
      RunAppend(Step(st, a[0]), a[1..], b);
    } else {
      assert a + b == b;
    }
  }

  /** After a `%`, a hex digit fills the high nibble. */
  lemma HighNibbleStep(out: Bytes, hi: Byte)
    requires IsHexDigit(hi)
    ensures Step(DecodeState(0, true, true, out), hi) == DecodeState(16 * HexValue(hi), false, true, out)
  {
    BitOrNibbles(HexValue(hi), 0);
  }

  /** After the high nibble, a hex digit completes the byte and pushes it. */
  lemma LowNibbleStep(out: Bytes, h: nat, lo: Byte)
    requires h < 16 && IsHexDigit(lo)
    ensures Step(DecodeState(16 * h, false, true, out), lo) == Idle(out + [16 * h + HexValue(lo)])
  {
    BitOrNibbles(h, HexValue(lo));
  }

  /** `%` and two hex digits decode to one byte, high nibble first. */
  lemma PercentTriple(out: Bytes, hi: Byte, lo: Byte)
    requires IsHexDigit(hi) && IsHexDigit(lo)
    ensures Run(Idle(out), [PERCENT, hi, lo]) == Idle(out + [16 * HexValue(hi) + HexValue(lo)])
  {
    var s1 := DecodeState(0, true, true, out);
    var s2 := DecodeState(16 * HexValue(hi), false, true, out);
    assert Step(Idle(out), PERCENT) == s1;
    HighNibbleStep(out, hi);
    LowNibbleStep(out, HexValue(hi), lo);
    RunCons(Idle(out), PERCENT, [hi, lo]);
    RunCons(s1, hi, [lo]);
    RunCons(s2, lo, []);
  }

  /** Decoding one encoded byte, from an idle state, gives that byte back. */
  lemma DecodeEncodeByte(out: Bytes, b: Byte, keepColon: bool)
    ensures Run(Idle(out), EncodeByte(b, keepColon)) == Idle(out + [b])
  {
    var e := EncodeByte(b, keepColon);
    if |e| == 3 {
      PercentTriple(out, e[1], e[2]);
      assert e == [PERCENT, e[1], e[2]];
    } else {
      assert e == [b] && e[1..] == [];
    }
  }

  lemma {:induction false} DecodeEncodedFrom(out: Bytes, s: Bytes, keepColon: bool)
    ensures Run(Idle(out), EncodedWith(s, keepColon)) == Idle(out + s)
    decreases |s|
  {
    if s == [] {
      assert out + s == out;
    } else {
      RunAppend(Idle(out), EncodeByte(s[0], keepColon), EncodedWith(s[1..], keepColon));
      DecodeEncodeByte(out, s[0], keepColon);
      DecodeEncodedFrom(out + [s[0]], s[1..], keepColon);
      assert out + [s[0]] + s[1..] == out + s;
    }
  }

  /** `url_decoded(url_encoded(b)) == b`, and likewise for the method-id encoding. */
  lemma RoundTrip(s: Bytes)
    ensures Decoded(Encoded(s)) == s
    ensures Decoded(MethodIdEncoded(s)) == s
  {
    DecodeEncodedFrom([], s, false);
    DecodeEncodedFrom([], s, true);
  }

  /** A `%` followed by a byte that is not a hex digit leaves `in_pct` set: the
      stray byte is copied, the `%` is dropped, and the next two hex digits are
      still decoded as one byte. */
  lemma StrayPercentConsumesLaterHex(out: Bytes, x: Byte, hi: Byte, lo: Byte)
    requires x != PERCENT && !IsHexDigit(x)
    requires IsHexDigit(hi) && IsHexDigit(lo)
    ensures Run(Idle(out), [PERCENT, x, hi, lo]) == Idle(out + [x, 16 * HexValue(hi) + HexValue(lo)])
  {
    var s1 := DecodeState(0, true, true, out);
    var s2 := DecodeState(0, true, true, out + [x]);
    var s3 := DecodeState(16 * HexValue(hi), false, true, out + [x]);
    assert Step(Idle(out), PERCENT) == s1;
    assert Step(s1, x) == s2;
    HighNibbleStep(out + [x], hi);
    LowNibbleStep(out + [x], HexValue(hi), lo);
    assert out + [x] + [16 * HexValue(hi) + HexValue(lo)] == out + [x, 16 * HexValue(hi) + HexValue(lo)];
    RunCons(Idle(out), PERCENT, [x, hi, lo]);
    RunCons(s1, x, [hi, lo]);
    RunCons(s2, hi, [lo]);
    RunCons(s3, lo, []);
  }

  /** A lone `%` at the end decodes to nothing. */
  lemma TrailingPercentDropped(s: Bytes)
    ensures Decoded(s + [PERCENT]) == Decoded(s)
  {
    RunAppend(Idle([]), s, [PERCENT]);
  }

  /** Without `%`, `in_pct` is never set and decoding copies every byte. */
  lemma {:induction false} RunWithoutPercent(st: DecodeState, s: Bytes)
    requires !st.inPct && PERCENT !in s
    ensures Run(st, s).out == st.out + s
    decreases |s|
  {
    if s == [] {
      assert st.out + s == st.out;
    } else {
      RunWithoutPercent(Step(st, s[0]), s[1..]);
      assert st.out + [s[0]] + s[1..] == st.out + s;
    }
  }

  lemma DecodedWithoutPercent(s: Bytes)
    requires PERCENT !in s
    ensures Decoded(s) == s
  {
    RunWithoutPercent(Idle([]), s);
  }

  /** The text with every `%` taken out, the other bytes in order. */
  function DropPercent(s: Bytes): (r: Bytes)
    ensures PERCENT !in r
  {
    if s == [] then []
    else
      (if s[0] == PERCENT then [] else [s[0]]) + DropPercent(s[1..])
  }

  /** A byte that is not a hex digit: a `%` only sets `in_pct`, any other
      byte is pushed. */
  lemma NonHexStep(st: DecodeState, b: Byte)
    requires !IsHexDigit(b)
    ensures Step(st, b).out == if b == PERCENT then st.out else st.out + [b]
  {
  }

  /** `DropPercent` removes every `%` and nothing else. */
  lemma {:induction false} DropPercentCounts(s: Bytes)
    ensures multiset(DropPercent(s)) == multiset(s)[PERCENT := 0]
  {
    if s != [] {
      DropPercentCounts(s[1..]);
      assert s == [s[0]] + s[1..];
    }
  }

  /** `DropPercent` looks at its first byte. */
  lemma DropPercentCons(s: Bytes)
    requires s != []
    ensures s[0] == PERCENT ==> DropPercent(s) == DropPercent(s[1..])
    ensures s[0] != PERCENT ==> DropPercent(s) == [s[0]] + DropPercent(s[1..])
  {
  }

  /** Without hex digits, nothing is ever consumed as a nibble: every `%` is
      dropped and every other byte is copied, in order, whatever the state. */
  lemma {:induction false} RunWithoutHexDigits(st: DecodeState, s: Bytes)
    requires forall b | b in s :: !IsHexDigit(b)
    ensures Run(st, s).out == st.out + DropPercent(s)
    decreases |s|
  {
    if s == [] {
      assert st.out + DropPercent(s) == st.out;
    } else {
      var b, rest := s[0], s[1..];
      assert forall x | x in rest :: x in s;
      var next := Step(st, b);
      RunWithoutHexDigits(next, rest);
      assert s == [b] + rest;
      RunCons(st, b, rest);
      NonHexStep(st, b);
      DropPercentCons(s);
      if b != PERCENT {
        assert st.out + [b] + DropPercent(rest) == st.out + ([b] + DropPercent(rest));
      }
    }
  }

  /** Hex-digit-free text decodes to itself with every `%` removed. */
  lemma DecodedWithoutHexDigits(s: Bytes)
    requires forall b | b in s :: !IsHexDigit(b)
    ensures Decoded(s) == DropPercent(s)
  {
    var r := DropPercent(s);
    RunWithoutHexDigits(Idle([]), s);
    assert Run(Idle([]), s).out == [] + r;
    assert [] + r == r;
  }

  function CountOf(s: Bytes, b: Byte): (n: nat)
    ensures n <= |s|
  {
    if s == [] then 0 else (if s[0] == b then 1 else 0) + CountOf(s[1..], b)
  }

  /** Each input byte yields at most one output byte and a `%` yields none. */
  lemma {:induction false} RunLength(st: DecodeState, s: Bytes)
    ensures |Run(st, s).out| + CountOf(s, PERCENT) <= |st.out| + |s|
    decreases |s|
  {
    if s != [] {
      RunLength(Step(st, s[0]), s[1..]);
    }
  }

  /** The decoded text is shorter than the input by at least the number of `%`. */
  lemma DecodedLength(s: Bytes)
    ensures |Decoded(s)| + CountOf(s, PERCENT) <= |s|
  {
    RunLength(Idle([]), s);
  }

  /** Words of unreserved bytes joined by spaces encode with `%20` in place of
      each space, and decode back. */
  lemma SpacesEscaped(a: Bytes, b: Bytes, c: Bytes)
    requires forall i | 0 <= i < |a| :: IsUnreserved(a[i])
    requires forall i | 0 <= i < |b| :: IsUnreserved(b[i])
    requires forall i | 0 <= i < |c| :: IsUnreserved(c[i])
    ensures Encoded(a + [0x20] + b + [0x20] + c) == a + [PERCENT, 0x32, 0x30] + b + [PERCENT, 0x32, 0x30] + c
    ensures Decoded(a + [PERCENT, 0x32, 0x30] + b + [PERCENT, 0x32, 0x30] + c) == a + [0x20] + b + [0x20] + c
  {
    var space, escape := [0x20], [PERCENT, 0x32, 0x30];
    EncodedIdentity(a, false);
    EncodedIdentity(b, false);
    EncodedIdentity(c, false);
    assert EncodedWith(space, false) == escape;
    EncodedWithAppend(a, space, false);
    EncodedWithAppend(a + space, b, false);
    EncodedWithAppend(a + space + b, space, false);
    EncodedWithAppend(a + space + b + space, c, false);
    RoundTrip(a + space + b + space + c);
  }

  /** "text with spaces" encodes to "text%20with%20spaces" and back. */
  lemma SpacesExample()
    ensures var text, space, with, spaces := [0x74, 0x65, 0x78, 0x74], [0x20], [0x77, 0x69, 0x74, 0x68],
                                             [0x73, 0x70, 0x61, 0x63, 0x65, 0x73];
            var escape := [PERCENT, 0x32, 0x30];
            && Encoded(text + space + with + space + spaces) == text + escape + with + escape + spaces
            && Decoded(text + escape + with + escape + spaces) == text + space + with + space + spaces
  {
    SpacesEscaped([0x74, 0x65, 0x78, 0x74], [0x77, 0x69, 0x74, 0x68], [0x73, 0x70, 0x61, 0x63, 0x65, 0x73]);
  }

  // ---------------------------------------------------------------------------
  // Method names
  // ---------------------------------------------------------------------------

  /** Every byte lies in 0x61 - 0x7a (the empty name included). */
  predicate IsMethodName(s: Bytes) {
    forall i | 0 <= i < |s| :: IsLowerLetter(s[i])
  }

  /** `validate_method_name`: fails at the first byte outside 0x61 - 0x7a. */
  method ValidateMethodName(s: Bytes) returns (r: Outcome<SyntaxError>)
    ensures r == Pass <==> IsMethodName(s)
    ensures r != Pass ==> r == Fail(InvalidMethodName)
  {
    for i := 0 to |s|
      invariant forall j | 0 <= j < i :: IsLowerLetter(s[j])
    {
      if s[i] < LOWER_A || s[i] > LOWER_Z {
        return Fail(InvalidMethodName);
      }
    }
    return Pass;
  }
}
