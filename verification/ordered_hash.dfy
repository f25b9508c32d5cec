/** An insertion-ordered set that refuses a second item with a hash it already
    holds (`src/hash.rs`). The element hash of the source, `DefaultHasher`
    over the element's `Hash` impl, is a function the set is built with. */
module OrderedHash {
  import opened Wrappers

  /** A `u64`. */
  type U64 = n: int | 0 <= n < 0x1_0000_0000_0000_0000

  /** The `anyhow` error of `insert`. */
  datatype SetError = AlreadyPresent

  /** `v.retain(|y| y != x)`: every element other than `x`, in order. */
  function Without<T(==)>(s: seq<T>, x: T): (r: seq<T>)
    ensures multiset(r) == multiset(s)[x := 0]
  {
    if s == [] then []
    else
      assert s == [s[0]] + s[1..];
      if s[0] == x then Without(s[1..], x) else [s[0]] + Without(s[1..], x)
  }

  /** `retain` works element by element: it commutes with concatenation, so
      the kept elements stay in their relative order. */
  lemma {:induction false} WithoutAppend<T>(a: seq<T>, b: seq<T>, x: T)
    ensures Without(a + b, x) == Without(a, x) + Without(b, x)
  {
    if a == [] {
      assert a + b == b;
    } else {
      assert (a + b)[1..] == a[1..] + b;
      WithoutAppend(a[1..], b, x);
    }
  }

  /** Removing an absent element changes nothing. */
  lemma {:induction false} WithoutAbsent<T>(s: seq<T>, x: T)
    requires x !in s
    ensures Without(s, x) == s
  {
    if s != [] {
      WithoutAbsent(s[1..], x);
    }
  }

  /** The set's invariant: one hash per element, in the same positions, and no
      hash twice. */
  predicate Consistent<T>(hash: T -> U64, data: seq<T>, hashes: seq<U64>) {
    && |data| == |hashes|
    && (forall i | 0 <= i < |data| :: hashes[i] == hash(data[i]))
    && (forall i, j | 0 <= i < j < |hashes| :: hashes[i] != hashes[j])
  }

  class OrderedHashSet<T(==)> {
    const hash: T -> U64
    var data: seq<T>
    var hashes: seq<U64>
    /** The iterator cursor. */
    var iter: nat

    ghost predicate Valid()
      reads this
    {
      Consistent(hash, data, hashes)
    }

    /** `new`: empty, cursor at the start. */
    constructor(hash: T -> U64)
      ensures this.hash == hash
      ensures data == [] && hashes == [] && iter == 0
      ensures Valid()
    {
      this.hash := hash;
      data, hashes, iter := [], [], 0;
    }

    /** `insert`: refuses an item whose hash is already held, changing nothing;
        otherwise appends the hash and the item and hands the item back. */
    method Insert(item: T) returns (r: Result<T, SetError>)
      modifies this
      ensures hash(item) in old(hashes) ==> r == Err(AlreadyPresent) && data == old(data) && hashes == old(hashes)
      ensures hash(item) !in old(hashes) ==>
                r == Ok(item) && data == old(data) + [item] && hashes == old(hashes) + [hash(item)]
      ensures iter == old(iter)
      ensures old(Valid()) ==> Valid()
    {
      var h := hash(item);
      if h in hashes {
        return Err(AlreadyPresent);
      }
      hashes := hashes + [h];
      data := data + [item];
      return Ok(item);
    }

    /** `delete`: drops every hash equal to the item's and every element equal
        to the item, each vector keeping the order of the rest. The invariant
        survives exactly when no other held element shares the item's hash. */
    method Delete(item: T)
      modifies this
      ensures data == Without(old(data), item)
      ensures hashes == Without(old(hashes), hash(item))
      ensures iter == old(iter)
      ensures old(Valid()) ==> (Valid() <==> forall x | x in old(data) && hash(x) == hash(item) :: x == item)
    {
      var h := hash(item);
      ghost var before := data;
      ghost var beforeHashes := hashes;
      hashes := Without(hashes, h);
      data := Without(data, item);
      if Consistent(hash, before, beforeHashes) {
        if forall x | x in before && hash(x) == h :: x == item {
          DeleteKeepsConsistent(hash, before, beforeHashes, item);
        } else {
          var x :| x in before && hash(x) == h && x != item;
          DeleteSharedHashBreaksConsistent(hash, before, beforeHashes, item, x);
        }
      }
    }

    /** `delete` as evidently intended: an item that is held is removed with
        its hash; an item that is not held changes nothing, so another
        element's hash can never be dropped. */
    method DeleteIfHeld(item: T)
      modifies this
      ensures data == Without(old(data), item)
      ensures hashes == if item in old(data) then Without(old(hashes), hash(item)) else old(hashes)
      ensures iter == old(iter)
      ensures old(Valid()) ==> Valid()
    {
      if item in data {
        ghost var before := data;
        ghost var beforeHashes := hashes;
        hashes := Without(hashes, hash(item));
        data := Without(data, item);
        if Consistent(hash, before, beforeHashes) {
          OnlyHolderOfItsHash(hash, before, beforeHashes, item);
          DeleteKeepsConsistent(hash, before, beforeHashes, item);
        }
      } else {
        WithoutAbsent(data, item);
      }
    }

    /** `to_vec`: the elements in insertion order. */
    function ToVec(): (r: seq<T>)
      reads this
      ensures |r| == |data| && forall i | 0 <= i < |r| :: r[i] == data[i]
    {
      data
    }

    /** `Iterator::next`: the element under the cursor, if any; the cursor
        moves on either way. */
    method Next() returns (r: Option<T>)
      modifies this
      ensures r.Some? <==> old(iter) < |data|
      ensures r.Some? ==> r.value == data[old(iter)]
      ensures iter == old(iter) + 1
      ensures data == old(data) && hashes == old(hashes)
    {
      if iter < |data| {
        r := Some(data[iter]);
      } else {
        r := None;
      }
      iter := iter + 1;
    }
  }

  /** Putting an element and its hash, not yet held, in front keeps the invariant. */
  lemma ConsistentCons<T>(hash: T -> U64, x: T, data: seq<T>, hashes: seq<U64>)
    requires Consistent(hash, data, hashes) && hash(x) !in hashes
    ensures Consistent(hash, [x] + data, [hash(x)] + hashes)
  {
    var d, h := [x] + data, [hash(x)] + hashes;
    forall i | 0 <= i < |d| ensures h[i] == hash(d[i]) {
      if i > 0 { assert d[i] == data[i - 1] && h[i] == hashes[i - 1]; }
    }
    forall i, j | 0 <= i < j < |h| ensures h[i] != h[j] {
      assert h[j] == hashes[j - 1];
      if i > 0 { assert h[i] == hashes[i - 1]; }
    }
  }

  /** `delete` keeps the invariant when the only held element with the item's
      hash, if any, is the item itself. */
  lemma {:induction false} DeleteKeepsConsistent<T>(hash: T -> U64, data: seq<T>, hashes: seq<U64>, item: T)
    requires Consistent(hash, data, hashes)
    requires forall x | x in data && hash(x) == hash(item) :: x == item
    ensures Consistent(hash, Without(data, item), Without(hashes, hash(item)))
  {
    if data != [] {
      var tail, tailHashes := data[1..], hashes[1..];
      assert forall i | 0 <= i < |tail| :: tail[i] == data[i + 1] && tailHashes[i] == hashes[i + 1];
      assert Consistent(hash, tail, tailHashes);
      DeleteKeepsConsistent(hash, tail, tailHashes, item);
      var rest := Without(tailHashes, hash(item));
      if data[0] == item {
        assert Without(data, item) == Without(tail, item);
        assert Without(hashes, hash(item)) == rest;
      } else {
        assert hashes[0] == hash(data[0]) != hash(item);
        assert Without(data, item) == [data[0]] + Without(tail, item);
        assert Without(hashes, hash(item)) == [hashes[0]] + rest;
        assert hashes[0] !in tailHashes by {
          forall j | 0 <= j < |tailHashes| ensures tailHashes[j] != hashes[0] {
            assert tailHashes[j] == hashes[j + 1];
          }
        }
        assert hashes[0] !in rest by {
          assert multiset(rest)[hashes[0]] == multiset(tailHashes)[hashes[0]] == 0;
        }
        ConsistentCons(hash, data[0], Without(tail, item), rest);
      }
    }
  }

  /** `delete` breaks the invariant whenever another held element shares the
      item's hash: that element stays while its hash goes. */
  lemma DeleteSharedHashBreaksConsistent<T>(hash: T -> U64, data: seq<T>, hashes: seq<U64>, item: T, x: T)
    requires Consistent(hash, data, hashes)
    requires x in data && x != item && hash(x) == hash(item)
    ensures !Consistent(hash, Without(data, item), Without(hashes, hash(item)))
  {
    var d, h := Without(data, item), Without(hashes, hash(item));
    assert multiset(d)[x] == multiset(data)[x] > 0;
    assert hash(item) !in h by {
      assert multiset(h)[hash(item)] == 0;
    }
    var i :| 0 <= i < |d| && d[i] == x;
    if |d| == |h| {
      assert h[i] in h;
      assert h[i] != hash(d[i]);
    }
  }

  /** A held item is the only held element with its hash. */
  lemma OnlyHolderOfItsHash<T>(hash: T -> U64, data: seq<T>, hashes: seq<U64>, item: T)
    requires Consistent(hash, data, hashes) && item in data
    ensures forall x | x in data && hash(x) == hash(item) :: x == item
  {
    var i :| 0 <= i < |data| && data[i] == item;
    forall x | x in data && hash(x) == hash(item) ensures x == item {
      var j :| 0 <= j < |data| && data[j] == x;
      assert hashes[i] == hashes[j];
      assert i == j;
    }
  }

  /** A consistent set holds no element twice. */
  lemma NoDuplicates<T>(hash: T -> U64, data: seq<T>, hashes: seq<U64>)
    requires Consistent(hash, data, hashes)
    ensures forall i, j | 0 <= i < j < |data| :: data[i] != data[j]
  {
    forall i, j | 0 <= i < j < |data| ensures data[i] != data[j] {
      assert hashes[i] != hashes[j];
    }
  }

  /** `delete` as written: with every element hashing to 0, deleting an absent
      2 from the set {1} drops 1's hash but keeps 1. */
  lemma DeleteCollisionBreaksInvariant()
    ensures var hash: int -> U64 := x => 0;
            && Consistent(hash, [1], [0])
            && Without([1], 2) == [1]
            && Without([0 as U64], hash(2)) == []
            && !Consistent(hash, Without([1], 2), Without([0 as U64], hash(2)))
  {
    var hash: int -> U64 := x => 0;
    assert Without([1], 2) == [1 as int] + Without([], 2);
    assert Without([0 as U64], hash(2)) == Without([], 0 as U64);
  }
}
