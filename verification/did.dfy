/** Decentralized identifiers `did:<name>:<method-specific id>` (`src/did.rs`). */
module Did {
  import opened Wrappers
  import opened Text
  import opened ByteCodec

  /** `name` is the method name, `methodId` (the source's `method` field) the method-specific id, both held as
      the raw bytes of the text they were parsed from. */
  datatype DID = DID(name: Bytes, methodId: Bytes)

  /** "did:" */
  const DID_PREFIX: Bytes := [0x64, 0x69, 0x64, 0x3A]

  predicate HasDidPrefix(s: Bytes) {
    |DID_PREFIX| <= |s| && s[..|DID_PREFIX|] == DID_PREFIX
  }

  /** `DID::parse`: strip `did:`, split at the first `:`, check the method name
      and keep both halves verbatim (no percent-decoding, empty halves allowed). */
  function Parse(s: Bytes): (r: Result<DID, SyntaxError>)
    ensures !HasDidPrefix(s) ==> r == Err(MissingMethodNameAndId)
    ensures HasDidPrefix(s) && COLON !in s[|DID_PREFIX|..] ==> r == Err(MissingMethodId)
    ensures HasDidPrefix(s) && COLON in s[|DID_PREFIX|..] && r.Err? ==> r == Err(InvalidMethodName)
    ensures r.Ok? ==> s == DID_PREFIX + r.value.name + [COLON] + r.value.methodId
    ensures r.Ok? ==> IsMethodName(r.value.name) && COLON !in r.value.name
  {
    match StripPrefix(s, DID_PREFIX)
    case Some(rest) =>
      assert rest == s[|DID_PREFIX|..];
      (match SplitOnce(rest, COLON)
       case Some((methodName, methodId)) =>
         if IsMethodName(methodName) then Ok(DID(methodName, methodId)) else Err(InvalidMethodName)
       case None => Err(MissingMethodId))
    case None => Err(MissingMethodNameAndId)
  }

  /** `DID::to_string`: `did:`, the encoded name, `:`, the method-id encoding of
      the id (which leaves its colons alone). */
  function ToString(d: DID): (r: Bytes)
    ensures HasDidPrefix(r)
    ensures SplitOnce(r[|DID_PREFIX|..], COLON) == Some((Encoded(d.name), MethodIdEncoded(d.methodId)))
  {
    var r := DID_PREFIX + Encoded(d.name) + [COLON] + MethodIdEncoded(d.methodId);
    NoColonInEncodedName(d.name);
    assert r == DID_PREFIX + (Encoded(d.name) + [COLON] + MethodIdEncoded(d.methodId));
    SplitOnceAt(Encoded(d.name), COLON, MethodIdEncoded(d.methodId));
    r
  }

  /** Every text `did:<name>:<id>` with a valid method name parses to exactly
      that name and id, whatever `id` holds. */
  lemma ParseAccepts(name: Bytes, id: Bytes)
    requires IsMethodName(name)
    ensures Parse(DID_PREFIX + name + [COLON] + id) == Ok(DID(name, id))
  {
    var s := DID_PREFIX + name + [COLON] + id;
    assert COLON !in name;
    assert s == DID_PREFIX + (name + [COLON] + id);
    assert s[..|DID_PREFIX|] == DID_PREFIX;
    SplitOnceAt(name, COLON, id);
  }

  /** The name encoding never writes a `:`. */
  lemma NoColonInEncodedName(name: Bytes)
    ensures COLON !in Encoded(name)
  {
    EncodedAlphabet(name, false);
  }

  /** The encoded name is a valid method name exactly when the name is. */
  lemma {:induction false} EncodedNameValid(name: Bytes)
    ensures IsMethodName(Encoded(name)) <==> IsMethodName(name)
  {
    if name != [] {
      EncodedNameValid(name[1..]);
      var head := EncodeByte(name[0], false);
      var tail := Encoded(name[1..]);
      assert Encoded(name) == head + tail;
      assert IsMethodName(head + tail) <==> IsMethodName(head) && IsMethodName(tail) by {
        if IsMethodName(head) && IsMethodName(tail) {
          forall i | 0 <= i < |head + tail| ensures IsLowerLetter((head + tail)[i]) {
            if i >= |head| { assert (head + tail)[i] == tail[i - |head|]; }
          }
        }
        if IsMethodName(head + tail) {
          assert forall i | 0 <= i < |tail| :: tail[i] == (head + tail)[|head| + i];
          assert forall i | 0 <= i < |head| :: head[i] == (head + tail)[i];
        }
      }
      assert IsMethodName(head) <==> IsLowerLetter(name[0]) by {
        if |head| == 3 { assert !IsLowerLetter(head[0]); }
      }
      assert IsMethodName(name) <==> IsLowerLetter(name[0]) && IsMethodName(name[1..]) by {
        if IsLowerLetter(name[0]) && IsMethodName(name[1..]) {
          forall i | 0 <= i < |name| ensures IsLowerLetter(name[i]) {
            if i > 0 { assert name[i] == name[1..][i - 1]; }
          }
        }
      }
    }
  }

  /** Parsing a formatted DID succeeds exactly when its name is valid, and then
      gives back the name and the ENCODED id: the parser does not decode. */
  lemma ParseToString(d: DID)
    ensures Parse(ToString(d)) ==
      if IsMethodName(d.name) then Ok(DID(d.name, MethodIdEncoded(d.methodId))) else Err(InvalidMethodName)
  {
    var e := Encoded(d.name);
    var s := ToString(d);
    NoColonInEncodedName(d.name);
    EncodedNameValid(d.name);
    assert s == DID_PREFIX + (e + [COLON] + MethodIdEncoded(d.methodId));
    assert s[..|DID_PREFIX|] == DID_PREFIX;
    assert s[|DID_PREFIX|..] == e + [COLON] + MethodIdEncoded(d.methodId);
    SplitOnceAt(e, COLON, MethodIdEncoded(d.methodId));
    if IsMethodName(d.name) {
      EncodedIdentity(d.name, false);
    }
  }

  /** A DID whose id holds only unreserved bytes and colons prints verbatim,
      colons included. */
  lemma ToStringVerbatim(d: DID)
    requires IsMethodName(d.name)
    requires forall i | 0 <= i < |d.methodId| :: Passes(d.methodId[i], true)
    ensures ToString(d) == DID_PREFIX + d.name + [COLON] + d.methodId
  {
    EncodedIdentity(d.name, false);
    EncodedIdentity(d.methodId, true);
  }

  /** `parse(to_string(d)) == d` for such DIDs. */
  lemma ParseToStringRoundTrip(d: DID)
    requires IsMethodName(d.name)
    requires forall i | 0 <= i < |d.methodId| :: Passes(d.methodId[i], true)
    ensures Parse(ToString(d)) == Ok(d)
  {
    ToStringVerbatim(d);
    ParseAccepts(d.name, d.methodId);
  }

  /** The rejections and the colon-keeping split of the source's tests. */
  lemma ParseExamples()
    ensures Parse([]).Err?
    ensures Parse([0x66, 0x72, 0x6F, 0x62, 0x6E, 0x69, 0x6B]).Err?
    ensures Parse(DID_PREFIX[..3]).Err?
    ensures Parse([0x66, 0x72, 0x6F, 0x62, 0x6E, 0x69, 0x6B, COLON]).Err?
    ensures Parse(DID_PREFIX).Err?
    ensures Parse(DID_PREFIX + [0x61, 0x62, 0x63, 0x64, 0x65, 0x66]).Err?
    ensures Parse(DID_PREFIX + [0x61, 0x62, 0x63, 0x64, 0x65, 0x66] + [COLON] + [0x31, 0x32, 0x33, 0x34, 0x35, 0x36])
              == Ok(DID([0x61, 0x62, 0x63, 0x64, 0x65, 0x66], [0x31, 0x32, 0x33, 0x34, 0x35, 0x36]))
    ensures var user := [0x31, 0x32, 0x33, 0x34, 0x35, 0x36, COLON, 0x75, COLON, 0x61, 0x6C, 0x69, 0x63, 0x65];
            Parse(DID_PREFIX + [0x61, 0x62, 0x63, 0x64, 0x65, 0x66] + [COLON] + user)
              == Ok(DID([0x61, 0x62, 0x63, 0x64, 0x65, 0x66], user))
  {
    var abcdef := [0x61, 0x62, 0x63, 0x64, 0x65, 0x66];
    assert COLON !in (DID_PREFIX + abcdef)[|DID_PREFIX|..] by {
      assert (DID_PREFIX + abcdef)[|DID_PREFIX|..] == abcdef;
    }
    var frobnik := [0x66, 0x72, 0x6F, 0x62, 0x6E, 0x69, 0x6B];
    assert frobnik[0] != DID_PREFIX[0];
    assert (frobnik + [COLON])[0] != DID_PREFIX[0];
    assert frobnik + [COLON] == [0x66, 0x72, 0x6F, 0x62, 0x6E, 0x69, 0x6B, COLON];
    ParseAccepts(abcdef, [0x31, 0x32, 0x33, 0x34, 0x35, 0x36]);
    var user := [0x31, 0x32, 0x33, 0x34, 0x35, 0x36, COLON, 0x75, COLON, 0x61, 0x6C, 0x69, 0x63, 0x65];
    ParseAccepts(abcdef, user);
  }
}
