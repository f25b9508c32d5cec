/** DID URLs `did:<name>:<id>[/<path>][?<query>][#<fragment>]` (`src/url.rs`). */
module DidUrl {
  import opened Wrappers
  import opened Text
  import opened ByteCodec
  import opened Did

  const SLASH: Byte := 0x2F
  const QUESTION: Byte := 0x3F
  const HASH: Byte := 0x23
  const AMPERSAND: Byte := 0x26
  const EQUALS: Byte := 0x3D

  /** The reserved query keys. */
  const SERVICE: Bytes := [0x73, 0x65, 0x72, 0x76, 0x69, 0x63, 0x65]
  const RELATIVE_REF: Bytes := [0x72, 0x65, 0x6C, 0x61, 0x74, 0x69, 0x76, 0x65, 0x52, 0x65, 0x66]
  const VERSION_ID: Bytes := [0x76, 0x65, 0x72, 0x73, 0x69, 0x6F, 0x6E, 0x49, 0x64]
  const VERSION_TIME: Bytes := [0x76, 0x65, 0x72, 0x73, 0x69, 0x6F, 0x6E, 0x54, 0x69, 0x6D, 0x65]
  const HASH_LINK: Bytes := [0x68, 0x6C]

  predicate IsReservedKey(key: Bytes) {
    key == SERVICE || key == RELATIVE_REF || key == VERSION_ID || key == VERSION_TIME || key == HASH_LINK
  }

  /** The five reserved keys are five different texts. */
  lemma ReservedKeysDistinct()
    ensures SERVICE != RELATIVE_REF && SERVICE != VERSION_ID && SERVICE != VERSION_TIME && SERVICE != HASH_LINK
    ensures RELATIVE_REF != VERSION_ID && RELATIVE_REF != VERSION_TIME && RELATIVE_REF != HASH_LINK
    ensures VERSION_ID != VERSION_TIME && VERSION_ID != HASH_LINK && VERSION_TIME != HASH_LINK
  {
    assert RELATIVE_REF[0] != VERSION_TIME[0];
  }

  /** A point in time, as the date library's `OffsetDateTime` holds it. */
  datatype Timestamp = Timestamp(unixSeconds: int)

  /** The date library's parse of a `versionTime` value
      (`[year]-[month]-[day]T[hour]:[minute]:[second]`, read as UTC);
      `None` when it refuses the text. */
  type TimeParser = Bytes -> Option<Timestamp>

  type ExtraQuery = map<Bytes, Bytes>

  /** `name` holds the method name and `methodId` (the source's `method` field)
      the method-specific id. */
  datatype URL = URL(
    methodId: Bytes,
    name: Bytes,
    path: Option<Bytes>,
    fragment: Option<Bytes>,
    service: Option<Bytes>,
    relativeRef: Option<Bytes>,
    versionId: Option<Bytes>,
    versionTime: Option<Timestamp>,
    hashLink: Option<Bytes>,
    extraQuery: Option<ExtraQuery>)
  {
    /** `URL::to_did`: the DID the URL is relative to, parameters dropped. */
    function ToDid(): (r: DID)
      ensures r.name == name && r.methodId == methodId
    {
      DID(name, methodId)
    }
  }

  /** The URL the `match_*` steps start from: decoded name, id, path and
      fragment, every query field unset. */
  function Base(name: Bytes, id: Bytes, path: Option<Bytes>, fragment: Option<Bytes>): URL
  {
    URL(Decoded(id), Decoded(name), MapOption(path, Decoded), MapOption(fragment, Decoded),
        None, None, None, None, None, None)
  }

  // ---------------------------------------------------------------------------
  // The query
  // ---------------------------------------------------------------------------

  /** `match_fixed_query_params`: a reserved key sets its field, `service`,
      `versionId` and `hl` verbatim, `relativeRef` percent-decoded and
      `versionTime` through the date parser (whose refusal fails the whole
      parse); any other key goes into the extra map verbatim. */
  function MatchFixedQueryParams(url: URL, extra: ExtraQuery, key: Bytes, value: Bytes, parseTime: TimeParser)
    : (r: Result<(URL, ExtraQuery), SyntaxError>)
    ensures r.Err? <==> key == VERSION_TIME && parseTime(value).None?
    ensures r.Err? ==> r.error == InvalidVersionTime
    ensures r.Ok? && !IsReservedKey(key) ==> r.value == (url, extra[key := value])
    ensures r.Ok? && IsReservedKey(key) ==> r.value.1 == extra
    ensures r.Ok? ==> r.value.0.(service := url.service, relativeRef := url.relativeRef,
                                 versionId := url.versionId, versionTime := url.versionTime,
                                 hashLink := url.hashLink) == url
  {
    if key == SERVICE then Ok((url.(service := Some(value)), extra))
    else if key == RELATIVE_REF then Ok((url.(relativeRef := Some(Decoded(value))), extra))
    else if key == VERSION_ID then Ok((url.(versionId := Some(value)), extra))
    else if key == VERSION_TIME then
      (match parseTime(value)
       case None => Err(InvalidVersionTime)
       case Some(t) => Ok((url.(versionTime := Some(t)), extra)))
    else if key == HASH_LINK then Ok((url.(hashLink := Some(value)), extra))
    else Ok((url, extra[key := value]))
  }

  /** The body of `parse_query`'s loop for one `&`-separated part: split at the
      first `=`; a part without `=` goes into the extra map with an empty value,
      whatever its text. */
  function ApplyPart(url: URL, extra: ExtraQuery, part: Bytes, parseTime: TimeParser)
    : Result<(URL, ExtraQuery), SyntaxError>
  {
    match SplitOnce(part, EQUALS)
    case Some((key, value)) => MatchFixedQueryParams(url, extra, key, value, parseTime)
    case None => Ok((url, extra[part := []]))
  }

  /** The parts applied in order; the first failure stops the loop. */
  function ApplyParts(url: URL, extra: ExtraQuery, parts: seq<Bytes>, parseTime: TimeParser)
    : (r: Result<(URL, ExtraQuery), SyntaxError>)
    ensures r.Err? ==> r.error == InvalidVersionTime
    ensures r.Ok? ==> r.value.0.(service := url.service, relativeRef := url.relativeRef,
                                 versionId := url.versionId, versionTime := url.versionTime,
                                 hashLink := url.hashLink) == url
    ensures r.Ok? ==> extra.Keys <= r.value.1.Keys
    decreases |parts|
  {
    if parts == [] then Ok((url, extra))
    else
      match ApplyPart(url, extra, parts[0], parseTime)
      case Err(e) => Err(e)
      case Ok((u, x)) => ApplyParts(u, x, parts[1..], parseTime)
  }

  /** What `parse_query` leaves in the URL: the fields the parts set, and the
      extra map only when it is not empty. */
  function QueryApplied(url: URL, query: Bytes, parseTime: TimeParser): (r: Result<URL, SyntaxError>)
    ensures r.Err? ==> r.error == InvalidVersionTime
  {
    match ApplyParts(url, map[], Split(query, AMPERSAND), parseTime)
    case Err(e) => Err(e)
    case Ok((u, extra)) => Ok(if extra == map[] then u else u.(extraQuery := Some(extra)))
  }

  /** `parse_query`: a query without `&` is one part; otherwise the loop over
      `query.split("&")` updates the URL's fields and a local extra map. */
  method ParseQuery(url: URL, query: Bytes, parseTime: TimeParser) returns (r: Result<URL, SyntaxError>)
    ensures r == QueryApplied(url, query, parseTime)
  {
    var current := url;
    var extraQuery: ExtraQuery := map[];
    if AMPERSAND !in query {
      SplitWithout(query, AMPERSAND);
      assert [query][1..] == [];
      match SplitOnce(query, EQUALS) {
        case Some((left, right)) =>
          var step := MatchFixedQueryParams(current, extraQuery, left, right, parseTime);
          if step.Err? {
            return Err(step.error);
          }
          current, extraQuery := step.value.0, step.value.1;
        case None =>
          extraQuery := extraQuery[query := []];
      }
      assert ApplyPart(url, map[], query, parseTime) == Ok((current, extraQuery));
      assert ApplyParts(url, map[], [query], parseTime) == ApplyParts(current, extraQuery, [], parseTime);
    } else {
      var parts := Split(query, AMPERSAND);
      for i := 0 to |parts|
        invariant ApplyParts(url, map[], parts, parseTime) == ApplyParts(current, extraQuery, parts[i..], parseTime)
      {
        assert parts[i..][1..] == parts[i + 1..];
        match SplitOnce(parts[i], EQUALS) {
          case Some((left, right)) =>
            var step := MatchFixedQueryParams(current, extraQuery, left, right, parseTime);
            if step.Err? {
              return Err(step.error);
            }
            current, extraQuery := step.value.0, step.value.1;
          case None =>
            extraQuery := extraQuery[parts[i] := []];
        }
      }
      assert parts[|parts|..] == [];
    }
    if extraQuery != map[] {
      current := current.(extraQuery := Some(extraQuery));
    }
    return Ok(current);
  }

  // ---------------------------------------------------------------------------
  // The delimiter chain
  // ---------------------------------------------------------------------------

  /** `match_fragment`: the URL with its fragment, then the query if any. */
  function MatchFragment(name: Bytes, id: Bytes, path: Option<Bytes>, query: Option<Bytes>,
                         fragment: Bytes, parseTime: TimeParser): (r: Result<URL, SyntaxError>)
    ensures r.Err? ==> r.error == InvalidVersionTime
  {
    var url := Base(name, id, path, Some(fragment));
    if query.Some? then QueryApplied(url, query.value, parseTime) else Ok(url)
  }

  /** `match_query`: inside the query the first `#` starts the fragment. */
  function MatchQuery(name: Bytes, id: Bytes, path: Option<Bytes>, query: Bytes,
                      parseTime: TimeParser): (r: Result<URL, SyntaxError>)
    ensures r.Err? ==> r.error == InvalidVersionTime
  {
    match SplitOnce(query, HASH)
    case Some((q, fragment)) => MatchFragment(name, id, path, Some(q), fragment, parseTime)
    case None => QueryApplied(Base(name, id, path, None), query, parseTime)
  }

  /** `match_path`: after the path's `/`, a `?` is looked for before a `#`. */
  function MatchPath(name: Bytes, id: Bytes, left: Bytes, parseTime: TimeParser): (r: Result<URL, SyntaxError>)
    ensures r.Err? ==> r.error == InvalidVersionTime
  {
    match SplitOnce(left, QUESTION)
    case Some((path, query)) => MatchQuery(name, id, Some(path), query, parseTime)
    case None =>
      match SplitOnce(left, HASH)
      case Some((path, fragment)) => MatchFragment(name, id, Some(path), None, fragment, parseTime)
      case None => Ok(Base(name, id, Some(left), None))
  }

  /** The part of `URL::parse` after the method name's `:`: split at the first
      `/`, else the first `?`, else the first `#`. */
  function MatchRest(name: Bytes, right: Bytes, parseTime: TimeParser): (r: Result<URL, SyntaxError>)
    ensures r.Err? ==> r.error == InvalidVersionTime
  {
    match SplitOnce(right, SLASH)
    case Some((id, path)) => MatchPath(name, id, path, parseTime)
    case None =>
      match SplitOnce(right, QUESTION)
      case Some((id, query)) => MatchQuery(name, id, None, query, parseTime)
      case None =>
        match SplitOnce(right, HASH)
        case Some((id, fragment)) => MatchFragment(name, id, None, None, fragment, parseTime)
        case None => Ok(Base(name, right, None, None))
  }

  /** `URL::parse`: strip `did:` and split the method name off at the first `:`. */
  function Parse(s: Bytes, parseTime: TimeParser): (r: Result<URL, SyntaxError>)
    ensures !HasDidPrefix(s) ==> r == Err(NotDidScheme)
    ensures HasDidPrefix(s) && COLON !in s[|DID_PREFIX|..] ==> r == Err(MissingMethodSpecificId)
    ensures HasDidPrefix(s) && COLON in s[|DID_PREFIX|..] && r.Err? ==> r == Err(InvalidVersionTime)
  {
    match StripPrefix(s, DID_PREFIX)
    case None => Err(NotDidScheme)
    case Some(rest) =>
      assert rest == s[|DID_PREFIX|..];
      match SplitOnce(rest, COLON)
      case None => Err(MissingMethodSpecificId)
      case Some((name, right)) => MatchRest(name, right, parseTime)
  }

  // ---------------------------------------------------------------------------
  // What the delimiter chain computes
  // ---------------------------------------------------------------------------

  /** The raw pieces of a DID URL text, before decoding. */
  datatype Segments = Segments(name: Bytes, id: Bytes, path: Option<Bytes>, query: Option<Bytes>,
                               fragment: Option<Bytes>)

  function Delimited(d: Byte, part: Option<Bytes>): Bytes {
    if part.Some? then [d] + part.value else []
  }

  /** The text the pieces make. */
  function Assemble(g: Segments): Bytes {
    DID_PREFIX + g.name + [COLON] + g.id
      + Delimited(SLASH, g.path) + Delimited(QUESTION, g.query) + Delimited(HASH, g.fragment)
  }

  /** Pieces as the parser cuts them. The name holds no `:`. A path is cut at the
      first `/` of the rest, so the id holds no `/` (it may hold `?` and `#`),
      the path no `?`, and the path no `#` unless a query follows. Without a
      path, the rest holds no `/`, and the id ends at the first `?`, else at the
      first `#`. A query ends at its first `#`; the fragment is what follows. */
  predicate Canonical(g: Segments) {
    && COLON !in g.name
    && (g.path.Some? ==>
          && SLASH !in g.id
          && QUESTION !in g.path.value
          && (g.query.Some? ==> HASH !in g.query.value)
          && (g.query.None? ==> HASH !in g.path.value && (g.fragment.Some? ==> QUESTION !in g.fragment.value)))
    && (g.path.None? && g.query.Some? ==>
          && SLASH !in g.id && QUESTION !in g.id
          && SLASH !in g.query.value && HASH !in g.query.value
          && (g.fragment.Some? ==> SLASH !in g.fragment.value))
    && (g.path.None? && g.query.None? ==>
          && SLASH !in g.id && QUESTION !in g.id && HASH !in g.id
          && (g.fragment.Some? ==> SLASH !in g.fragment.value && QUESTION !in g.fragment.value))
  }

  /** The URL the pieces stand for: name, id, path and fragment decoded, the
      query applied. */
  function Build(g: Segments, parseTime: TimeParser): Result<URL, SyntaxError> {
    var url := Base(g.name, g.id, g.path, g.fragment);
    if g.query.Some? then QueryApplied(url, g.query.value, parseTime) else Ok(url)
  }

  /** `match_query` on a query (holding no `#`) and an optional fragment. */
  lemma MatchQueryAssembled(g: Segments, parseTime: TimeParser)
    requires g.query.Some? && HASH !in g.query.value
    ensures MatchQuery(g.name, g.id, g.path, g.query.value + Delimited(HASH, g.fragment), parseTime)
              == Build(g, parseTime)
  {
    var url := Base(g.name, g.id, g.path, g.fragment);
    assert Build(g, parseTime) == QueryApplied(url, g.query.value, parseTime);
    if g.fragment.Some? {
      assert g.query.value + Delimited(HASH, g.fragment) == g.query.value + [HASH] + g.fragment.value;
      SplitOnceAt(g.query.value, HASH, g.fragment.value);
      assert MatchQuery(g.name, g.id, g.path, g.query.value + Delimited(HASH, g.fragment), parseTime)
          == MatchFragment(g.name, g.id, g.path, g.query, g.fragment.value, parseTime);
    } else {
      assert g.query.value + Delimited(HASH, g.fragment) == g.query.value;
    }
  }

  /** `match_path` on what follows the path's `/`. */
  lemma MatchPathAssembled(g: Segments, parseTime: TimeParser)
    requires g.path.Some? && Canonical(g)
    ensures MatchPath(g.name, g.id, g.path.value + Delimited(QUESTION, g.query) + Delimited(HASH, g.fragment),
                      parseTime) == Build(g, parseTime)
  {
    var dh := Delimited(HASH, g.fragment);
    var left := g.path.value + Delimited(QUESTION, g.query) + dh;
    if g.query.Some? {
      assert left == g.path.value + [QUESTION] + (g.query.value + dh);
      SplitOnceAt(g.path.value, QUESTION, g.query.value + dh);
      MatchQueryAssembled(g, parseTime);
    } else if g.fragment.Some? {
      assert left == g.path.value + [HASH] + g.fragment.value;
      assert QUESTION !in left;
      SplitOnceAt(g.path.value, HASH, g.fragment.value);
    } else {
      assert left == g.path.value;
    }
  }

  /** The text after the name's `:` in an assembled text. */
  function AfterName(g: Segments): Bytes {
    g.id + Delimited(SLASH, g.path) + Delimited(QUESTION, g.query) + Delimited(HASH, g.fragment)
  }

  lemma AssembleAfterName(g: Segments)
    ensures Assemble(g) == DID_PREFIX + g.name + [COLON] + AfterName(g)
  {
  }

  lemma AssembleAround(g: Segments, rest: Bytes)
    requires rest == g.name + [COLON] + AfterName(g)
    ensures Assemble(g) == DID_PREFIX + rest
  {
    AssembleAfterName(g);
    assert DID_PREFIX + g.name + [COLON] + AfterName(g) == DID_PREFIX + (g.name + [COLON] + AfterName(g));
  }

  /** The text after the name's `:` when there is no path. */
  lemma NoPathAssembled(g: Segments, parseTime: TimeParser)
    requires g.path.None? && Canonical(g)
    ensures MatchRest(g.name, AfterName(g), parseTime) == Build(g, parseTime)
  {
    var dh := Delimited(HASH, g.fragment);
    var right := g.id + Delimited(QUESTION, g.query) + dh;
    assert AfterName(g) == right;
    if g.query.Some? {
      assert right == g.id + [QUESTION] + (g.query.value + dh);
      SplitOnceAt(g.id, QUESTION, g.query.value + dh);
      MatchQueryAssembled(g, parseTime);
    } else if g.fragment.Some? {
      assert right == g.id + [HASH] + g.fragment.value;
      SplitOnceAt(g.id, HASH, g.fragment.value);
    } else {
      assert right == g.id;
    }
  }

  /** The text after the name's `:` when there is a path. */
  lemma PathAssembled(g: Segments, parseTime: TimeParser)
    requires g.path.Some? && Canonical(g)
    ensures MatchRest(g.name, AfterName(g), parseTime) == Build(g, parseTime)
  {
    var tail := g.path.value + Delimited(QUESTION, g.query) + Delimited(HASH, g.fragment);
    assert AfterName(g) == g.id + [SLASH] + tail;
    SplitOnceAt(g.id, SLASH, tail);
    MatchPathAssembled(g, parseTime);
  }

  /** Past the prefix, the parser cuts the name at its first `:`. */
  lemma ParseSplitsName(name: Bytes, right: Bytes, parseTime: TimeParser)
    requires COLON !in name
    ensures Parse(DID_PREFIX + name + [COLON] + right, parseTime) == MatchRest(name, right, parseTime)
  {
    var s := DID_PREFIX + name + [COLON] + right;
    assert s == DID_PREFIX + (name + [COLON] + right);
    assert s[..|DID_PREFIX|] == DID_PREFIX;
    SplitOnceAt(name, COLON, right);
  }

  /** The parser cuts an assembled text back into the pieces it was made from. */
  lemma ParseAssembled(g: Segments, parseTime: TimeParser)
    requires Canonical(g)
    ensures Parse(Assemble(g), parseTime) == Build(g, parseTime)
  {
    AssembleAfterName(g);
    ParseSplitsName(g.name, AfterName(g), parseTime);
    if g.path.Some? {
      PathAssembled(g, parseTime);
    } else {
      NoPathAssembled(g, parseTime);
    }
  }

  /** The query and fragment cut from the text after a `?`. */
  lemma QueryDecomposes(all: Bytes) returns (query: Bytes, fragment: Option<Bytes>)
    ensures HASH !in query && query + Delimited(HASH, fragment) == all
    ensures SLASH !in all ==> SLASH !in query && (fragment.Some? ==> SLASH !in fragment.value)
  {
    if HASH in all {
      var (q, f) := SplitOnce(all, HASH).value;
      query, fragment := q, Some(f);
    } else {
      query, fragment := all, None;
    }
  }

  /** Pieces for a path followed by a `?`. */
  lemma PathQueryPieces(name: Bytes, id: Bytes, path: Bytes, all: Bytes) returns (g: Segments)
    requires COLON !in name && SLASH !in id && QUESTION !in path
    ensures Canonical(g) && g.name == name && AfterName(g) == id + [SLASH] + (path + [QUESTION] + all)
  {
    var query, fragment := QueryDecomposes(all);
    g := Segments(name, id, Some(path), Some(query), fragment);
    assert AfterName(g) == id + [SLASH] + (path + [QUESTION] + (query + Delimited(HASH, fragment)));
  }

  /** Pieces for a path followed by a `#` and no `?`. */
  lemma PathFragmentPieces(name: Bytes, id: Bytes, path: Bytes, fragment: Bytes) returns (g: Segments)
    requires COLON !in name && SLASH !in id && QUESTION !in path && HASH !in path && QUESTION !in fragment
    ensures Canonical(g) && g.name == name && AfterName(g) == id + [SLASH] + (path + [HASH] + fragment)
  {
    g := Segments(name, id, Some(path), None, Some(fragment));
    assert AfterName(g) == id + [SLASH] + path + [HASH] + fragment;
  }

  /** Pieces for a text after the name's `:` with a `/` in it. */
  lemma PathDecomposes(name: Bytes, id: Bytes, left: Bytes) returns (g: Segments)
    requires COLON !in name && SLASH !in id
    ensures Canonical(g) && g.name == name && AfterName(g) == id + [SLASH] + left
  {
    if QUESTION in left {
      var (path, all) := SplitOnce(left, QUESTION).value;
      g := PathQueryPieces(name, id, path, all);
    } else if HASH in left {
      var (path, fragment) := SplitOnce(left, HASH).value;
      assert QUESTION !in fragment by {
        assert left == path + [HASH] + fragment;
      }
      g := PathFragmentPieces(name, id, path, fragment);
    } else {
      g := Segments(name, id, Some(left), None, None);
      assert AfterName(g) == id + [SLASH] + left + [] + [];
    }
  }

  /** Pieces for a rest without a `/` and with a `?`. */
  lemma IdQueryPieces(name: Bytes, id: Bytes, all: Bytes) returns (g: Segments)
    requires COLON !in name && SLASH !in id && QUESTION !in id && SLASH !in all
    ensures Canonical(g) && g.name == name && AfterName(g) == id + [QUESTION] + all
  {
    var query, fragment := QueryDecomposes(all);
    g := Segments(name, id, None, Some(query), fragment);
    assert AfterName(g) == id + [] + [QUESTION] + query + Delimited(HASH, fragment);
  }

  /** Pieces for a rest without `/` or `?` and with a `#`. */
  lemma IdFragmentPieces(name: Bytes, id: Bytes, fragment: Bytes) returns (g: Segments)
    requires COLON !in name && SLASH !in id && QUESTION !in id && HASH !in id
    requires SLASH !in fragment && QUESTION !in fragment
    ensures Canonical(g) && g.name == name && AfterName(g) == id + [HASH] + fragment
  {
    g := Segments(name, id, None, None, Some(fragment));
    assert AfterName(g) == id + [] + [] + [HASH] + fragment;
  }

  /** Pieces for a text after the name's `:` without a `/`. */
  lemma NoPathDecomposes(name: Bytes, right: Bytes) returns (g: Segments)
    requires COLON !in name && SLASH !in right
    ensures Canonical(g) && g.name == name && AfterName(g) == right
  {
    if QUESTION in right {
      var (id, all) := SplitOnce(right, QUESTION).value;
      assert SLASH !in id && SLASH !in all by {
        assert right == id + [QUESTION] + all;
      }
      g := IdQueryPieces(name, id, all);
    } else if HASH in right {
      var (id, fragment) := SplitOnce(right, HASH).value;
      assert SLASH !in id && QUESTION !in id && SLASH !in fragment && QUESTION !in fragment by {
        assert right == id + [HASH] + fragment;
      }
      g := IdFragmentPieces(name, id, fragment);
    } else {
      g := Segments(name, right, None, None, None);
      assert AfterName(g) == right + [] + [] + [];
    }
  }

  /** Pieces for any text after the name's `:`. */
  lemma RestDecomposes(name: Bytes, right: Bytes) returns (g: Segments)
    requires COLON !in name
    ensures Canonical(g) && g.name == name && AfterName(g) == right
  {
    if SLASH in right {
      var (id, left) := SplitOnce(right, SLASH).value;
      g := PathDecomposes(name, id, left);
    } else {
      g := NoPathDecomposes(name, right);
    }
  }

  /** Every text with the `did:` prefix and a `:` after the name is made of
      pieces the parser cuts as they were made. */
  lemma ParseDecomposes(s: Bytes) returns (g: Segments)
    requires HasDidPrefix(s) && COLON in s[|DID_PREFIX|..]
    ensures Canonical(g) && Assemble(g) == s
  {
    var rest := s[|DID_PREFIX|..];
    assert s == DID_PREFIX + rest;
    var split := SplitOnce(rest, COLON).value;
    g := RestDecomposes(split.0, split.1);
    AssembleAround(g, rest);
  }

  /** Together: every parse that gets past the prefix and the name is the
      decoded pieces the text is made of, with the query applied. */
  lemma ParseCharacterized(s: Bytes, parseTime: TimeParser)
    requires HasDidPrefix(s) && COLON in s[|DID_PREFIX|..]
    ensures exists g :: Canonical(g) && Assemble(g) == s && Parse(s, parseTime) == Build(g, parseTime)
  {
    var g := ParseDecomposes(s);
    ParseAssembled(g, parseTime);
  }

  /** With no `/`, `?` or `#` after the name, only the name and the id are set. */
  lemma ParsePlain(name: Bytes, id: Bytes, parseTime: TimeParser)
    requires COLON !in name && SLASH !in id && QUESTION !in id && HASH !in id
    ensures Parse(DID_PREFIX + name + [COLON] + id, parseTime) == Ok(Base(name, id, None, None))
    ensures var u := Base(name, id, None, None);
            u.path == u.fragment == u.service == u.relativeRef == u.versionId == u.hashLink == None
            && u.versionTime.None? && u.extraQuery.None?
  {
    var g := Segments(name, id, None, None, None);
    assert Assemble(g) == DID_PREFIX + name + [COLON] + id;
    ParseAssembled(g, parseTime);
  }

  /** The `/` is looked for first: a `#` before it stays in the id and the
      path ends the text, e.g. `did:example:123#/degree` has id `123#`, path
      `degree` and no fragment. */
  lemma SlashBeforeFragment(name: Bytes, id: Bytes, path: Bytes, parseTime: TimeParser)
    requires COLON !in name && SLASH !in id && QUESTION !in path && HASH !in path
    ensures Parse(DID_PREFIX + name + [COLON] + id + [HASH, SLASH] + path, parseTime)
              == Ok(Base(name, id + [HASH], Some(path), None))
  {
    var g := Segments(name, id + [HASH], Some(path), None, None);
    assert Assemble(g) == DID_PREFIX + name + [COLON] + id + [HASH, SLASH] + path;
    ParseAssembled(g, parseTime);
  }

  /** Without `%` and delimiters, the DID URL parser and the DID parser agree on
      the DID; `follow` relies on this. */
  lemma ParseAgreesWithDid(s: Bytes, parseTime: TimeParser)
    requires Did.Parse(s).Ok?
    requires PERCENT !in s && SLASH !in s && QUESTION !in s && HASH !in s
    ensures Parse(s, parseTime).Ok? && Parse(s, parseTime).value.ToDid() == Did.Parse(s).value
  {
    var d := Did.Parse(s).value;
    assert s == DID_PREFIX + d.name + [COLON] + d.methodId;
    assert PERCENT !in d.name && PERCENT !in d.methodId;
    ParsePlain(d.name, d.methodId, parseTime);
    DecodedWithoutPercent(d.name);
    DecodedWithoutPercent(d.methodId);
  }

  // ---------------------------------------------------------------------------
  // What the query sets
  // ---------------------------------------------------------------------------

  /** A `versionTime=<value>` part whose value the date parser refuses. */
  predicate BadVersionTime(part: Bytes, parseTime: TimeParser) {
    match SplitOnce(part, EQUALS)
    case Some((key, value)) => key == VERSION_TIME && parseTime(value).None?
    case None => false
  }

  /** The query fails exactly when one of its parts is a refused `versionTime`. */
  lemma {:induction false} ApplyPartsFails(url: URL, extra: ExtraQuery, parts: seq<Bytes>, parseTime: TimeParser)
    ensures ApplyParts(url, extra, parts, parseTime).Err?
        <==> exists i | 0 <= i < |parts| :: BadVersionTime(parts[i], parseTime)
    decreases |parts|
  {
    if parts != [] {
      match ApplyPart(url, extra, parts[0], parseTime)
      case Err(_) =>
      case Ok((u, x)) =>
        ApplyPartsFails(u, x, parts[1..], parseTime);
        assert !BadVersionTime(parts[0], parseTime);
        if exists i | 0 <= i < |parts| :: BadVersionTime(parts[i], parseTime) {
          var i :| 0 <= i < |parts| && BadVersionTime(parts[i], parseTime);
          assert parts[1..][i - 1] == parts[i];
        }
        if exists i | 0 <= i < |parts[1..]| :: BadVersionTime(parts[1..][i], parseTime) {
          var i :| 0 <= i < |parts[1..]| && BadVersionTime(parts[1..][i], parseTime);
          assert parts[i + 1] == parts[1..][i];
        }
    }
  }

  lemma QueryFails(url: URL, query: Bytes, parseTime: TimeParser)
    ensures var parts := Split(query, AMPERSAND);
            (QueryApplied(url, query, parseTime).Err?
             <==> exists i | 0 <= i < |parts| :: BadVersionTime(parts[i], parseTime))
  {
    ApplyPartsFails(url, map[], Split(query, AMPERSAND), parseTime);
    assert QueryApplied(url, query, parseTime).Err? <==> ApplyParts(url, map[], Split(query, AMPERSAND), parseTime).Err?;
  }

  /** The later of two settings of one field. */
  function Latest<T>(later: Option<T>, earlier: Option<T>): Option<T> {
    if later.Some? then later else earlier
  }

  /** The `<key>=<value>` a part reads, if it holds a `=`. */
  function Assignment(part: Bytes): Option<(Bytes, Bytes)> {
    SplitOnce(part, EQUALS)
  }

  /** The entry a part makes in the extra map: a part without `=` is a key with
      an empty value; an unreserved key keeps its value. */
  function ExtraEntry(part: Bytes): Option<(Bytes, Bytes)> {
    match SplitOnce(part, EQUALS)
    case None => Some((part, []))
    case Some((k, v)) => if IsReservedKey(k) then None else Some((k, v))
  }

  /** The value `entry` gives `key` in one part. */
  function Given(part: Bytes, key: Bytes, entry: Bytes -> Option<(Bytes, Bytes)>): Option<Bytes> {
    if entry(part).Some? && entry(part).value.0 == key then Some(entry(part).value.1) else None
  }

  /** The value `entry` gives `key` in the last part it gives `key` a value in. */
  function LastEntry(parts: seq<Bytes>, key: Bytes, entry: Bytes -> Option<(Bytes, Bytes)>): Option<Bytes>
    decreases |parts|
  {
    if parts == [] then None
    else
      Latest(LastEntry(parts[1..], key, entry), Given(parts[0], key, entry))
  }

  function LastAssigned(parts: seq<Bytes>, key: Bytes): Option<Bytes> {
    LastEntry(parts, key, Assignment)
  }

  function LastExtra(parts: seq<Bytes>, key: Bytes): Option<Bytes> {
    LastEntry(parts, key, ExtraEntry)
  }

  predicate Names(entry: Bytes -> Option<(Bytes, Bytes)>, part: Bytes, key: Bytes) {
    entry(part).Some? && entry(part).value.0 == key
  }

  /** `LastEntry` is what its name says: the value of a part naming `key` after
      which no part names `key`, and `None` when no part names it. */
  lemma {:induction false} LastEntryIsLast(parts: seq<Bytes>, key: Bytes, entry: Bytes -> Option<(Bytes, Bytes)>)
    ensures LastEntry(parts, key, entry).None? <==> forall i | 0 <= i < |parts| :: !Names(entry, parts[i], key)
    ensures LastEntry(parts, key, entry).Some? ==>
              exists i | 0 <= i < |parts| ::
                && Names(entry, parts[i], key)
                && entry(parts[i]).value.1 == LastEntry(parts, key, entry).value
                && forall j | i < j < |parts| :: !Names(entry, parts[j], key)
    decreases |parts|
  {
    if parts != [] {
      var tail := parts[1..];
      LastEntryIsLast(tail, key, entry);
      assert forall j | 1 <= j < |parts| :: parts[j] == tail[j - 1];
      if LastEntry(tail, key, entry).Some? {
        var i :| 0 <= i < |tail| && Names(entry, tail[i], key)
                 && entry(tail[i]).value.1 == LastEntry(tail, key, entry).value
                 && forall j | i < j < |tail| :: !Names(entry, tail[j], key);
        assert Names(entry, parts[i + 1], key);
      } else if Names(entry, parts[0], key) {
        assert Names(entry, parts[0], key);
      }
    }
  }

  /** One part moves each reserved field to the value the part assigns it, if
      any, and adds the part's extra entry, if any. */
  lemma ApplyPartFields(url: URL, extra: ExtraQuery, part: Bytes, parseTime: TimeParser)
    requires ApplyPart(url, extra, part, parseTime).Ok?
    ensures var (u, x) := ApplyPart(url, extra, part, parseTime).value;
            && u.service == Latest(Given(part, SERVICE, Assignment), url.service)
            && u.relativeRef == Latest(MapOption(Given(part, RELATIVE_REF, Assignment), Decoded), url.relativeRef)
            && u.versionId == Latest(Given(part, VERSION_ID, Assignment), url.versionId)
            && u.hashLink == Latest(Given(part, HASH_LINK, Assignment), url.hashLink)
            && u.versionTime == (if Given(part, VERSION_TIME, Assignment).Some?
                                 then parseTime(Given(part, VERSION_TIME, Assignment).value) else url.versionTime)
            && (forall k :: k in x <==> k in extra || Given(part, k, ExtraEntry).Some?)
            && (forall k | k in x :: x[k] == if Given(part, k, ExtraEntry).Some? then Given(part, k, ExtraEntry).value else extra[k])
  {
    ReservedKeysDistinct();
    match SplitOnce(part, EQUALS)
    case None =>
    case Some((key, value)) =>
      assert Assignment(part) == Some((key, value));
      if IsReservedKey(key) {
        assert ExtraEntry(part).None?;
      } else {
        assert ExtraEntry(part) == Some((key, value));
      }
  }

  /** Every reserved field ends up holding its LAST assignment in the query
      (`relativeRef` percent-decoded, `versionTime` parsed) or, when the query
      never assigns it, what it held before; the extra map gains exactly the
      keys of the parts without `=` or with an unreserved key, each with the
      value of its last such part. */
  lemma {:induction false} ApplyPartsFields(url: URL, extra: ExtraQuery, parts: seq<Bytes>, parseTime: TimeParser)
    requires ApplyParts(url, extra, parts, parseTime).Ok?
    ensures var (u, x) := ApplyParts(url, extra, parts, parseTime).value;
            && u.service == Latest(LastAssigned(parts, SERVICE), url.service)
            && u.relativeRef == Latest(MapOption(LastAssigned(parts, RELATIVE_REF), Decoded), url.relativeRef)
            && u.versionId == Latest(LastAssigned(parts, VERSION_ID), url.versionId)
            && u.hashLink == Latest(LastAssigned(parts, HASH_LINK), url.hashLink)
            && u.versionTime == (if LastAssigned(parts, VERSION_TIME).Some? then parseTime(LastAssigned(parts, VERSION_TIME).value)
                               else url.versionTime)
            && (forall k :: k in x <==> k in extra || LastExtra(parts, k).Some?)
            && (forall k | k in x :: x[k] == if LastExtra(parts, k).Some? then LastExtra(parts, k).value else extra[k])
    decreases |parts|
  {
    if parts != [] {
      var (u, x) := ApplyPart(url, extra, parts[0], parseTime).value;
      ApplyPartFields(url, extra, parts[0], parseTime);
      ApplyPartsFields(u, x, parts[1..], parseTime);
      assert [parts[0]][1..] == parts[..0];
    }
  }

  /** `parse_query` as a whole: the reserved fields as above; the extra map is
      set exactly when some part makes an extra entry, and then holds the last
      value of each such key and nothing else. */
  lemma QueryFields(url: URL, query: Bytes, parseTime: TimeParser)
    requires QueryApplied(url, query, parseTime).Ok?
    ensures var parts, u := Split(query, AMPERSAND), QueryApplied(url, query, parseTime).value;
            && u.service == Latest(LastAssigned(parts, SERVICE), url.service)
            && u.relativeRef == Latest(MapOption(LastAssigned(parts, RELATIVE_REF), Decoded), url.relativeRef)
            && u.versionId == Latest(LastAssigned(parts, VERSION_ID), url.versionId)
            && u.hashLink == Latest(LastAssigned(parts, HASH_LINK), url.hashLink)
            && u.versionTime == (if LastAssigned(parts, VERSION_TIME).Some?
                                 then parseTime(LastAssigned(parts, VERSION_TIME).value) else url.versionTime)
            && ((forall k :: LastExtra(parts, k).None?) ==> u.extraQuery == url.extraQuery)
            && ((exists k :: LastExtra(parts, k).Some?) ==>
                  && u.extraQuery.Some?
                  && (forall k :: k in u.extraQuery.value <==> LastExtra(parts, k).Some?)
                  && (forall k | k in u.extraQuery.value :: u.extraQuery.value[k] == LastExtra(parts, k).value))
  {
    var parts := Split(query, AMPERSAND);
    ApplyPartsFields(url, map[], parts, parseTime);
    var (u, x) := ApplyParts(url, map[], parts, parseTime).value;
    if exists k :: LastExtra(parts, k).Some? {
      var k :| LastExtra(parts, k).Some?;
      assert k in x;
    }
  }

  /** `relativeRef=%2Fref` sets the relative reference to `/ref`, while the
      other reserved values are kept as written. */
  lemma RelativeRefExample(url: URL, extra: ExtraQuery, parseTime: TimeParser)
    ensures MatchFixedQueryParams(url, extra, RELATIVE_REF, [PERCENT, 0x32, 0x46, 0x72, 0x65, 0x66], parseTime)
              == Ok((url.(relativeRef := Some([SLASH, 0x72, 0x65, 0x66])), extra))
    ensures MatchFixedQueryParams(url, extra, SERVICE, [PERCENT, 0x32, 0x46], parseTime)
              == Ok((url.(service := Some([PERCENT, 0x32, 0x46])), extra))
  {
    var escaped: Bytes := [PERCENT, 0x32, 0x46];
    var rest: Bytes := [0x72, 0x65, 0x66];
    assert [PERCENT, 0x32, 0x46, 0x72, 0x65, 0x66] == escaped + rest;
    RunAppend(Idle([]), escaped, rest);
    PercentTriple([], 0x32, 0x46);
    assert 16 * HexValue(0x32) + HexValue(0x46) == SLASH;
    assert Run(Idle([]), escaped) == Idle([SLASH]);
    RunWithoutPercent(Idle([SLASH]), rest);
    assert Decoded(escaped + rest) == [SLASH] + rest == [SLASH, 0x72, 0x65, 0x66];
  }
}
