# did-toolkit core in Dafny

A Dafny model of the core of `did-toolkit`, a Rust library for decentralized
identifiers (W3C DID Core), with proofs about that model. It covers:

- the percent-encoding, percent-decoding and method-name checks of `string.rs`;
- the DID type and its parser and formatter (`did.rs`);
- the DID URL type and its delimiter-driven parser, query handling included (`url.rs`);
- the document records and the verification-method type names (`document.rs`);
- the in-memory registry and its resolution queries (`registry.rs`);
- the insertion-ordered hash set (`hash.rs`);
- the two-slot `Either` (`either.rs`).

All text is held as byte sequences (`Wrappers.Bytes`). `Text` models the slice
operations of Rust's `str` that the parsers are built from (`strip_prefix`,
`split_once`, `split`). Code that updates variables in a loop is modelled by
methods with loops, each proved equal to a specification function:

- `url_encoded`, `url_decoded`, `validate_method_name` and `parse_query`;
- the registry queries.

The registry and the hash set are classes whose methods update their fields.

## Behaviour of the code that differs from DID Core

The model follows the code where it differs from the W3C DID Core syntax:

- A method name is accepted when every byte is in `a`-`z`. Digits are refused
  and the empty name is accepted (`string.rs:59-69`).
- `DID::parse` keeps both halves verbatim: it does not percent-decode, and
  either half may be empty.
- `URL::parse` splits at the first `/` before looking for `?` or `#`. So in
  `did:example:123#/degree` the method-specific id is `123#`, the path is
  `degree` and there is no fragment (`DidUrl.SlashBeforeFragment`).
- Query keys and values outside the five reserved keys go into the extra map
  without decoding. A later duplicate key overwrites an earlier one, for reserved
  and extra keys alike.
- `controls` reports an unregistered controller with an error that names the
  subject DID, not the controller (`registry.rs:69`).
- `document.rs` declares `also_known_as` as a set of URLs, but `registry.rs`
  reads its entries as `Either<DID, Url>`. The model follows the registry.

## Model

| member | source | states |
|---|---|---|
| Text.StripPrefix | src/did.rs:22 | present exactly when the text starts with the prefix, and then the text is prefix + rest |
| Text.SplitOnce | src/did.rs:23 | present exactly when the delimiter occurs; the text is left + delimiter + right, and left holds no delimiter (the first occurrence) |
| Text.SplitOnceAt | src/url.rs:29-37 | a text built as a + d + b with no d in a splits back into a and b |
| Text.Split | src/url.rs:160 | at least one part, no part contains the delimiter, and joining the parts with it gives the text back |
| Text.SplitWithout | src/url.rs:150-158 | a text without `&` is one part, so the single-part branch of `parse_query` agrees with its loop |
| ByteCodec.EncodeByte | src/string.rs:8-14 | a byte is copied exactly when unreserved (or a `:` in the method-id encoding); otherwise it becomes `%` and two uppercase hex digits whose value is the byte |
| ByteCodec.EncodedPrefixStep | src/string.rs:7-16 | one more loop iteration appends exactly the encoding of the next input byte |
| ByteCodec.UrlEncoded | src/string.rs:4-19 | the loop's output is the byte-by-byte encoding of the input |
| ByteCodec.EncodedWithAppend | src/string.rs:7-16 | encoding a concatenation is the concatenation of the encodings |
| ByteCodec.EncodedLength | src/string.rs:7-16 | output length is one per copied byte plus three per escaped byte |
| ByteCodec.EncodedAlphabet | src/string.rs:9-13 | the output holds only bytes the encoder copies, and `%` |
| ByteCodec.EncodedIdentity | src/string.rs:9 | text made only of copied bytes is its own encoding |
| ByteCodec.BitOrNibbles | src/string.rs:35 | OR-ing the shifted high nibble and then the low nibble into a zero `hexval` gives 16·high + low |
| ByteCodec.UrlDecoded | src/string.rs:22-54 | the loop over `hexval`, `hexleft`, `in_pct` and `ret` returns what the per-byte step function folds to |
| ByteCodec.RunAppend | src/string.rs:28-51 | decoding a concatenation continues from the state the first part leaves |
| ByteCodec.RunCons | src/string.rs:28-51 | the loop handles its first byte with one step and continues from the state it leaves |
| ByteCodec.HighNibbleStep | src/string.rs:31-38 | after a `%`, a hex digit sets `hexval` to 16 times its value and clears `hexleft`, pushing nothing |
| ByteCodec.LowNibbleStep | src/string.rs:31-44 | after the high nibble, a hex digit pushes 16·high + low and resets the state |
| ByteCodec.PercentTriple | src/string.rs:30-44 | `%` and two hex digits decode to one byte, high nibble first |
| ByteCodec.DecodeEncodeByte | src/string.rs:8-14 | decoding one encoded byte from an idle state appends exactly that byte |
| ByteCodec.DecodeEncodedFrom | src/string.rs:4-54 | decoding an encoded text from an idle state appends exactly the text |
| ByteCodec.RoundTrip | src/string.rs:83-94 | `url_decoded(url_encoded(s)) == s` for every byte string, and likewise for the method-id encoding |
| ByteCodec.StrayPercentConsumesLaterHex | src/string.rs:29-49 | after a `%` and a non-hex byte the `%` is dropped, the byte copied, and the next two hex digits still decode as one byte |
| ByteCodec.TrailingPercentDropped | src/string.rs:30 | a `%` at the end of the input adds nothing to the output |
| ByteCodec.NonHexStep | src/string.rs:29-49 | a byte that is not a hex digit is pushed, unless it is a `%`, which pushes nothing |
| ByteCodec.DropPercentCounts | src/string.rs:30 | taking out every `%` removes each `%` and keeps every other byte, as many times as it occurs |
| ByteCodec.RunWithoutHexDigits | src/string.rs:28-51 | on text without hex digits, from any state, every `%` is dropped and every other byte is copied in order |
| ByteCodec.DecodedWithoutHexDigits | src/string.rs:22-54 | text without hex digits decodes to itself with every `%` removed |
| ByteCodec.RunWithoutPercent | src/string.rs:45-49 | without `%`, decoding copies every byte |
| ByteCodec.DecodedWithoutPercent | src/string.rs:45-49 | text without `%` decodes to itself |
| ByteCodec.RunLength | src/string.rs:28-51 | each byte yields at most one output byte and a `%` none |
| ByteCodec.DecodedLength | src/string.rs:28-51 | output length plus the number of `%` is at most the input length |
| ByteCodec.SpacesEscaped | src/string.rs:9-11 | words of unreserved bytes joined by spaces encode with `%20` for each space and decode back |
| ByteCodec.SpacesExample | src/string.rs:73-80 | "text with spaces" encodes to "text%20with%20spaces" and decodes back |
| ByteCodec.ValidateMethodName | src/string.rs:59-69 | passes exactly when every byte is in 0x61-0x7a; otherwise fails with the invalid-method-name error |
| Did.Parse | src/did.rs:21-35 | the missing-prefix and missing-colon errors exactly when those are missing; otherwise success, or the invalid-method-name error; success gives the text as `did:` + name + `:` + id with a valid, colon-free name |
| Did.ParseAccepts | src/did.rs:21-30 | every `did:<name>:<id>` with a valid name parses to exactly that name and id, whatever the id holds |
| Did.NoColonInEncodedName | src/did.rs:14 | the name encoding never writes a `:` |
| Did.EncodedNameValid | src/did.rs:14 | the encoded name is a valid method name exactly when the name is |
| Did.ToString | src/did.rs:10-18 | `did:` + name encoding + `:` + method-id encoding, in which the first `:` after the prefix ends the encoded name; parsed back by ParseToString |
| Did.ParseToString | src/did.rs:10-35 | parsing a formatted DID succeeds exactly when its name is valid, and yields the name and the encoded id (the parser does not decode) |
| Did.ToStringVerbatim | src/did.rs:40-57 | a DID whose id holds only unreserved bytes and colons prints verbatim, colons included |
| Did.ParseToStringRoundTrip | src/did.rs:10-35 | `parse(to_string(d)) == d` for such DIDs |
| Did.ParseExamples | src/did.rs:64-89 | every rejected input of the tests (`""`, `"frobnik"`, `"did"`, `"frobnik:"`, `"did:"`, `"did:abcdef"`) fails; `did:abcdef:123456` gives name `abcdef` and id `123456`; `did:abcdef:123456:u:alice` keeps the later colons in the id |
| DidUrl.MatchFixedQueryParams | src/url.rs:121-144 | fails exactly on a `versionTime` the date parser refuses; other unreserved keys go into the extra map; a reserved key leaves the map alone; only the five reserved fields change |
| DidUrl.ApplyParts | src/url.rs:160-169 | any failure is the version-time error; only the reserved fields change; the extra map only gains keys |
| DidUrl.QueryApplied | src/url.rs:147-177 | any failure is the version-time error |
| DidUrl.ParseQuery | src/url.rs:147-177 | both branches of `parse_query` (no `&`, and the loop over the parts) return the query applied part by part |
| DidUrl.MatchFragment | src/url.rs:73-93 | any failure is the version-time error |
| DidUrl.MatchQuery | src/url.rs:96-118 | any failure is the version-time error |
| DidUrl.MatchPath | src/url.rs:55-70 | any failure is the version-time error |
| DidUrl.MatchRest | src/url.rs:30-47 | any failure is the version-time error |
| DidUrl.Parse | src/url.rs:27-52 | the not-a-DID error exactly without `did:`, the missing-id error exactly without a `:` after the name, and otherwise only the version-time error |
| DidUrl.MatchQueryAssembled | src/url.rs:102-117 | a query without `#`, then an optional fragment, is cut back into that query and fragment |
| DidUrl.MatchPathAssembled | src/url.rs:55-70 | after the path's `/`, a path, optional query and optional fragment are cut back into those pieces |
| DidUrl.NoPathAssembled | src/url.rs:32-45 | without a `/`, the id, optional query and optional fragment are cut back into those pieces |
| DidUrl.PathAssembled | src/url.rs:30-31 | with a `/`, the id ends at the first `/` and the rest is cut as a path |
| DidUrl.ParseSplitsName | src/url.rs:28-30 | with a colon-free name, `parse` hands all that follows the name's `:` to the delimiter chain |
| DidUrl.ParseAssembled | src/url.rs:27-118 | every text assembled from pieces cut as the parser cuts them parses to those pieces, decoded, with the query applied |
| DidUrl.QueryDecomposes | src/url.rs:102-104 | every query text is a `#`-free query and an optional fragment |
| DidUrl.RestDecomposes | src/url.rs:30-45 | every text after the name's `:` is made of pieces the delimiter chain cuts as they were made |
| DidUrl.PathDecomposes | src/url.rs:55-70 | every text after the first `/` is made of pieces the path branch cuts as they were made |
| DidUrl.NoPathDecomposes | src/url.rs:32-45 | every text without `/` is made of pieces the no-path branches cut as they were made |
| DidUrl.ParseDecomposes | src/url.rs:27-52 | every text with the prefix and a `:` after the name is made of such pieces |
| DidUrl.ParseCharacterized | src/url.rs:27-177 | every parse that gets past the prefix and the name yields the decoded pieces of the text, with the query applied |
| DidUrl.ParsePlain | src/url.rs:40-44 | with no `/`, `?` or `#`, only the name and id are set, decoded, and every other field is unset |
| DidUrl.SlashBeforeFragment | src/url.rs:30-31 | a `#` before the first `/` stays in the id, and the path runs to the end |
| DidUrl.ParseAgreesWithDid | src/url.rs:40-44 | without `%`, `/`, `?` and `#`, the URL parser yields the DID that the DID parser yields |
| DidUrl.ApplyPartsFails | src/url.rs:160-169 | the loop fails exactly when some part is `versionTime=<value>` with a value the date parser refuses |
| DidUrl.QueryFails | src/url.rs:133-135 | the whole query fails exactly when one of its `&`-parts is such a refused `versionTime` |
| DidUrl.LastEntryIsLast | src/url.rs:160-169 | the last-entry function gives the value of a part naming the key after which no part names it, and nothing when no part names it |
| DidUrl.ReservedKeysDistinct | src/url.rs:127-138 | the five reserved query keys are five different texts, so at most one arm of the key match applies |
| DidUrl.ApplyPartFields | src/url.rs:127-141 | one part sets the reserved field its key names (`relativeRef` decoded, `versionTime` parsed) or adds its extra entry (empty value without `=`) |
| DidUrl.ApplyPartsFields | src/url.rs:160-169 | each reserved field ends with its last assignment, or its earlier value; the extra map gains exactly the keys of the parts without `=` or with an unreserved key, each holding its last value |
| DidUrl.QueryFields | src/url.rs:147-177 | as above for the whole query; the extra map is set exactly when some part makes an extra entry |
| DidUrl.RelativeRefExample | src/url.rs:250-260 | `relativeRef=%2Fref` gives `/ref`, while `service=%2F` is stored as written |
| DocumentModel.TypeName | src/document.rs:18-31 | every type name ends in one of the years 2018-2021 |
| DocumentModel.TypeNameInjective | src/document.rs:20-29 | two types have the same name exactly when they are the same type |
| DocumentModel.VerificationMethodEquality | src/document.rs:34-41 | two verification methods are equal exactly when all five fields are |
| DidRegistry.Registry.constructor | src/registry.rs:11-12 | the default registry is empty and each document sits under its own id |
| DidRegistry.Registry.Insert | src/registry.rs:15-22 | a taken id gives the already-registered error and leaves the map unchanged; otherwise the document is stored under its id and no other entry changes; documents stay under their own ids |
| DidRegistry.Registry.Remove | src/registry.rs:24-26 | returns the stored document exactly when present and removes that entry only |
| DidRegistry.Registry.Get | src/registry.rs:28-30 | returns a document exactly when the DID is registered, and then that DID's document |
| DidUrl.URL.ToDid | src/registry.rs:32-34 | `to_did`, as `follow` uses it: the DID made of exactly the URL's name and method id, with path, query, fragment and parameters dropped |
| DidRegistry.Registry.Follow | src/registry.rs:32-34 | the document of the DID made of the URL's name and id, whatever its path, query and fragment |
| DidRegistry.Registry.VerificationMethodForUrl | src/registry.rs:36-48 | nothing exactly when the document, its method list or a method with that id is missing; otherwise the first such method |
| DidRegistry.Registry.Controls | src/registry.rs:50-76 | error for an unregistered subject; true for a registered subject and itself; error naming the subject for an unregistered controller; otherwise whether the controller field names the controller |
| DidRegistry.Registry.EquivalentToDid | src/registry.rs:78-116 | an error naming the first unregistered DID; otherwise true exactly when each document lists the other as an alias |
| OrderedHash.Without | src/hash.rs:83-84 | `retain` with `!=`: the same elements with the same counts, minus every copy of the removed one |
| OrderedHash.WithoutAppend | src/hash.rs:83-84 | `retain` commutes with concatenation, so kept elements keep their order |
| OrderedHash.WithoutAbsent | src/hash.rs:83-84 | `retain` of an absent element changes nothing |
| OrderedHash.OrderedHashSet.constructor | src/hash.rs:55-61 | empty vectors, cursor 0, invariant established |
| OrderedHash.OrderedHashSet.Insert | src/hash.rs:63-76 | a held hash gives an error and changes nothing; otherwise the hash and item are appended and the item returned; the invariant is kept |
| OrderedHash.OrderedHashSet.Delete | src/hash.rs:78-85 | every equal hash and every equal element go, order kept; the invariant (for a set that held it) is kept exactly when no other held element shares the item's hash |
| OrderedHash.OrderedHashSet.DeleteIfHeld | src/hash.rs:78-85 | corrected delete: removes a held item with its hash, changes nothing otherwise, and always keeps the invariant |
| OrderedHash.OrderedHashSet.ToVec | src/hash.rs:87-89 | the elements in insertion order |
| OrderedHash.OrderedHashSet.Next | src/hash.rs:47-51 | the element under the cursor when there is one, else nothing; the cursor advances either way |
| OrderedHash.DeleteSharedHashBreaksConsistent | src/hash.rs:78-85 | when another held element shares the item's hash, deleting the item keeps that element but drops its hash, so the invariant breaks |
| OrderedHash.DeleteKeepsConsistent | src/hash.rs:78-85 | removing an item and its hash keeps the invariant when no other element shares the hash |
| OrderedHash.OnlyHolderOfItsHash | src/hash.rs:63-76 | in a consistent set a held item is the only element with its hash |
| OrderedHash.NoDuplicates | src/hash.rs:63-76 | a consistent set holds no element twice |
| OrderedHash.DeleteCollisionBreaksInvariant | src/hash.rs:83-84 | when an absent item collides with a held one, `delete` drops the held one's hash and keeps the element |
| EitherSlots.Either.Preferred | src/either.rs:9-11 | the first slot, which holds a value exactly when `pick` runs the preferred callback with that value |
| EitherSlots.Either.Other | src/either.rs:13-15 | the second slot; `pick` runs the other callback with its value exactly when it holds one and the first slot is empty |
| EitherSlots.Either.Pick | src/either.rs:17-30 | the preferred callback whenever the first slot is filled, the other callback only when just the second is, and the none callback when neither is, each with the slot's value |
| EitherSlots.SlotsRebuild | src/either.rs:9-15 | the two projections together rebuild the value |

## Left out

- Input and output are not modelled. This covers `main.rs`, the examples, directory reading and CBOR or JSON (serde) encoding.
- `jwk.rs` and `multibase.rs` are not part of this model: keys are opaque wrapper datatypes.
- `time.rs` is not part of this model. The date parse of `versionTime` is a function parameter, `DidUrl.TimeParser`; the date format itself is not modelled.
- DidUrl.MatchFixedQueryParams: `relativeRef` is the decoded bytes, without the UTF-8 repair of `String::from_utf8_lossy`.
- The `Hash` and `PartialOrd` impls of the ordered hash set are not modelled: `Hash` feeds the elements to the hasher after sorting a copy with an external quicksort, and `PartialOrd` returns the first defined comparison in a nested scan of both element lists. The element hash (`DefaultHasher`) is the set's `hash` function.
- OrderedHash.OrderedHashSet.Next: the `usize` cursor is unbounded, so its wrap-around is not modelled.
- OrderedHash.OrderedHashSet.Delete: `Vec::retain` is the function `Without`, not an in-place loop over the vectors.
- The hash sets and `BTreeSet`s of documents are sequences in iteration order. The results of `controls` and `equivalent_to_did` do not depend on that order.
- DidRegistry.Registry.EquivalentToDid: requires the aliases of both documents to be DIDs, because the URL branches are `todo!()` panics. The source panics only when its loop reaches a URL alias, so this precondition also excludes some calls that return normally.
- Error messages are error datatypes carrying the DID the message names; the message text is not modelled.
- The document fields other than `id`, `alsoKnownAs`, `controller` and `verificationMethod` are records only; no operation reads them.

## Findings

| source | as written | input that shows it | evidently intended | confidence | as-written member | corrected member |
|---|---|---|---|---|---|---|
| src/hash.rs:83-84 | `delete` drops every hash equal to the item's hash, whether or not the item is held | a set holding 1, where 1 and 2 have the same hash; `delete(2)` keeps 1 but drops its hash, so the vectors differ in length and 1 can be inserted again | remove the item and its own hash only | low: needs a 64-bit hash collision; not executed | OrderedHash.DeleteCollisionBreaksInvariant | OrderedHash.OrderedHashSet.DeleteIfHeld |
