/** An in-memory registry of DID documents keyed by their DID
    (`src/registry.rs`), with the resolution queries built on it. */
module DidRegistry {
  import opened Wrappers
  import opened Did
  import opened DidUrl
  import opened DocumentModel

  /** The `anyhow` errors of the registry, each naming the DID its message prints. */
  datatype RegistryError =
    | AlreadyRegistered(did: DID)  // `insert` of a document whose id is taken
    | NotRegistered(did: DID)      // a query about a DID the registry lacks

  /** The document lists `did` as an alias. */
  predicate ListsAlias(doc: Document, did: DID) {
    doc.alsoKnownAs.Some? && Left(did) in doc.alsoKnownAs.value
  }

  /** Every alias of the document is a DID: the queries panic on URL aliases. */
  predicate DidAliasesOnly(doc: Document) {
    doc.alsoKnownAs.Some? ==> forall i | 0 <= i < |doc.alsoKnownAs.value| :: doc.alsoKnownAs.value[i].Left?
  }

  /** The document's controller field names `controller`, alone or in its set. */
  predicate NamesController(doc: Document, controller: DID) {
    match doc.controller
    case None => false
    case Some(Left(d)) => d == controller
    case Some(Right(list)) => controller in list
  }

  class Registry {
    var docs: map<DID, Document>

    /** Each document is stored under its own id. */
    ghost predicate Valid()
      reads this
    {
      forall did | did in docs :: docs[did].id == did
    }

    /** `Registry::default`: no documents. */
    constructor()
      ensures docs == map[] && Valid()
    {
      docs := map[];
    }

    /** `insert`: refuses a document whose id is registered, leaving the map as
        it was; otherwise stores it under its id and touches no other entry. */
    method Insert(doc: Document) returns (r: Outcome<RegistryError>)
      modifies this
      ensures doc.id in old(docs) ==> r == Fail(AlreadyRegistered(doc.id)) && docs == old(docs)
      ensures doc.id !in old(docs) ==> r == Pass && docs == old(docs)[doc.id := doc]
      ensures old(Valid()) ==> Valid()
    {
      if doc.id in docs {
        return Fail(AlreadyRegistered(doc.id));
      }
      docs := docs[doc.id := doc];
      return Pass;
    }

    /** `remove`: hands back the stored document, if any, and forgets it. */
    method Remove(did: DID) returns (r: Option<Document>)
      modifies this
      ensures r.Some? <==> did in old(docs)
      ensures r.Some? ==> r.value == old(docs)[did]
      ensures docs == old(docs) - {did}
      ensures old(Valid()) ==> Valid()
    {
      if did in docs {
        r := Some(docs[did]);
      } else {
        r := None;
      }
      docs := docs - {did};
    }

    /** `get`: the document stored for `did`. */
    function Get(did: DID): (r: Option<Document>)
      reads this
      ensures r.Some? <==> did in docs
      ensures r.Some? ==> r.value == docs[did]
      ensures Valid() && r.Some? ==> r.value.id == did
    {
      if did in docs then Some(docs[did]) else None
    }

    /** `follow`: the document of the DID a URL is relative to, whatever its
        path, query and fragment. */
    function Follow(url: URL): (r: Option<Document>)
      reads this
      ensures r.Some? <==> DID(url.name, url.methodId) in docs
      ensures r.Some? ==> r.value == docs[DID(url.name, url.methodId)]
    {
      Get(url.ToDid())
    }

    /** `verification_method_for_url`: the FIRST method of the document of
        `did` whose id is `url`; nothing when the document, its method list or
        such a method is missing. */
    method VerificationMethodForUrl(did: DID, url: URL) returns (r: Option<VerificationMethod>)
      ensures r.None? <==> did !in docs || docs[did].verificationMethod.None?
                           || forall i | 0 <= i < |docs[did].verificationMethod.value| ::
                                docs[did].verificationMethod.value[i].id != url
      ensures r.Some? ==> exists i | 0 <= i < |docs[did].verificationMethod.value| ::
                            && docs[did].verificationMethod.value[i] == r.value
                            && (forall j | 0 <= j < i :: docs[did].verificationMethod.value[j].id != url)
      ensures r.Some? ==> r.value.id == url
    {
      var found := Get(did);
      if found.Some? {
        var doc := found.value;
        if doc.verificationMethod.Some? {
          var vm := doc.verificationMethod.value;
          for i := 0 to |vm|
            invariant forall j | 0 <= j < i :: vm[j].id != url
          {
            if url == vm[i].id {
              return Some(vm[i]);
            }
          }
        }
      }
      return None;
    }

    /** `controls`: an unregistered subject is an error; a registered subject
        controls itself; an unregistered controller is an error (whose message
        names the subject); otherwise the subject's controller field decides. */
    method Controls(did: DID, controller: DID) returns (r: Result<bool, RegistryError>)
      ensures did !in docs ==> r == Err(NotRegistered(did))
      ensures did in docs && did == controller ==> r == Ok(true)
      ensures did in docs && did != controller && controller !in docs ==> r == Err(NotRegistered(did))
      ensures did in docs && did != controller && controller in docs ==> r == Ok(NamesController(docs[did], controller))
    {
      var found := Get(did);
      if found.None? {
        return Err(NotRegistered(did));
      }
      var didDoc := found.value;
      if did == controller {
        return Ok(true);
      }
      if Get(controller).None? {
        return Err(NotRegistered(did));
      }
      match didDoc.controller {
        case Some(Left(d)) =>
          return Ok(d == controller);
        case Some(Right(list)) =>
          for i := 0 to |list|
            invariant forall j | 0 <= j < i :: list[j] != controller
          {
            if list[i] == controller {
              return Ok(true);
            }
          }
        case None =>
          return Ok(false);
      }
      return Ok(false);
    }

    /** `equivalent_to_did`: errors name the first unregistered DID; otherwise
        the two DIDs are equivalent exactly when each document lists the other
        among its aliases. */
    method EquivalentToDid(did: DID, other: DID) returns (r: Result<bool, RegistryError>)
      requires did in docs ==> DidAliasesOnly(docs[did])
      requires other in docs ==> DidAliasesOnly(docs[other])
      ensures did !in docs ==> r == Err(NotRegistered(did))
      ensures did in docs && other !in docs ==> r == Err(NotRegistered(other))
      ensures did in docs && other in docs ==> r == Ok(ListsAlias(docs[did], other) && ListsAlias(docs[other], did))
    {
      var found := Get(did);
      if found.None? {
        return Err(NotRegistered(did));
      }
      var doc := found.value;
      var otherFound := Get(other);
      if otherFound.None? {
        return Err(NotRegistered(other));
      }
      var otherDoc := otherFound.value;
      if doc.alsoKnownAs.None? {
        return Ok(false);
      }
      var thisAka := doc.alsoKnownAs.value;
      for i := 0 to |thisAka|
        invariant forall k | 0 <= k < i :: thisAka[k] != Left(other) || !ListsAlias(otherDoc, did)
      {
        match thisAka[i] {
          case Left(thisDid) =>
            if otherDoc.alsoKnownAs.None? {
              return Ok(false);
            }
            var otherAka := otherDoc.alsoKnownAs.value;
            for j := 0 to |otherAka|
              invariant forall k | 0 <= k < j :: otherAka[k] != Left(did) || thisDid != other
            {
              match otherAka[j] {
                case Left(otherDid) =>
                  if otherDid == did && thisDid == other {
                    return Ok(true);
                  }
              }
            }
        }
      }
      return Ok(false);
    }
  }
}
