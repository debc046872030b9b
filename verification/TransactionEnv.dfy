/** A transaction request and everything the transaction handler asks of its surroundings. */
module TransactionEnv {
  import opened GoStrings
  import opened ApiVersions
  import opened Values
  import opened RequestPaths

  /** One resource of a request, as text. */
  type Entry = string

  datatype Request = Request(name: string, namespace: string, creates: seq<Entry>, updates: seq<Entry>,
                             deletes: seq<Entry>)

  datatype Tagged = Tagged(entry: Entry, operation: string)

  datatype Batch = Batch(items: seq<Entry>, operation: string)

  /** The three lists in the order both passes walk them. */
  function Batches(request: Request): seq<Batch> {
    [Batch(request.creates, CREATE), Batch(request.updates, UPDATE), Batch(request.deletes, DELETE)]
  }

  function Tag(items: seq<Entry>, operation: string): seq<Tagged> {
    seq(|items|, i requires 0 <= i < |items| => Tagged(items[i], operation))
  }

  function Flatten(batches: seq<Batch>): seq<Tagged> {
    if batches == [] then [] else Tag(batches[0].items, batches[0].operation) + Flatten(batches[1..])
  }

  /** All entries of a request, each with its operation, in processing order. */
  function Operations(request: Request): seq<Tagged> {
    Flatten(Batches(request))
  }

  lemma FlattenThree(a: Batch, b: Batch, c: Batch)
    ensures Flatten([a, b, c]) == Tag(a.items, a.operation) + Tag(b.items, b.operation) + Tag(c.items, c.operation)
  {
    assert [a, b, c][1..] == [b, c] && [b, c][1..] == [c] && [c][1..] == [];
    assert Flatten([c]) == Tag(c.items, c.operation);
  }

  /** The operations of a request: its creations, then its updates, then its deletions, each list in
      its own order, and nothing else. */
  lemma OperationsInOrder(request: Request)
    ensures var c, u, d := |request.creates|, |request.updates|, |request.deletes|;
            && |Operations(request)| == c + u + d
            && (forall i | 0 <= i < c :: Operations(request)[i] == Tagged(request.creates[i], "create"))
            && (forall i | 0 <= i < u :: Operations(request)[c + i] == Tagged(request.updates[i], "update"))
            && (forall i | 0 <= i < d :: Operations(request)[c + u + i] == Tagged(request.deletes[i], "delete"))
  {
    var bs := Batches(request);
    FlattenThree(bs[0], bs[1], bs[2]);
  }

  /** A creation of an entry is among the operations exactly when the entry is among the creations;
      likewise for updates and deletions; and there are no other operations. */
  lemma OperationsExactly(request: Request, t: Tagged)
    ensures t in Operations(request)
            <==> || (t.operation == "create" && t.entry in request.creates)
                 || (t.operation == "update" && t.entry in request.updates)
                 || (t.operation == "delete" && t.entry in request.deletes)
  {
    var bs := Batches(request);
    FlattenThree(bs[0], bs[1], bs[2]);
    TagHolds(request.creates, "create", t);
    TagHolds(request.updates, "update", t);
    TagHolds(request.deletes, "delete", t);
  }

  lemma TagHolds(items: seq<Entry>, operation: string, t: Tagged)
    ensures t in Tag(items, operation) <==> t.operation == operation && t.entry in items
  {
    if t.operation == operation && t.entry in items {
      var i :| 0 <= i < |items| && items[i] == t.entry;
      assert Tag(items, operation)[i] == t;
    }
  }

  datatype AuthKey = AuthKey(group: string, resource: string, verb: string, namespace: string)

  datatype Validation = Invalid | EmptyAnswer | Valid(obj: Object)

  /** The libraries and services behind the handler, as arbitrary functions. The two passes ask
      the REST mapper separately, so each has its own lookup. */
  datatype Env = Env(
    core: set<string>,
    decodeBody: string -> Option<Request>,
    decode: Entry -> Option<Object>,
    authLookup: Gvk -> Lookup,
    stageLookup: Gvk -> Lookup,
    review: AuthKey -> Review,
    validate: (Mapping, string, string, Object) -> Validation,
    marshal: Object -> Option<string>)

  predicate NamespaceKept(answer: Validation, m: Mapping, ns: string) {
    answer.Valid? && !m.clusterScoped ==> GetNamespace(answer.obj) == "" || GetNamespace(answer.obj) == ns
  }

  predicate HasAnyKeyedMetadata(o: Object) {
    "metadata" in o && o["metadata"].AnyMap?
  }
}
