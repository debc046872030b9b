/** The authorisation pass: a memoised loop over all entries, proved equal to the plain loop that
    reviews every entry anew. */
module Authorization {
  import opened ApiVersions
  import opened Values
  import opened TransactionEnv

  /** What the pass makes of one entry: an error, nothing, or a permission to ask for. */
  datatype Need = Undecodable | Skipped | Needs(key: AuthKey)

  /** The pass reads the namespace from the raw metadata, whichever kind of map it is. */
  function RawNamespace(o: Object, requestNs: string): string {
    if "metadata" !in o then requestNs
    else match o["metadata"]
      case AnyMap(m) =>
        if KString("namespace") in m && m[KString("namespace")].Str? && m[KString("namespace")].s != ""
        then m[KString("namespace")].s else requestNs
      case StrMap(m) => if StringField(m, "namespace") != "" then StringField(m, "namespace") else requestNs
      case _ => requestNs
  }

  function NeedOf(env: Env, t: Tagged, requestNs: string): Need {
    match env.decode(t.entry)
    case None => Undecodable
    case Some(o) =>
      var apiVersion, kind := StringField(o, "apiVersion"), StringField(o, "kind");
      if apiVersion == "" || kind == "" then Skipped
      else
        var gvk := TransactionGvk(apiVersion, kind);
        match env.authLookup(gvk)
        case Found(m) =>
          Needs(AuthKey(gvk.group, m.resource, t.operation, if m.clusterScoped then "" else RawNamespace(o, requestNs)))
        case _ => Skipped
  }

  /** The object's metadata, a map of either kind, gives it this namespace. */
  predicate GivesNamespace(o: Object, namespace: string) {
    && namespace != "" && "metadata" in o
    && match o["metadata"]
       case StrMap(m) => "namespace" in m && m["namespace"] == Str(namespace)
       case AnyMap(m) => KString("namespace") in m && m[KString("namespace")] == Str(namespace)
       case _ => false
  }

  /** The namespace to ask in: none in cluster scope, else the object's own, else the request's. */
  ghost predicate AsksIn(o: Object, clusterScoped: bool, requestNs: string, namespace: string) {
    if clusterScoped then namespace == ""
    else GivesNamespace(o, namespace) || (namespace == requestNs && forall n :: !GivesNamespace(o, n))
  }

  lemma RawNamespaceExactly(o: Object, requestNs: string, namespace: string)
    ensures RawNamespace(o, requestNs) == namespace <==> AsksIn(o, false, requestNs, namespace)
  {
    var r := RawNamespace(o, requestNs);
    if !GivesNamespace(o, r) {
      forall n ensures !GivesNamespace(o, n) {}
    }
  }

  /** The entry may be operated on: it decodes, and if it names a kind that is mapped, the review
      of this verb on the kind's group and resource, in the namespace to ask in, allows it. */
  ghost predicate Cleared(env: Env, entry: Entry, verb: string, requestNs: string) {
    match env.decode(entry)
    case None => false
    case Some(o) =>
      var apiVersion, kind := StringField(o, "apiVersion"), StringField(o, "kind");
      forall gvk, m, namespace ::
        && apiVersion != "" && kind != "" && TransactionNames(apiVersion, kind, gvk)
        && env.authLookup(gvk) == Found(m) && AsksIn(o, m.clusterScoped, requestNs, namespace)
        ==> env.review(AuthKey(gvk.group, m.resource, verb, namespace)) == Allowed
  }

  /** The pass lets an entry through exactly when it is cleared. */
  lemma ClearedExactly(env: Env, entry: Entry, verb: string, requestNs: string)
    ensures VerdictOf(env, NeedOf(env, Tagged(entry, verb), requestNs)) == Pass
            <==> Cleared(env, entry, verb, requestNs)
  {
    if env.decode(entry).Some? {
      var o := env.decode(entry).value;
      var apiVersion, kind := StringField(o, "apiVersion"), StringField(o, "kind");
      var gvk, raw := TransactionGvk(apiVersion, kind), RawNamespace(o, requestNs);
      forall g ensures TransactionNames(apiVersion, kind, g) <==> g == gvk { ParsersReadExactly(apiVersion, kind, g); }
      forall n ensures AsksIn(o, false, requestNs, n) <==> n == raw { RawNamespaceExactly(o, requestNs, n); }
      if env.authLookup(gvk).Found? {
        var m := env.authLookup(gvk).mapping;
        var namespace := if m.clusterScoped then "" else raw;
        assert forall n :: AsksIn(o, m.clusterScoped, requestNs, n) <==> n == namespace;
        if Cleared(env, entry, verb, requestNs) && apiVersion != "" && kind != "" {
          assert TransactionNames(apiVersion, kind, gvk) && AsksIn(o, m.clusterScoped, requestNs, namespace);
        }
      }
    }
  }

  datatype Verdict = Pass | BadEntry | Forbidden(key: AuthKey) | Unreviewed(key: AuthKey)

  function VerdictOf(env: Env, need: Need): Verdict {
    match need
    case Undecodable => BadEntry
    case Skipped => Pass
    case Needs(key) =>
      match env.review(key)
      case Allowed => Pass
      case Denied => Forbidden(key)
      case ReviewFailed => Unreviewed(key)
  }

  function AskedBy(need: Need): seq<AuthKey> {
    if need.Needs? then [need.key] else []
  }

  /** The plain loop over needs: each is judged on its own, the first failure decides. */
  function Judge(env: Env, needs: seq<Need>): Verdict {
    if needs == [] then Pass
    else if VerdictOf(env, needs[0]) == Pass then Judge(env, needs[1..])
    else VerdictOf(env, needs[0])
  }

  /** The reviews the plain loop issues, up to and including the first failing one. */
  function Asked(env: Env, needs: seq<Need>): seq<AuthKey> {
    if needs == [] then []
    else if VerdictOf(env, needs[0]) == Pass then AskedBy(needs[0]) + Asked(env, needs[1..])
    else AskedBy(needs[0])
  }

  function NeedsOf(env: Env, ts: seq<Tagged>, ns: string): seq<Need> {
    seq(|ts|, i requires 0 <= i < |ts| => NeedOf(env, ts[i], ns))
  }

  /** The unmemoised pass over a request's entries: its verdict and its reviews. */
  function Uncached(env: Env, ts: seq<Tagged>, ns: string): Verdict {
    Judge(env, NeedsOf(env, ts, ns))
  }

  function Reviewed(env: Env, ts: seq<Tagged>, ns: string): seq<AuthKey> {
    Asked(env, NeedsOf(env, ts, ns))
  }

  /** Keeps the first occurrence of every element. */
  function FirstOccurrences(keys: seq<AuthKey>): seq<AuthKey> {
    if keys == [] then []
    else
      var init, last := FirstOccurrences(keys[..|keys| - 1]), keys[|keys| - 1];
      if last in keys[..|keys| - 1] then init else init + [last]
  }

  lemma {:induction false} FirstOccurrencesIsSet(keys: seq<AuthKey>)
    ensures forall k :: k in FirstOccurrences(keys) <==> k in keys
    ensures forall i, j | 0 <= i < j < |FirstOccurrences(keys)| ::
              FirstOccurrences(keys)[i] != FirstOccurrences(keys)[j]
  {
    if keys != [] {
      FirstOccurrencesIsSet(keys[..|keys| - 1]);
      assert keys == keys[..|keys| - 1] + [keys[|keys| - 1]];
    }
  }

  /** The order is that of the first occurrences. */
  lemma {:induction false} FirstOccurrencesInOrder(keys: seq<AuthKey>, i: nat, j: nat)
    requires i < j < |keys| && keys[i] !in keys[..i] && keys[j] !in keys[..j]
    ensures exists a, b :: 0 <= a < b < |FirstOccurrences(keys)|
                           && FirstOccurrences(keys)[a] == keys[i] && FirstOccurrences(keys)[b] == keys[j]
  {
    var init := keys[..|keys| - 1];
    var r, r0 := FirstOccurrences(keys), FirstOccurrences(init);
    if j < |init| {
      assert init[..i] == keys[..i] && init[..j] == keys[..j];
      FirstOccurrencesInOrder(init, i, j);
      var a, b :| 0 <= a < b < |r0| && r0[a] == init[i] && r0[b] == init[j];
      assert r[a] == keys[i] && r[b] == keys[j];
    } else {
      FirstOccurrencesIsSet(init);
      assert init[i] in r0;
      var a :| 0 <= a < |r0| && r0[a] == init[i];
      assert r == r0 + [keys[j]];
      assert r[a] == keys[i] && r[|r0|] == keys[j];
    }
  }

  lemma {:induction false} JudgeAppend(env: Env, a: seq<Need>, b: seq<Need>)
    ensures Judge(env, a) == Pass
            ==> Judge(env, a + b) == Judge(env, b) && Asked(env, a + b) == Asked(env, a) + Asked(env, b)
    ensures Judge(env, a) != Pass ==> Judge(env, a + b) == Judge(env, a) && Asked(env, a + b) == Asked(env, a)
  {
    if a == [] {
      assert a + b == b;
    } else {
      assert (a + b)[1..] == a[1..] + b;
      JudgeAppend(env, a[1..], b);
      if Judge(env, a) == Pass {
        assert AskedBy(a[0]) + (Asked(env, a[1..]) + Asked(env, b))
               == AskedBy(a[0]) + Asked(env, a[1..]) + Asked(env, b);
      }
    }
  }

  lemma JudgeOne(env: Env, need: Need)
    ensures Judge(env, [need]) == VerdictOf(env, need) && Asked(env, [need]) == AskedBy(need)
  {
    assert [need][1..] == [];
    assert AskedBy(need) + [] == AskedBy(need);
  }

  /** The plain loop accepts exactly when every entry decodes and every permission is granted. */
  lemma {:induction false} JudgePasses(env: Env, needs: seq<Need>)
    ensures Judge(env, needs) == Pass <==> forall i | 0 <= i < |needs| :: VerdictOf(env, needs[i]) == Pass
  {
    if needs != [] {
      JudgePasses(env, needs[1..]);
      assert forall i | 0 < i < |needs| :: needs[i] == needs[1..][i - 1];
      assert forall i | 0 <= i < |needs[1..]| :: needs[1..][i] == needs[i + 1];
    }
  }

  lemma PassMeansAllAllowed(env: Env, ts: seq<Tagged>, ns: string)
    ensures Uncached(env, ts, ns) == Pass
            <==> forall i | 0 <= i < |ts| :: VerdictOf(env, NeedOf(env, ts[i], ns)) == Pass
  {
    var needs := NeedsOf(env, ts, ns);
    JudgePasses(env, needs);
    assert forall i | 0 <= i < |ts| :: NeedOf(env, ts[i], ns) == needs[i];
  }

  ghost predicate AllCleared(env: Env, entries: seq<Entry>, verb: string, requestNs: string) {
    forall entry | entry in entries :: Cleared(env, entry, verb, requestNs)
  }

  /** A request passes exactly when its creations are cleared for "create", its updates for "update"
      and its deletions for "delete". */
  lemma AuthorisedExactly(env: Env, request: Request, ns: string)
    ensures Uncached(env, Operations(request), ns) == Pass
            <==> && AllCleared(env, request.creates, "create", ns)
                 && AllCleared(env, request.updates, "update", ns)
                 && AllCleared(env, request.deletes, "delete", ns)
  {
    var ts := Operations(request);
    PassMeansAllAllowed(env, ts, ns);
    forall t: Tagged
      ensures VerdictOf(env, NeedOf(env, t, ns)) == Pass <==> Cleared(env, t.entry, t.operation, ns)
      ensures t in ts <==> || (t.operation == "create" && t.entry in request.creates)
                           || (t.operation == "update" && t.entry in request.updates)
                           || (t.operation == "delete" && t.entry in request.deletes)
    {
      assert t == Tagged(t.entry, t.operation);
      ClearedExactly(env, t.entry, t.operation, ns);
      OperationsExactly(request, t);
    }
    if Uncached(env, ts, ns) == Pass {
      forall t | t in ts ensures Cleared(env, t.entry, t.operation, ns) {
        var i :| 0 <= i < |ts| && ts[i] == t;
      }
      forall e | e in request.creates ensures Cleared(env, e, "create", ns) { assert Tagged(e, "create") in ts; }
      forall e | e in request.updates ensures Cleared(env, e, "update", ns) { assert Tagged(e, "update") in ts; }
      forall e | e in request.deletes ensures Cleared(env, e, "delete", ns) { assert Tagged(e, "delete") in ts; }
    }
  }

  /** While no entry has failed, every review issued so far was granted; so a verdict found in the
      memo table is never a refusal. */
  lemma {:induction false} AskedSoFarAllowed(env: Env, needs: seq<Need>, key: AuthKey)
    requires Judge(env, needs) == Pass && key in Asked(env, needs)
    ensures env.review(key) == Allowed
  {
    if key !in AskedBy(needs[0]) { AskedSoFarAllowed(env, needs[1..], key); }
  }

  lemma {:induction false} NeedIsAsked(env: Env, needs: seq<Need>, i: nat)
    requires i < |needs| && Judge(env, needs) == Pass && needs[i].Needs?
    ensures needs[i].key in Asked(env, needs)
  {
    if i > 0 { NeedIsAsked(env, needs[1..], i - 1); }
  }

  lemma FirstOccurrencesSnoc(keys: seq<AuthKey>, key: AuthKey)
    ensures FirstOccurrences(keys + [key]) == FirstOccurrences(keys) + if key in keys then [] else [key]
  {
    assert (keys + [key])[..|keys|] == keys;
  }

  /** The memo table holds the verdicts of exactly the permissions asked for so far. */
  ghost predicate CacheAgrees(env: Env, cache: map<AuthKey, bool>, asked: seq<AuthKey>) {
    && (forall k :: k in cache <==> k in asked)
    && (forall k | k in cache :: env.review(k) == if cache[k] then Allowed else Denied)
  }

  /** The loop body, for one entry: its verdict, the updated memo table and the review issued, if
      any. Since every permission asked for so far was granted, a cached verdict never refuses. */
  method AuthorizeEntry(env: Env, entry: Entry, verb: string, requestNs: string, cache: map<AuthKey, bool>,
                        ghost asked: seq<AuthKey>)
    returns (verdict: Verdict, cache': map<AuthKey, bool>, issued: seq<AuthKey>)
    requires CacheAgrees(env, cache, asked) && forall k | k in asked :: env.review(k) == Allowed
    ensures var need := NeedOf(env, Tagged(entry, verb), requestNs);
            && verdict == VerdictOf(env, need)
            && issued == (if need.Needs? && need.key !in asked then [need.key] else [])
            && (verdict == Pass ==> CacheAgrees(env, cache', asked + AskedBy(need)))
  {
    cache', issued := cache, [];
    var decoded := env.decode(entry);
    if decoded.None? {
      return BadEntry, cache', issued;
    }
    var apiVersion, kind := StringField(decoded.value, "apiVersion"), StringField(decoded.value, "kind");
    if apiVersion == "" || kind == "" {
      return Pass, cache', issued;
    }
    var gvk := TransactionGvk(apiVersion, kind);
    var resource := env.authLookup(gvk);
    if !resource.Found? {
      return Pass, cache', issued;
    }
    var ns := RawNamespace(decoded.value, requestNs);
    if resource.mapping.clusterScoped {
      ns := "";
    }
    var key := AuthKey(gvk.group, resource.mapping.resource, verb, ns);
    if key in cache {
      if !cache[key] {
        assert false;  // the cached refusal is never reached
      }
      return Pass, cache', issued;
    }
    var result := env.review(key);
    issued := [key];
    if result.ReviewFailed? {
      return Unreviewed(key), cache', issued;
    }
    cache' := cache[key := result.Allowed?];
    if !result.Allowed? {
      return Forbidden(key), cache', issued;
    }
    return Pass, cache', issued;
  }

  lemma IssuedStep(start: seq<AuthKey>, issued: seq<AuthKey>, asked: seq<AuthKey>, need: Need, one: seq<AuthKey>)
    requires start + issued == FirstOccurrences(asked)
    requires one == if need.Needs? && need.key !in asked then [need.key] else []
    ensures start + (issued + one) == FirstOccurrences(asked + AskedBy(need))
  {
    assert start + (issued + one) == start + issued + one;
    if need.Needs? { FirstOccurrencesSnoc(asked, need.key); } else { assert asked + AskedBy(need) == asked; }
  }

  /** The inner loop: all entries of one list, after entries with the needs `seen` have passed. */
  method AuthorizeBatch(env: Env, items: seq<Entry>, verb: string, requestNs: string, cache: map<AuthKey, bool>,
                        ghost seen: seq<Need>)
    returns (verdict: Verdict, cache': map<AuthKey, bool>, issued: seq<AuthKey>)
    requires Judge(env, seen) == Pass && CacheAgrees(env, cache, Asked(env, seen))
    ensures var all := seen + NeedsOf(env, Tag(items, verb), requestNs);
            && verdict == Judge(env, all)
            && FirstOccurrences(Asked(env, seen)) + issued == FirstOccurrences(Asked(env, all))
            && (verdict == Pass ==> CacheAgrees(env, cache', Asked(env, all)))
  {
    cache', issued := cache, [];
    ghost var todo := NeedsOf(env, Tag(items, verb), requestNs);
    ghost var all, done := seen + todo, seen;
    ghost var start := FirstOccurrences(Asked(env, seen));
    for i := 0 to |items|
      invariant done + todo[i..] == all
      invariant Judge(env, done) == Pass && CacheAgrees(env, cache', Asked(env, done))
      invariant start + issued == FirstOccurrences(Asked(env, done))
    {
      ghost var need, asked := todo[i], Asked(env, done);
      assert done + [need] + todo[i + 1..] == all;
      JudgeOne(env, need);
      JudgeAppend(env, done, [need]);
      JudgeAppend(env, done + [need], todo[i + 1..]);
      forall k | k in asked ensures env.review(k) == Allowed {
        AskedSoFarAllowed(env, done, k);
      }
      var v, table, one := AuthorizeEntry(env, items[i], verb, requestNs, cache', asked);
      IssuedStep(start, issued, asked, need, one);
      cache', issued, done := table, issued + one, done + [need];
      if v != Pass {
        return v, cache', issued;
      }
    }
    assert done == all;
    verdict := Pass;
  }

  lemma NeedsOfFlatten(env: Env, batches: seq<Batch>, b: nat, ns: string)
    requires b < |batches|
    ensures NeedsOf(env, Flatten(batches[b..]), ns)
            == NeedsOf(env, Tag(batches[b].items, batches[b].operation), ns)
                + NeedsOf(env, Flatten(batches[b + 1..]), ns)
  {
    assert batches[b..][1..] == batches[b + 1..];
    var now, later := Tag(batches[b].items, batches[b].operation), Flatten(batches[b + 1..]);
    assert Flatten(batches[b..]) == now + later;
    assert NeedsOf(env, now + later, ns) == NeedsOf(env, now, ns) + NeedsOf(env, later, ns);
  }

  /** The memoised pass over the lists of a request, in order. It returns the verdict and the
      reviews it issued: those of the unmemoised pass, each once, in order of first occurrence. */
  method AuthorizeAll(env: Env, batches: seq<Batch>, requestNs: string)
    returns (verdict: Verdict, reviews: seq<AuthKey>)
    ensures verdict == Uncached(env, Flatten(batches), requestNs)
    ensures reviews == FirstOccurrences(Reviewed(env, Flatten(batches), requestNs))
  {
    var cache: map<AuthKey, bool> := map[];
    reviews := [];
    ghost var seen: seq<Need> := [];
    ghost var all := NeedsOf(env, Flatten(batches), requestNs);
    assert batches[0..] == batches;
    for b := 0 to |batches|
      invariant seen + NeedsOf(env, Flatten(batches[b..]), requestNs) == all
      invariant Judge(env, seen) == Pass && CacheAgrees(env, cache, Asked(env, seen))
      invariant reviews == FirstOccurrences(Asked(env, seen))
    {
      ghost var now := NeedsOf(env, Tag(batches[b].items, batches[b].operation), requestNs);
      ghost var later := NeedsOf(env, Flatten(batches[b + 1..]), requestNs);
      NeedsOfFlatten(env, batches, b, requestNs);
      assert seen + now + later == all;
      JudgeAppend(env, seen + now, later);
      var v, table, issued := AuthorizeBatch(env, batches[b].items, batches[b].operation, requestNs, cache, seen);
      cache, reviews, seen := table, reviews + issued, seen + now;
      if v != Pass {
        return v, reviews;
      }
    }
    assert batches[|batches|..] == [];
    assert seen == all;
    verdict := Pass;
  }

  /** An accepted request issues one review per distinct permission it needs, and each was granted. */
  lemma AcceptedReviews(env: Env, ts: seq<Tagged>, ns: string)
    requires Uncached(env, ts, ns) == Pass
    ensures var issued := FirstOccurrences(Reviewed(env, ts, ns));
            && (forall i, j | 0 <= i < j < |issued| :: issued[i] != issued[j])
            && (forall key :: key in issued ==> env.review(key) == Allowed)
            && (forall i | 0 <= i < |ts| :: var need := NeedOf(env, ts[i], ns); need.Needs? ==> need.key in issued)
  {
    var needs := NeedsOf(env, ts, ns);
    FirstOccurrencesIsSet(Asked(env, needs));
    forall key | key in Asked(env, needs) ensures env.review(key) == Allowed {
      AskedSoFarAllowed(env, needs, key);
    }
    forall i | 0 <= i < |ts| && NeedOf(env, ts[i], ns).Needs? ensures NeedOf(env, ts[i], ns).key in Asked(env, needs) {
      assert needs[i] == NeedOf(env, ts[i], ns);
      NeedIsAsked(env, needs, i);
    }
  }
}
