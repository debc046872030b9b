/** The count handler: counting the keys under a prefix counts exactly the objects asked for. */
module Counting {
  import opened GoStrings
  import opened ApiVersions
  import opened StorageKeys
  import FieldSelectors

  function Under(keys: set<string>, prefix: string): set<string> {
    set k | k in keys && HasPrefix(k, prefix)
  }

  function KeysOf(slots: set<Slot>): set<string> {
    set s | s in slots :: SlotKey(s)
  }

  lemma {:induction false} KeysAreDistinct(groups: set<string>, slots: set<Slot>)
    requires forall s | s in slots :: WellFormed(groups, s)
    ensures |KeysOf(slots)| == |slots|
  {
    if slots != {} {
      var s :| s in slots;
      var rest := slots - {s};
      KeysAreDistinct(groups, rest);
      forall t | t in rest ensures SlotKey(t) != SlotKey(s) { SlotKeyInjective(groups, s, t); }
      assert KeysOf(slots) == KeysOf(rest) + {SlotKey(s)};
    }
  }

  /** A store whose registry keys are those of well-formed objects; other keys are free. */
  ghost predicate RegistryOf(keys: set<string>, groups: set<string>, slots: set<Slot>) {
    && (forall s | s in slots :: WellFormed(groups, s))
    && Under(keys, REGISTRY) == KeysOf(slots)
  }

  /** The objects a prefix is meant to select. */
  function Chosen(slots: set<Slot>, group: Option<string>, resource: string, namespace: string): set<Slot> {
    set s | s in slots && Selects(group, resource, namespace, s)
  }

  /** The keys under a count prefix are the keys of the chosen objects, one key each. */
  lemma CountIsExact(core: set<string>, groups: set<string>, slots: set<Slot>, keys: set<string>,
                     group: string, resource: string, clusterScoped: bool, namespace: string)
    requires RegistryOf(keys, groups, slots)
    requires WellFormed(groups, Slot(SpaceOf(core, group), resource, namespace, ""))
    ensures var prefix := KeyPrefix(core, group, resource, clusterScoped, namespace);
            var chosen := Chosen(slots, SpaceOf(core, group), resource, if clusterScoped then "" else namespace);
            Under(keys, prefix) == KeysOf(chosen) && |Under(keys, prefix)| == |chosen|
  {
    var prefix := KeyPrefix(core, group, resource, clusterScoped, namespace);
    var chosen := Chosen(slots, SpaceOf(core, group), resource, if clusterScoped then "" else namespace);
    forall k ensures k in Under(keys, prefix) <==> k in KeysOf(chosen) {
      if k in Under(keys, prefix) {
        assert REGISTRY <= prefix <= k;
        assert k in Under(keys, REGISTRY);
        var s :| s in slots && SlotKey(s) == k;
        PrefixSelectsExactly(core, groups, group, resource, clusterScoped, namespace, s);
      }
      if k in KeysOf(chosen) {
        var s :| s in chosen && SlotKey(s) == k;
        assert k in KeysOf(slots);
        PrefixSelectsExactly(core, groups, group, resource, clusterScoped, namespace, s);
      }
    }
    KeysAreDistinct(groups, chosen);
  }

  /** The sum of the per-namespace counts. */
  function SumOfCounts(keys: set<string>, core: set<string>, group: string, resource: string,
                       namespaces: seq<string>): nat {
    if namespaces == [] then 0
    else |Under(keys, KeyPrefix(core, group, resource, false, namespaces[0]))|
         + SumOfCounts(keys, core, group, resource, namespaces[1..])
  }

  function ChosenIn(slots: set<Slot>, group: Option<string>, resource: string, namespaces: seq<string>): set<Slot> {
    set s | s in slots && s.group == group && s.resource == resource && s.namespace in namespaces
  }

  lemma {:induction false} SumIsDisjointUnion(core: set<string>, groups: set<string>, slots: set<Slot>,
                                              keys: set<string>, group: string, resource: string,
                                              namespaces: seq<string>)
    requires RegistryOf(keys, groups, slots)
    requires WellFormed(groups, Slot(SpaceOf(core, group), resource, "", ""))
    requires forall i | 0 <= i < |namespaces| :: namespaces[i] != "" && '/' !in namespaces[i]
    requires forall i, j | 0 <= i < j < |namespaces| :: namespaces[i] != namespaces[j]
    ensures SumOfCounts(keys, core, group, resource, namespaces)
            == |ChosenIn(slots, SpaceOf(core, group), resource, namespaces)|
  {
    var space := SpaceOf(core, group);
    if namespaces == [] {
      assert ChosenIn(slots, space, resource, namespaces) == {};
    } else {
      var first := Chosen(slots, space, resource, namespaces[0]);
      var rest := ChosenIn(slots, space, resource, namespaces[1..]);
      CountIsExact(core, groups, slots, keys, group, resource, false, namespaces[0]);
      SumIsDisjointUnion(core, groups, slots, keys, group, resource, namespaces[1..]);
      assert first !! rest;
      assert ChosenIn(slots, space, resource, namespaces) == first + rest;
    }
  }

  /** Counting in all namespaces counts every namespace once, plus the objects that have none. */
  lemma AllNamespacesIsSum(core: set<string>, groups: set<string>, slots: set<Slot>, keys: set<string>,
                           group: string, resource: string, namespaces: seq<string>)
    requires RegistryOf(keys, groups, slots)
    requires WellFormed(groups, Slot(SpaceOf(core, group), resource, "", ""))
    requires forall i | 0 <= i < |namespaces| :: namespaces[i] != "" && '/' !in namespaces[i]
    requires forall i, j | 0 <= i < j < |namespaces| :: namespaces[i] != namespaces[j]
    requires forall s | s in slots && s.group == SpaceOf(core, group) && s.resource == resource && s.namespace != "" ::
               s.namespace in namespaces
    ensures |Under(keys, KeyPrefix(core, group, resource, false, ""))|
            == |ChosenIn(slots, SpaceOf(core, group), resource, [""])|
               + SumOfCounts(keys, core, group, resource, namespaces)
  {
    var space := SpaceOf(core, group);
    CountIsExact(core, groups, slots, keys, group, resource, false, "");
    SumIsDisjointUnion(core, groups, slots, keys, group, resource, namespaces);
    var none, some := ChosenIn(slots, space, resource, [""]), ChosenIn(slots, space, resource, namespaces);
    assert none !! some;
    assert Chosen(slots, space, resource, "") == none + some;
  }

  // ----- the handler -----

  /** What the handler asks of its surroundings. `selects` is the backend's own filter for a label
      and field selector. */
  datatype CountEnv = CountEnv(
    core: set<string>,
    lookup: Gvk -> Lookup,
    mayList: (string, Mapping) -> Review,
    selects: (string, string, string) -> bool)

  datatype CountResponse = Failure(status: int) | Counted(namespace: string, kind: string, count: nat)

  /** The keys a request counts: those under the prefix that the selectors, if any, let through. */
  function CountedKeys(env: CountEnv, keys: set<string>, prefix: string, labels: string, fields: string): set<string> {
    set k | k in Under(keys, prefix) && ((labels == "" && fields == "") || env.selects(labels, fields, k))
  }

  /** The mapping a query resolves to, or the status it is refused with. */
  function ResolveQuery(env: CountEnv, namespace: string, query: string): Result<Mapping, int> {
    var sel := FieldSelectors.Parse(query);
    if sel.apiVersion == "" || sel.kind == "" then Err(400)
    else
      match env.lookup(CountGvk(sel.apiVersion, sel.kind))
      case LookupFailed => Err(500)
      case NotMapped => Err(404)
      case Found(m) =>
        match env.mayList(namespace, m)
        case ReviewFailed => Err(404)
        case Denied => Err(403)
        case Allowed => Ok(m)
  }

  /** The backend answers with a count, fails, or returns nothing. */
  datatype Backend = Answers | Fails | Silent

  /** The namespace a mapping is counted in. */
  function CountedNamespace(m: Mapping, namespace: string): string {
    if m.clusterScoped then "" else namespace
  }

  /** What a request is answered. */
  function Response(env: CountEnv, keys: set<string>, namespace: string, query: string, labels: string,
                    backend: Backend)
    : CountResponse
  {
    match ResolveQuery(env, namespace, query)
    case Err(status) => Failure(status)
    case Ok(m) =>
      if !backend.Answers? then Failure(if backend.Fails? then 500 else 404)
      else
        var sel, ns := FieldSelectors.Parse(query), CountedNamespace(m, namespace);
        var prefix := KeyPrefix(env.core, m.group, m.resource, m.clusterScoped, ns);
        Counted(ns, sel.kind, |CountedKeys(env, keys, prefix, labels, sel.residual)|)
  }

  method ListCount(env: CountEnv, keys: set<string>, namespace: string, query: string, labelSelector: string,
                   backend: Backend)
    returns (r: CountResponse)
    ensures r == Response(env, keys, namespace, query, labelSelector, backend)
  {
    var apiVersion, kind, fieldSelector := FieldSelectors.SplitFieldSelector(query);
    if apiVersion == "" {
      return Failure(400);
    } else if kind == "" {
      return Failure(400);
    }
    var gvk := CountGvk(apiVersion, kind);
    var found := env.lookup(gvk);
    if found.LookupFailed? {
      return Failure(500);
    } else if found.NotMapped? {
      return Failure(404);
    }
    var resource := found.mapping;
    var review := env.mayList(namespace, resource);
    if review.ReviewFailed? {
      return Failure(404);
    } else if review.Denied? {
      return Failure(403);
    }
    var ns := namespace;
    if resource.clusterScoped {
      ns := "";
    }
    var prefix := EtcdKey(Gvk(resource.group, resource.version, kind), ns, Some(resource), env.core);
    if prefix.Err? {
      return Failure(500);
    }
    if backend.Fails? {
      return Failure(500);
    } else if backend.Silent? {
      return Failure(404);
    }
    return Counted(ns, kind, |CountedKeys(env, keys, prefix.value, labelSelector, fieldSelector)|);
  }

  // ----- what a query asks for, without naming the functions above -----

  /** The query's last assignments leave the version or the kind empty. */
  ghost predicate Incomplete(query: string) {
    FieldSelectors.LastGives(query, "apiVersion", "") || FieldSelectors.LastGives(query, "kind", "")
  }

  /** The query's last assignments give a version text and a kind, which name this kind. */
  ghost predicate AsksFor(query: string, gvk: Gvk) {
    exists apiVersion, kind ::
      && apiVersion != "" && kind != "" && CountNames(apiVersion, kind, gvk)
      && FieldSelectors.LastGives(query, "apiVersion", apiVersion) && FieldSelectors.LastGives(query, "kind", kind)
  }

  /** Every query is incomplete or asks for one kind. */
  lemma AsksForExactly(query: string, gvk: Gvk)
    ensures var sel := FieldSelectors.Parse(query);
            && (Incomplete(query) <==> sel.apiVersion == "" || sel.kind == "")
            && (AsksFor(query, gvk) <==> !Incomplete(query) && gvk == CountGvk(sel.apiVersion, sel.kind))
  {
    var sel := FieldSelectors.Parse(query);
    forall v
      ensures sel.apiVersion == v <==> FieldSelectors.LastGives(query, "apiVersion", v)
      ensures sel.kind == v <==> FieldSelectors.LastGives(query, "kind", v)
    {
      FieldSelectors.SelectionExactly(query, "apiVersion", v);
      FieldSelectors.SelectionExactly(query, "kind", v);
    }
    ParsersReadExactly(sel.apiVersion, sel.kind, gvk);
  }

  /** The query asks for a kind that is mapped to `m`, and the review of listing it ends so. */
  ghost predicate Reviewed(env: CountEnv, namespace: string, query: string, m: Mapping, review: Review) {
    exists gvk :: AsksFor(query, gvk) && env.lookup(gvk) == Found(m) && env.mayList(namespace, m) == review
  }

  /** The query asks for a kind that is looked up so. */
  ghost predicate LooksUp(env: CountEnv, query: string, found: Lookup) {
    exists gvk :: AsksFor(query, gvk) && env.lookup(gvk) == found
  }

  /** The kind a complete query asks for. */
  function AskedKind(query: string): Gvk {
    CountGvk(FieldSelectors.Parse(query).apiVersion, FieldSelectors.Parse(query).kind)
  }

  lemma LooksUpExactly(env: CountEnv, query: string, found: Lookup)
    ensures LooksUp(env, query, found) <==> !Incomplete(query) && env.lookup(AskedKind(query)) == found
  {
    forall g ensures AsksFor(query, g) <==> !Incomplete(query) && g == AskedKind(query) { AsksForExactly(query, g); }
    if !Incomplete(query) { assert AsksFor(query, AskedKind(query)); }
  }

  lemma ReviewedExactly(env: CountEnv, namespace: string, query: string, m: Mapping, review: Review)
    ensures Reviewed(env, namespace, query, m, review)
            <==> LooksUp(env, query, Found(m)) && env.mayList(namespace, m) == review
  {
    if LooksUp(env, query, Found(m)) {
      var gvk :| AsksFor(query, gvk) && env.lookup(gvk) == Found(m);
    }
  }

  /** Why a query does not resolve. */
  lemma ResolvesExactly(env: CountEnv, namespace: string, query: string)
    ensures var r := ResolveQuery(env, namespace, query);
            && (forall m :: r == Ok(m) <==> Reviewed(env, namespace, query, m, Allowed))
            && (r == Err(400) <==> Incomplete(query))
            && (r == Err(403) <==> exists m :: Reviewed(env, namespace, query, m, Denied))
            && (r == Err(404) <==> || LooksUp(env, query, NotMapped)
                                   || exists m :: Reviewed(env, namespace, query, m, ReviewFailed))
            && (r == Err(500) <==> LooksUp(env, query, LookupFailed))
            && (r.Err? ==> r.error in {400, 403, 404, 500})
  {
    forall found ensures LooksUp(env, query, found) <==> !Incomplete(query) && env.lookup(AskedKind(query)) == found {
      LooksUpExactly(env, query, found);
    }
    forall m, review
      ensures Reviewed(env, namespace, query, m, review)
              <==> LooksUp(env, query, Found(m)) && env.mayList(namespace, m) == review
    {
      ReviewedExactly(env, namespace, query, m, review);
    }
    AsksForExactly(query, AskedKind(query));
    ResolvedByLookup(env, namespace, query);
    if !Incomplete(query) && env.lookup(AskedKind(query)).Found? {
      var m := env.lookup(AskedKind(query)).mapping;
      assert Reviewed(env, namespace, query, m, env.mayList(namespace, m));
    }
  }

  lemma ResolvedByLookup(env: CountEnv, namespace: string, query: string)
    ensures var r, found := ResolveQuery(env, namespace, query), env.lookup(AskedKind(query));
            if Incomplete(query) then r == Err(400)
            else if found.LookupFailed? then r == Err(500)
            else if found.NotMapped? then r == Err(404)
            else
              var review := env.mayList(namespace, found.mapping);
              r == if review.Allowed? then Ok(found.mapping) else Err(if review.Denied? then 403 else 404)
  {
    AsksForExactly(query, AskedKind(query));
  }

  /** Every answer by its cause. A request is counted exactly when it asks for a kind that is mapped,
      listing it is allowed, and the backend answers. It is refused with 400 exactly for want of a
      version or kind, with 403 exactly for a denied review, with 404 exactly when the kind is not
      mapped, the review fails or the backend has nothing, and with 500 exactly when the lookup or
      the backend fails. */
  lemma AnsweredExactly(env: CountEnv, keys: set<string>, namespace: string, query: string, labels: string,
                        backend: Backend)
    ensures var r := Response(env, keys, namespace, query, labels, backend);
            && (r.Counted? <==> backend.Answers? && exists m :: Reviewed(env, namespace, query, m, Allowed))
            && (r == Failure(400) <==> Incomplete(query))
            && (r == Failure(403) <==> exists m :: Reviewed(env, namespace, query, m, Denied))
            && (r == Failure(404)
                <==> || LooksUp(env, query, NotMapped)
                     || (exists m :: Reviewed(env, namespace, query, m, ReviewFailed))
                     || (backend.Silent? && exists m :: Reviewed(env, namespace, query, m, Allowed)))
            && (r == Failure(500)
                <==> || LooksUp(env, query, LookupFailed)
                     || (backend.Fails? && exists m :: Reviewed(env, namespace, query, m, Allowed)))
            && (r.Counted? || r.status in {400, 403, 404, 500})
  {
    ResolvesExactly(env, namespace, query);
    var resolved := ResolveQuery(env, namespace, query);
    assert resolved.Ok? <==> exists m :: Reviewed(env, namespace, query, m, Allowed) by {
      if resolved.Ok? { assert Reviewed(env, namespace, query, resolved.value, Allowed); }
    }
  }

  /** The keys that begin with the prefix of a mapped kind, in the given namespace unless the kind is
      cluster-scoped, and, if there is any selector, that the backend selects. */
  function Matching(env: CountEnv, keys: set<string>, m: Mapping, namespace: string, labels: string, fields: string)
    : set<string>
  {
    var prefix := "/registry/" + (if m.group in env.core then "" else m.group + "/") + m.resource + "/"
                  + (if m.clusterScoped || namespace == "" then "" else namespace + "/");
    set k | k in keys && prefix <= k && (labels != "" || fields != "" ==> env.selects(labels, fields, k))
  }

  lemma MatchingExactly(env: CountEnv, keys: set<string>, m: Mapping, namespace: string, labels: string, fields: string)
    ensures var prefix := KeyPrefix(env.core, m.group, m.resource, m.clusterScoped, CountedNamespace(m, namespace));
            CountedKeys(env, keys, prefix, labels, fields) == Matching(env, keys, m, namespace, labels, fields)
  {
    PrefixLayout(env.core, m.group, m.resource, m.clusterScoped, CountedNamespace(m, namespace));
  }

  /** And what is reported: the kind the query asks for, and the number of matching keys. */
  lemma CountedExactly(env: CountEnv, keys: set<string>, namespace: string, query: string, labels: string, m: Mapping,
                       kind: string)
    requires Reviewed(env, namespace, query, m, Allowed) && FieldSelectors.LastGives(query, "kind", kind)
    ensures Response(env, keys, namespace, query, labels, Answers)
            == Counted(if m.clusterScoped then "" else namespace, kind,
                       |Matching(env, keys, m, namespace, labels, FieldSelectors.Parse(query).residual)|)
  {
    ResolvesExactly(env, namespace, query);
    FieldSelectors.SelectionExactly(query, "kind", kind);
    MatchingExactly(env, keys, m, namespace, labels, FieldSelectors.Parse(query).residual);
  }

  /** End to end: a request is answered with a count exactly when it resolves and the backend
      answers; and without further selectors, over a store of well-formed objects, the count is the
      number of objects of the mapping's storage group and resource in the namespace it is counted
      in. */
  lemma AnsweredCountIsObjectCount(env: CountEnv, groups: set<string>, slots: set<Slot>, keys: set<string>,
                                   namespace: string, query: string, labels: string, backend: Backend)
    requires RegistryOf(keys, groups, slots)
    ensures var r := Response(env, keys, namespace, query, labels, backend);
            var resolved := ResolveQuery(env, namespace, query);
            && (r.Counted? <==> resolved.Ok? && backend.Answers?)
            && (r.Counted? && labels == "" && FieldSelectors.Parse(query).residual == "" ==>
                  var m := resolved.value;
                  var ns, space := CountedNamespace(m, namespace), SpaceOf(env.core, m.group);
                  WellFormed(groups, Slot(space, m.resource, ns, "")) ==>
                    r == Counted(ns, FieldSelectors.Parse(query).kind, |Chosen(slots, space, m.resource, ns)|))
  {
    var r, resolved := Response(env, keys, namespace, query, labels, backend), ResolveQuery(env, namespace, query);
    if r.Counted? && labels == "" && FieldSelectors.Parse(query).residual == "" {
      var m := resolved.value;
      var ns, space := CountedNamespace(m, namespace), SpaceOf(env.core, m.group);
      if WellFormed(groups, Slot(space, m.resource, ns, "")) {
        CountIsExact(env.core, groups, slots, keys, m.group, m.resource, m.clusterScoped, ns);
        var prefix := KeyPrefix(env.core, m.group, m.resource, m.clusterScoped, ns);
        assert CountedKeys(env, keys, prefix, "", "") == Under(keys, prefix);
      }
    }
  }

  /** A counted request was allowed to list the mapping in the request's namespace, and is counted
      in the very namespace that was reviewed exactly when it is not a cluster-scoped kind asked for
      in a namespace; that is counted in the whole cluster. */
  lemma CountedWhereReviewedExactly(env: CountEnv, keys: set<string>, namespace: string, query: string, labels: string,
                                    backend: Backend)
    requires Response(env, keys, namespace, query, labels, backend).Counted?
    ensures var m := ResolveQuery(env, namespace, query).value;
            && env.mayList(namespace, m) == Allowed
            && (Response(env, keys, namespace, query, labels, backend).namespace == namespace
                <==> !(m.clusterScoped && namespace != ""))
  {
    var sel := FieldSelectors.Parse(query);
    assert env.lookup(CountGvk(sel.apiVersion, sel.kind)).Found?;
  }
}
