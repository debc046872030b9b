/** Any number of create handlers interleaving over one store, with replies that get lost and with
    other writers that leave the transaction keys alone. */
module CommitProtocol {
  import opened GoStrings
  import opened EtcdStore
  import opened TransactionEnv
  import opened TransactionHandler

  /** A request's progress. `env` is what the handler saw while it prepared; `applied` records
      whether its put took effect, which the handler itself may never learn. */
  datatype Phase =
    | Submitted(sub: Submission)
    | Refused(status: int)
    | Ready(env: Env, sub: Submission, payload: Payload)
    | Done(env: Env, sub: Submission, payload: Payload, applied: bool, response: Response)

  datatype System = System(store: Store<Payload>, phases: map<nat, Phase>)

  datatype Step =
    | Submit(id: nat, sub: Submission)
    | Prepare(id: nat, env: Env)
    | CommitStep(id: nat, link: Link)
    | Outside(store: Store<Payload>)

  function KeyFor(p: Payload): string {
    if p.TransactionRecord? then TransactionKey(p.namespace, p.name) else ""
  }

  predicate IsTransactionKey(key: string) {
    HasPrefix(key, TRANSACTIONS)
  }

  /** Other writers do as they like with other keys, and never delete or touch a transaction key. */
  ghost predicate OutsideWrite(s: Store<Payload>, s': Store<Payload>) {
    && s.revision <= s'.revision && Consistent(s')
    && forall key | IsTransactionKey(key) ::
         (key in s'.kv <==> key in s.kv) && (key in s.kv ==> s'.kv[key] == s.kv[key])
  }

  /** One request's compare-and-put and its answer, as a single step. */
  ghost function AfterCommit(s: System, id: nat, link: Link): System
    requires id in s.phases && s.phases[id].Ready? && s.phases[id].payload.TransactionRecord?
  {
    var Ready(env, sub, payload) := s.phases[id];
    var (store', reply) := Exchange(s.store, payload, link);
    var applied := Reaches(link) && KeyFor(payload) !in s.store.kv;
    System(store', s.phases[id := Done(env, sub, payload, applied, Answer(payload, reply))])
  }

  ghost predicate Next(s: System, step: Step, s': System) {
    match step
    case Submit(id, sub) =>
      id !in s.phases && s' == s.(phases := s.phases[id := Submitted(sub)])
    case Prepare(id, env) =>
      && id in s.phases && s.phases[id].Submitted?
      && var sub := s.phases[id].sub;
         s' == s.(phases := s.phases[id :=
           match Plan(env, sub)
           case Err(reason) => Refused(StatusOf(reason))
           case Ok(payload) => Ready(env, sub, payload)])
    case CommitStep(id, link) =>
      id in s.phases && s.phases[id].Ready? && s.phases[id].payload.TransactionRecord? && s' == AfterCommit(s, id, link)
    case Outside(store') =>
      OutsideWrite(s.store, store') && s' == s.(store := store')
  }

  ghost predicate Init(s: System) {
    Consistent(s.store) && s.phases == map[]
  }

  ghost predicate Run(states: seq<System>, steps: seq<Step>) {
    && |states| == |steps| + 1 && Init(states[0])
    && forall i | 0 <= i < |steps| :: Next(states[i], steps[i], states[i + 1])
  }

  // ----- what every step keeps -----

  predicate Applied(s: System, id: nat) {
    id in s.phases && s.phases[id].Done? && s.phases[id].applied
  }

  predicate Won(s: System, id: nat) {
    id in s.phases && s.phases[id].Done? && s.phases[id].response.Created?
  }

  function KeyAt(s: System, id: nat): string
    requires id in s.phases && s.phases[id].Done?
  {
    KeyFor(s.phases[id].payload)
  }

  /** A prepared or finished request carries the record its own submission planned. */
  ghost predicate PlansKept(s: System) {
    forall id | id in s.phases ::
      match s.phases[id]
      case Ready(env, sub, payload) => Plan(env, sub) == Ok(payload)
      case Done(env, sub, payload, _, _) => Plan(env, sub) == Ok(payload)
      case _ => true
  }

  /** An applied put is still in the store, exactly as it was written. */
  ghost predicate RecordsKept(s: System) {
    forall id | Applied(s, id) ::
      KeyAt(s, id) in s.store.kv && s.store.kv[KeyAt(s, id)].value == s.phases[id].payload
  }

  /** Applied puts have keys and revisions of their own. */
  ghost predicate AppliedApart(s: System) {
    forall i, j | Applied(s, i) && Applied(s, j) && i != j ::
      && KeyAt(s, i) != KeyAt(s, j)
      && (KeyAt(s, i) in s.store.kv && KeyAt(s, j) in s.store.kv ==>
            s.store.kv[KeyAt(s, i)].modRevision != s.store.kv[KeyAt(s, j)].modRevision)
  }

  /** A 201 means the put was applied at the reported revision. */
  ghost predicate WinnersApplied(s: System) {
    forall id | Won(s, id) ::
      && Applied(s, id) && KeyAt(s, id) in s.store.kv && s.phases[id].payload.TransactionRecord?
      && s.phases[id].response == Created(s.phases[id].payload.namespace, s.phases[id].payload.name,
                                          s.store.kv[KeyAt(s, id)].modRevision)
  }

  /** The transaction keys are those present at the start and those of applied puts, and no put
      was applied to a key present at the start. */
  ghost predicate KeysAccounted(base: set<string>, s: System) {
    && (forall id | Applied(s, id) :: KeyAt(s, id) !in base && IsTransactionKey(KeyAt(s, id)))
    && (forall key | key in s.store.kv && IsTransactionKey(key) :: key in base || AppliedKey(s, key))
    && (forall key | key in base && IsTransactionKey(key) :: key in s.store.kv)
  }

  ghost predicate AppliedKey(s: System, key: string) {
    exists id :: Applied(s, id) && KeyAt(s, id) == key
  }

  ghost predicate Inv(base: set<string>, s: System) {
    && Consistent(s.store) && PlansKept(s) && RecordsKept(s)
    && AppliedApart(s) && WinnersApplied(s) && KeysAccounted(base, s)
  }

  lemma PlanIsRecord(env: Env, sub: Submission)
    ensures Plan(env, sub).Ok? ==> Plan(env, sub).value.TransactionRecord?
  {
  }

  lemma KeyIsTransactionKey(p: Payload)
    requires p.TransactionRecord?
    ensures IsTransactionKey(KeyFor(p))
  {
    assert KeyFor(p) == TRANSACTIONS + (p.namespace + "/" + p.name);
  }

  /** What a commit does to the store: nothing, or one new record at a fresh key and revision. */
  lemma ExchangeEffect(s: Store<Payload>, p: Payload, link: Link)
    requires Consistent(s) && p.TransactionRecord?
    ensures var (s', reply) := Exchange(s, p, link); var key := KeyFor(p);
            && Consistent(s') && s.revision <= s'.revision
            && (if Reaches(link) && key !in s.kv
                then s' == Store(s.revision + 1, s.kv[key := Record(p, s.revision + 1)])
                else s' == s)
            && (Answer(p, reply).Created? <==> link.Delivered? && key !in s.kv)
            && (Answer(p, reply).Created? ==> Answer(p, reply) == Created(p.namespace, p.name, s.revision + 1))
            && (!Answer(p, reply).Created? ==> Answer(p, reply) == Failure(500))
  {
  }

  lemma SubmitIsQuiet(s: System, id: nat, sub: Submission, s': System)
    requires PlansKept(s) && Consistent(s.store) && Next(s, Submit(id, sub), s')
    ensures SameDone(s, s') && OutsideWrite(s.store, s'.store) && PlansKept(s')
  {
  }

  lemma PrepareIsQuiet(s: System, id: nat, env: Env, s': System)
    requires PlansKept(s) && Consistent(s.store) && Next(s, Prepare(id, env), s')
    ensures SameDone(s, s') && OutsideWrite(s.store, s'.store) && PlansKept(s')
  {
  }

  lemma StepKeepsInv(base: set<string>, s: System, step: Step, s': System)
    requires Inv(base, s) && Next(s, step, s')
    ensures Inv(base, s')
  {
    match step {
      case Submit(id, sub) =>
        SubmitIsQuiet(s, id, sub, s');
        QuietStep(base, s, s');
      case Prepare(id, env) =>
        PrepareIsQuiet(s, id, env, s');
        QuietStep(base, s, s');
      case CommitStep(id, link) => CommitKeepsInv(base, s, id, link, s');
      case Outside(_) => QuietStep(base, s, s');
    }
  }

  /** No request finishes, and none that has finished changes. */
  ghost predicate SameDone(s: System, s': System) {
    forall i :: (Applied(s', i) <==> Applied(s, i)) && (Won(s', i) <==> Won(s, i))
                && (Applied(s, i) ==> s'.phases[i] == s.phases[i])
  }

  /** Steps that finish no request and leave the transaction keys alone keep the invariant. */
  lemma QuietStep(base: set<string>, s: System, s': System)
    requires Inv(base, s) && SameDone(s, s') && OutsideWrite(s.store, s'.store) && PlansKept(s')
    ensures Inv(base, s')
  {
    forall key | key in s'.store.kv && IsTransactionKey(key) ensures key in base || AppliedKey(s', key) {
      if key !in base {
        var i :| Applied(s, i) && KeyAt(s, i) == key;
        assert Applied(s', i) && KeyAt(s', i) == key;
      }
    }
    forall i | Applied(s', i)
      ensures Applied(s, i) && KeyAt(s', i) == KeyAt(s, i) && KeyAt(s, i) in s.store.kv && KeyAt(s, i) in s'.store.kv
              && s'.store.kv[KeyAt(s, i)] == s.store.kv[KeyAt(s, i)]
    {
      assert IsTransactionKey(KeyAt(s, i));
    }
    assert RecordsKept(s') && AppliedApart(s') && KeysAccounted(base, s');
    forall i | Won(s', i) ensures Won(s, i) && Applied(s, i) { }
    assert WinnersApplied(s');
  }

  /** What a commit step leaves of the other requests, and what it makes of its own: `lands` says
      whether the put takes effect. */
  ghost predicate Effect(s: System, id: nat, lands: bool, s': System) {
    && id in s.phases && id in s'.phases && s.phases[id].Ready? && s'.phases[id].Done?
    && s'.phases == s.phases[id := s'.phases[id]]
    && var before, after := s.phases[id], s'.phases[id];
       var p, revision := before.payload, s.store.revision + 1;
       && p.TransactionRecord? && IsTransactionKey(KeyFor(p)) && Consistent(s'.store)
       && after.payload == p && after.applied == lands && after.env == before.env && after.sub == before.sub
       && (lands ==> KeyFor(p) !in s.store.kv
                     && s'.store == Store(revision, s.store.kv[KeyFor(p) := Record(p, revision)]))
       && (!lands ==> s'.store == s.store)
       && (after.response.Created? ==> lands && after.response == Created(p.namespace, p.name, revision))
  }

  lemma CommitEffect(s: System, id: nat, link: Link, s': System)
    requires Consistent(s.store) && Next(s, CommitStep(id, link), s')
    ensures Effect(s, id, Reaches(link) && KeyFor(s.phases[id].payload) !in s.store.kv, s')
  {
    ExchangeEffect(s.store, s.phases[id].payload, link);
    KeyIsTransactionKey(s.phases[id].payload);
  }

  lemma EffectElsewhere(s: System, id: nat, lands: bool, s': System, i: nat)
    requires Effect(s, id, lands, s') && RecordsKept(s) && i != id
    ensures (Applied(s', i) <==> Applied(s, i)) && (Won(s', i) <==> Won(s, i))
    ensures Applied(s, i) ==>
              && KeyAt(s', i) == KeyAt(s, i) && KeyAt(s, i) in s.store.kv && KeyAt(s, i) in s'.store.kv
              && s'.store.kv[KeyAt(s, i)] == s.store.kv[KeyAt(s, i)]
              && (lands ==> KeyAt(s, i) != KeyFor(s.phases[id].payload))
  {
  }

  lemma EffectKeepsRecords(s: System, id: nat, lands: bool, s': System)
    requires Effect(s, id, lands, s') && RecordsKept(s)
    ensures RecordsKept(s')
  {
    forall i | Applied(s', i)
      ensures KeyAt(s', i) in s'.store.kv && s'.store.kv[KeyAt(s', i)].value == s'.phases[i].payload
    {
      if i != id { EffectElsewhere(s, id, lands, s', i); }
    }
  }

  lemma EffectKeepsWinners(s: System, id: nat, lands: bool, s': System)
    requires Effect(s, id, lands, s') && RecordsKept(s) && WinnersApplied(s)
    ensures WinnersApplied(s')
  {
    forall i | Won(s', i) && i != id ensures Won(s, i) && Applied(s, i) && Applied(s', i) {
      EffectElsewhere(s, id, lands, s', i);
    }
    forall i | Applied(s, i) && i != id ensures s'.phases[i] == s.phases[i] && KeyAt(s, i) in s'.store.kv
                                               && s'.store.kv[KeyAt(s, i)] == s.store.kv[KeyAt(s, i)] {
      EffectElsewhere(s, id, lands, s', i);
    }
  }

  lemma EffectKeepsApart(s: System, id: nat, lands: bool, s': System)
    requires Effect(s, id, lands, s') && Consistent(s.store) && RecordsKept(s) && AppliedApart(s)
    ensures AppliedApart(s')
  {
    forall i, j | Applied(s', i) && Applied(s', j) && i != j
      ensures KeyAt(s', i) != KeyAt(s', j)
      ensures KeyAt(s', i) in s'.store.kv && KeyAt(s', j) in s'.store.kv ==>
                s'.store.kv[KeyAt(s', i)].modRevision != s'.store.kv[KeyAt(s', j)].modRevision
    {
      if i != id { EffectElsewhere(s, id, lands, s', i); }
      if j != id { EffectElsewhere(s, id, lands, s', j); }
    }
  }

  lemma EffectKeepsKeys(base: set<string>, s: System, id: nat, lands: bool, s': System)
    requires Effect(s, id, lands, s') && RecordsKept(s) && KeysAccounted(base, s)
    ensures KeysAccounted(base, s')
  {
    forall k | k in s'.store.kv && IsTransactionKey(k) ensures k in base || AppliedKey(s', k) {
      if k in s.store.kv {
        if k !in base {
          var i :| Applied(s, i) && KeyAt(s, i) == k;
          EffectElsewhere(s, id, lands, s', i);
        }
      } else {
        assert Applied(s', id) && KeyAt(s', id) == k;
      }
    }
    forall i | Applied(s', i) ensures KeyAt(s', i) !in base && IsTransactionKey(KeyAt(s', i)) {
      if i != id { EffectElsewhere(s, id, lands, s', i); }
    }
  }

  lemma CommitKeepsInv(base: set<string>, s: System, id: nat, link: Link, s': System)
    requires Inv(base, s) && Next(s, CommitStep(id, link), s')
    ensures Inv(base, s')
  {
    var lands := Reaches(link) && KeyFor(s.phases[id].payload) !in s.store.kv;
    CommitEffect(s, id, link, s');
    EffectKeepsRecords(s, id, lands, s');
    EffectKeepsWinners(s, id, lands, s');
    EffectKeepsApart(s, id, lands, s');
    EffectKeepsKeys(base, s, id, lands, s');
  }

  /** The transaction keys present at the start. */
  function BaseKeys(s: System): set<string> {
    set key | key in s.store.kv && IsTransactionKey(key)
  }

  lemma {:induction false} RunKeepsInv(states: seq<System>, steps: seq<Step>, n: nat)
    requires Run(states, steps) && n < |states|
    ensures Inv(BaseKeys(states[0]), states[n])
  {
    if n > 0 {
      RunKeepsInv(states, steps, n - 1);
      StepKeepsInv(BaseKeys(states[0]), states[n - 1], steps[n - 1], states[n]);
    }
  }

  // ----- the guarantees over whole runs -----

  /** At most one winner: in every reachable state, two requests answered 201 have different keys,
      so different namespaces or names, and different resource versions; and the record under a
      winner's key is its own payload at the reported revision. */
  lemma AtMostOneWinner(states: seq<System>, steps: seq<Step>, n: nat, i: nat, j: nat)
    requires Run(states, steps) && n < |states|
    requires Won(states[n], i) && Won(states[n], j) && i != j
    ensures var s := states[n];
            && KeyAt(s, i) != KeyAt(s, j)
            && s.phases[i].response.resourceVersion != s.phases[j].response.resourceVersion
            && (s.phases[i].response.namespace != s.phases[j].response.namespace
                || s.phases[i].response.name != s.phases[j].response.name)
  {
    RunKeepsInv(states, steps, n);
  }

  lemma WinnersRecordStands(states: seq<System>, steps: seq<Step>, n: nat, i: nat)
    requires Run(states, steps) && n < |states| && Won(states[n], i)
    ensures var s := states[n]; var p := s.phases[i].payload;
            && p.TransactionRecord? && Plan(s.phases[i].env, s.phases[i].sub) == Ok(p)
            && KeyFor(p) in s.store.kv
            && s.store.kv[KeyFor(p)] == Record(p, s.phases[i].response.resourceVersion)
  {
    RunKeepsInv(states, steps, n);
  }

  ghost predicate Grows(s: System, s': System) {
    && s.store.revision <= s'.store.revision
    && (forall key | key in s.store.kv && IsTransactionKey(key) ::
          key in s'.store.kv && s'.store.kv[key] == s.store.kv[key])
    && (forall id | id in s.phases && s.phases[id].Done? :: id in s'.phases && s'.phases[id] == s.phases[id])
  }

  lemma StepGrows(s: System, step: Step, s': System)
    requires Consistent(s.store) && Next(s, step, s')
    ensures Grows(s, s')
  {
    if step.CommitStep? {
      ExchangeEffect(s.store, s.phases[step.id].payload, step.link);
    }
  }

  /** Nothing under a transaction key is ever overwritten or removed, no answer is ever taken back,
      and the revision never decreases. */
  lemma {:induction false} NeverOverwritten(states: seq<System>, steps: seq<Step>, n: nat, m: nat)
    requires Run(states, steps) && n <= m < |states|
    ensures Grows(states[n], states[m])
    decreases m
  {
    if n < m {
      NeverOverwritten(states, steps, n, m - 1);
      RunKeepsInv(states, steps, m - 1);
      StepGrows(states[m - 1], steps[m - 1], states[m]);
    }
  }

  /** A step that makes a request a winner reports a revision later than all before it. */
  lemma NewWinnerIsLater(s: System, step: Step, s': System, j: nat)
    requires Consistent(s.store) && Next(s, step, s') && Won(s', j) && !Won(s, j)
    ensures s'.phases[j].response.resourceVersion > s.store.revision
  {
    if step.CommitStep? { CommitEffect(s, step.id, step.link, s'); }
  }

  /** Whoever wins after a state reports a revision later than everything that state has seen. */
  lemma {:induction false} LaterWinnersAreLater(states: seq<System>, steps: seq<Step>, n: nat, m: nat, j: nat)
    requires Run(states, steps) && n <= m < |states|
    requires Won(states[m], j) && !Won(states[n], j)
    ensures states[m].phases[j].response.resourceVersion > states[n].store.revision
    decreases m
  {
    var s, step := states[m - 1], steps[m - 1];
    RunKeepsInv(states, steps, m - 1);
    if Won(s, j) {
      LaterWinnersAreLater(states, steps, n, m - 1, j);
      StepGrows(s, step, states[m]);
    } else {
      NeverOverwritten(states, steps, n, m - 1);
      NewWinnerIsLater(s, step, states[m], j);
    }
  }

  /** Reported resource versions increase in commit order. */
  lemma WinnersInCommitOrder(states: seq<System>, steps: seq<Step>, n: nat, m: nat, i: nat, j: nat)
    requires Run(states, steps) && n <= m < |states|
    requires Won(states[n], i) && Won(states[m], j) && !Won(states[n], j)
    ensures states[n].phases[i].response.resourceVersion < states[m].phases[j].response.resourceVersion
  {
    LaterWinnersAreLater(states, steps, n, m, j);
    RunKeepsInv(states, steps, n);
  }

  /** A commit leaves the store unchanged exactly when its put does not take effect; one that is
      answered, and not with a 201, never takes effect. */
  lemma LosersLeaveStoreAlone(s: System, id: nat, link: Link, s': System)
    requires Consistent(s.store) && Next(s, CommitStep(id, link), s')
    ensures s'.store == s.store <==> !Applied(s', id)
    ensures link.Delivered? ==> (Won(s', id) <==> Applied(s', id))
    ensures link.Delivered? && !Won(s', id) ==> s'.store == s.store
  {
    ExchangeEffect(s.store, s.phases[id].payload, link);
  }

  /** An error says nothing about the store: the same error answers an applied and a lost put. */
  lemma ErrorSaysNothing(s: Store<Payload>, p: Payload)
    requires Consistent(s) && p.TransactionRecord? && KeyFor(p) !in s.kv
    ensures var (kept, r1) := Exchange(s, p, Lost(false)); var (changed, r2) := Exchange(s, p, Lost(true));
            Answer(p, r1) == Answer(p, r2) == Failure(500) && kept == s && KeyFor(p) in changed.kv
  {
  }

  /** After a put whose reply was lost, no request for the same key is ever answered 201: not in
      that state and not later. */
  lemma LostReplyBlocksKey(states: seq<System>, steps: seq<Step>, n: nat, m: nat, i: nat, j: nat)
    requires Run(states, steps) && n <= m < |states|
    requires Applied(states[n], i) && !Won(states[n], i)
    requires Won(states[m], j)
    ensures KeyAt(states[m], j) != KeyAt(states[n], i)
  {
    NeverOverwritten(states, steps, n, m);
    RunKeepsInv(states, steps, m);
  }

  /** However often a named transaction is submitted, it is answered 201 at most once, and takes
      effect at most once, answered or not. */
  lemma RetriesWinOnce(states: seq<System>, steps: seq<Step>, n: nat, i: nat, j: nat)
    requires Run(states, steps) && n < |states| && i != j
    requires var s := states[n];
             && i in s.phases && s.phases[i].Done? && j in s.phases && s.phases[j].Done?
             && Resubmission(s.phases[i].env, s.phases[i].sub, s.phases[j].env, s.phases[j].sub)
             && Named(s.phases[i].env, s.phases[i].sub)
    ensures KeyAt(states[n], i) == KeyAt(states[n], j)
    ensures !(Applied(states[n], i) && Applied(states[n], j)) && !(Won(states[n], i) && Won(states[n], j))
  {
    var s := states[n];
    RunKeepsInv(states, steps, n);
    ResubmissionSharesKey(s.phases[i].env, s.phases[i].sub, s.phases[j].env, s.phases[j].sub);
  }

  /** The requests whose put took effect. */
  function AppliedIds(s: System): set<nat> {
    set id | id in s.phases && Applied(s, id)
  }

  lemma {:induction false} DistinctKeysCount(s: System, ids: set<nat>)
    requires AppliedApart(s) && ids <= AppliedIds(s)
    ensures |set id | id in ids && Applied(s, id) :: KeyAt(s, id)| == |ids|
  {
    if ids != {} {
      var id :| id in ids;
      var rest := ids - {id};
      DistinctKeysCount(s, rest);
      var all := set i | i in ids && Applied(s, i) :: KeyAt(s, i);
      var others := set i | i in rest && Applied(s, i) :: KeyAt(s, i);
      assert all == others + {KeyAt(s, id)};
      assert KeyAt(s, id) !in others;
    }
  }

  lemma KeysArePartitioned(base: set<string>, s: System, keys: set<string>)
    requires KeysAccounted(base, s) && (forall key | key in base :: IsTransactionKey(key))
    requires RecordsKept(s) && keys == set id | id in AppliedIds(s) && Applied(s, id) :: KeyAt(s, id)
    ensures BaseKeys(s) == base + keys && base !! keys
  {
    forall key | key in BaseKeys(s) && key !in base ensures key in keys {
      var id :| Applied(s, id) && KeyAt(s, id) == key;
      assert id in AppliedIds(s);
    }
  }

  /** Conservation: the transaction records are those present at the start plus exactly one for
      each request whose put took effect. */
  lemma RecordsAreConserved(states: seq<System>, steps: seq<Step>, n: nat)
    requires Run(states, steps) && n < |states|
    ensures |BaseKeys(states[n])| == |BaseKeys(states[0])| + |AppliedIds(states[n])|
  {
    var s := states[n];
    RunKeepsInv(states, steps, n);
    var keys := set id | id in AppliedIds(s) && Applied(s, id) :: KeyAt(s, id);
    DistinctKeysCount(s, AppliedIds(s));
    KeysArePartitioned(BaseKeys(states[0]), s, keys);
  }

  /** Safety end to end: a transaction record that was not there at the start was planned by one of
      the requests, and if that request's surroundings were faithful, every operation in the record
      was reviewed and granted. */
  lemma EveryRecordIsAuthorised(states: seq<System>, steps: seq<Step>, n: nat, key: string)
    returns (id: nat)
    requires Run(states, steps) && n < |states|
    requires IsTransactionKey(key) && key in states[n].store.kv && key !in states[0].store.kv
    ensures var s := states[n];
            && Applied(s, id) && KeyAt(s, id) == key
            && s.store.kv[key].value == s.phases[id].payload && s.phases[id].payload.TransactionRecord?
            && Plan(s.phases[id].env, s.phases[id].sub) == Ok(s.phases[id].payload)
            && (FaithfulTo(s.phases[id].env, s.phases[id].sub) ==>
                  forall k | k in s.phases[id].payload.resources ::
                    ResourceAuthorised(s.phases[id].env, s.phases[id].sub, k))
  {
    var s := states[n];
    RunKeepsInv(states, steps, n);
    assert key !in BaseKeys(states[0]) && AppliedKey(s, key);
    id :| Applied(s, id) && KeyAt(s, id) == key;
    PlanIsRecord(s.phases[id].env, s.phases[id].sub);
    if FaithfulTo(s.phases[id].env, s.phases[id].sub) {
      PlannedKeysAreAuthorised(s.phases[id].env, s.phases[id].sub);
    }
  }

  /** The create handler, running alone, is a run of the protocol's steps: it prepares, and if the
      submission is not refused it commits, with the answer and the store of its contract. */
  lemma HandlerIsPrepareAndCommit(s: System, id: nat, env: Env, sub: Submission, link: Link)
    returns (s1: System, s2: System)
    requires id in s.phases && s.phases[id] == Submitted(sub)
    ensures Next(s, Prepare(id, env), s1) && s1.store == s.store
    ensures match Plan(env, sub)
            case Err(reason) => s1.phases[id] == Refused(StatusOf(reason)) && s2 == s1
            case Ok(payload) =>
              && payload.TransactionRecord? && Next(s1, CommitStep(id, link), s2)
              && s2.store == Exchange(s.store, payload, link).0
              && s2.phases[id].Done? && s2.phases[id].response == Answer(payload, Exchange(s.store, payload, link).1)
  {
    PlanIsRecord(env, sub);
    match Plan(env, sub) {
      case Err(reason) =>
        s1 := s.(phases := s.phases[id := Refused(StatusOf(reason))]);
        s2 := s1;
      case Ok(payload) =>
        s1 := s.(phases := s.phases[id := Ready(env, sub, payload)]);
        s2 := AfterCommit(s1, id, link);
    }
  }
}
