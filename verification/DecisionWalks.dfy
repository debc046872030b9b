/** When a decision request decodes the same way under every walk of its maps: the exact
    conditions, for one question and for a whole request. */
module DecisionWalks {
  import opened GoStrings
  import opened Values
  import opened DecisionValues
  import opened DecisionQuestions

  /** The raw value `v` may end up under the option name `s`. */
  ghost predicate Candidate(m: map<Key, Value>, s: string, v: Value) {
    exists k :: k in m && Sprint(k) == s && m[k] == v
  }

  /** The option name is given bad values only. */
  ghost predicate BadName(m: map<Key, Value>, s: string) {
    s in PrintedKeys(m) && forall v | Candidate(m, s, v) :: !GoodOption(s, v)
  }

  ghost predicate HasBadName(m: map<Key, Value>) {
    exists s :: BadName(m, s)
  }

  /** Every value is acceptable under its name, and values under one name say the same. */
  ghost predicate Concurring(m: map<Key, Value>) {
    && (forall s, v | Candidate(m, s, v) :: GoodOption(s, v))
    && (forall s, v, v' | Candidate(m, s, v) && Candidate(m, s, v') :: TextOf(v) == TextOf(v'))
  }

  ghost predicate SettledOptions(m: map<Key, Value>) {
    m == map[] || HasBadName(m) || Concurring(m)
  }

  predicate IsChoice(q: Question) {
    ToLower(TrimSpace(q.kind)) == "choice" && NonBlank(q.instructions)
  }

  /** The walk cannot matter to the question: only the options of a choice given as a map with keys
      of any type can depend on it, and then only if no name is bad and they do not concur. */
  ghost predicate Settled(q: Question) {
    IsChoice(q) && q.criteria.AnyMap? ==> SettledOptions(q.criteria.keyed)
  }

  ghost predicate QuestionWalkIndependent(q: Question) {
    forall r1, r2 | Outcome(q, r1) && Outcome(q, r2) :: r1 == r2
  }

  /** What the walk with the canonical normal form makes of the question. */
  ghost function Expected(q: Question): Result<Normalized, QuestionError> {
    Finish(q, Canon(q.criteria))
  }

  /** Texts normalise to themselves, and nothing else normalises to a text. */
  lemma TextsStay(s: string, v: Value, w: Value)
    requires NormalizesTo(v, w)
    ensures TextOf(v) == TextOf(w)
    ensures GoodOption(s, v) <==> GoodOption(s, w)
    ensures GoodLabel(v) <==> GoodLabel(w)
  {
    assert v.Str? <==> w.Str?;
  }

  lemma CandidateOf(m: map<Key, Value>, c: Value, s: string) returns (v: Value)
    requires NormalizesTo(AnyMap(m), c) && s in c.entries
    ensures Candidate(m, s, v) && NormalizesTo(v, c.entries[s])
  {
    var k :| k in m && Sprint(k) == s && NormalizesTo(m[k], c.entries[s]);
    v := m[k];
  }

  // ----- settled questions have one outcome -----

  lemma BadNameFails(m: map<Key, Value>, c: Value, s: string)
    requires NormalizesTo(AnyMap(m), c) && BadName(m, s)
    ensures OptionsOf(c) == Err(CriteriaContent)
  {
    var v := CandidateOf(m, c, s);
    TextsStay(s, v, c.entries[s]);
    assert !GoodOption(s, c.entries[s]);
  }

  lemma ConcurringSame(m: map<Key, Value>, c1: Value, c2: Value)
    requires NormalizesTo(AnyMap(m), c1) && NormalizesTo(AnyMap(m), c2) && Concurring(m)
    ensures OptionsOf(c1) == OptionsOf(c2)
  {
    forall s | s in c1.entries
      ensures GoodOption(s, c1.entries[s]) && GoodOption(s, c2.entries[s])
              && TextOf(c1.entries[s]) == TextOf(c2.entries[s])
    {
      var v1 := CandidateOf(m, c1, s);
      var v2 := CandidateOf(m, c2, s);
      TextsStay(s, v1, c1.entries[s]);
      TextsStay(s, v2, c2.entries[s]);
    }
    SameTexts(c1.entries, c2.entries);
  }

  lemma SameTexts(e1: map<string, Value>, e2: map<string, Value>)
    requires e1.Keys == e2.Keys
    requires forall s | s in e1 :: TextOf(e1[s]) == TextOf(e2[s]) && (GoodOption(s, e1[s]) <==> GoodOption(s, e2[s]))
    ensures OptionsOf(StrMap(e1)) == OptionsOf(StrMap(e2))
  {
    assert e1 == map[] <==> e2 == map[] by {
      assert e1.Keys == {} <==> e1 == map[];
      assert e2.Keys == {} <==> e2 == map[];
    }
    assert AllGood(e1) <==> AllGood(e2);
    assert TextsOf(e1) == TextsOf(e2);
  }

  lemma SameOptions(v: Value, c1: Value, c2: Value)
    requires NormalizesTo(v, c1) && NormalizesTo(v, c2) && (v.AnyMap? ==> SettledOptions(v.keyed))
    ensures OptionsOf(c1) == OptionsOf(c2)
  {
    match v {
      case AnyMap(m) =>
        if m == map[] {
          assert c1.entries == map[] && c2.entries == map[];
        } else if s :| BadName(m, s) {
          BadNameFails(m, c1, s);
          BadNameFails(m, c2, s);
        } else {
          ConcurringSame(m, c1, c2);
        }
      case StrMap(m) =>
        forall s | s in m
          ensures TextOf(c1.entries[s]) == TextOf(c2.entries[s])
                   && (GoodOption(s, c1.entries[s]) <==> GoodOption(s, c2.entries[s]))
        {
          TextsStay(s, m[s], c1.entries[s]);
          TextsStay(s, m[s], c2.entries[s]);
        }
        SameTexts(c1.entries, c2.entries);
      case _ =>
    }
  }

  lemma SameLabels(v: Value, c1: Value, c2: Value)
    requires NormalizesTo(v, c1) && NormalizesTo(v, c2)
    ensures LabelsOf(c1) == LabelsOf(c2)
  {
    if v.List? {
      forall i | 0 <= i < |v.items|
        ensures TextOf(c1.items[i]) == TextOf(c2.items[i]) && (GoodLabel(c1.items[i]) <==> GoodLabel(c2.items[i]))
      {
        TextsStay("", v.items[i], c1.items[i]);
        TextsStay("", v.items[i], c2.items[i]);
      }
      assert seq(|c1.items|, i requires 0 <= i < |c1.items| => TextOf(c1.items[i]))
             == seq(|c2.items|, i requires 0 <= i < |c2.items| => TextOf(c2.items[i]));
    }
  }

  /** A settled question has exactly one outcome, the same for every walk. */
  lemma SettledOutcome(q: Question, r: Result<Normalized, QuestionError>)
    requires Settled(q)
    ensures Outcome(q, r) <==> r == Expected(q)
  {
    CanonIsNormalForm(q.criteria);
    OutcomeFrom(q, Canon(q.criteria));
    if Outcome(q, r) {
      var c := FormOf(q, r);
      SameLabels(q.criteria, c, Canon(q.criteria));
      if IsChoice(q) { SameOptions(q.criteria, c, Canon(q.criteria)); }
    }
  }

  // ----- other questions have two -----

  ghost function GoodValue(m: map<Key, Value>, s: string): (v: Value)
    requires !BadName(m, s) && s in PrintedKeys(m)
    ensures Candidate(m, s, v) && GoodOption(s, v)
  {
    var v :| Candidate(m, s, v) && GoodOption(s, v);
    v
  }

  /** The options in which every name is won by an acceptable value, but `v0` wins the name `s0`. */
  ghost function WonBy(m: map<Key, Value>, s0: string, v0: Value): (e: map<string, Value>)
    requires !HasBadName(m)
    ensures e.Keys == PrintedKeys(m)
  {
    map s | s in PrintedKeys(m) :: if s == s0 then Canon(v0) else GoodValue(m, s)
  }

  lemma CandidateWins(m: map<Key, Value>, s: string, v: Value, w: Value)
    requires Candidate(m, s, v) && NormalizesTo(v, w)
    ensures s in PrintedKeys(m) && exists k :: k in m && Sprint(k) == s && NormalizesTo(m[k], w)
  {
    var k :| k in m && Sprint(k) == s && m[k] == v;
    assert NormalizesTo(m[k], w);
  }

  lemma GoodStays(s: string, v: Value)
    requires GoodOption(s, v)
    ensures NormalizesTo(v, v)
  {
  }

  lemma WonByIsNormalForm(m: map<Key, Value>, s0: string, v0: Value)
    requires !HasBadName(m) && Candidate(m, s0, v0)
    ensures NormalizesTo(AnyMap(m), StrMap(WonBy(m, s0, v0)))
  {
    var e := WonBy(m, s0, v0);
    forall s | s in e ensures exists k :: k in m && Sprint(k) == s && NormalizesTo(m[k], e[s]) {
      if s == s0 {
        CanonIsNormalForm(v0);
        CandidateWins(m, s, v0, e[s]);
      } else {
        GoodStays(s, GoodValue(m, s));
        CandidateWins(m, s, GoodValue(m, s), e[s]);
      }
    }
  }

  lemma WonByOptions(m: map<Key, Value>, s0: string, v0: Value)
    requires !HasBadName(m) && Candidate(m, s0, v0)
    ensures var r := OptionsOf(StrMap(WonBy(m, s0, v0)));
            if GoodOption(s0, v0) then r.Ok? && s0 in r.value && r.value[s0] == TextOf(v0)
            else r == Err(CriteriaContent)
  {
    var e := WonBy(m, s0, v0);
    CanonIsNormalForm(v0);
    CandidateWins(m, s0, v0, Canon(v0));
    TextsStay(s0, v0, Canon(v0));
    assert s0 in e && e[s0] == Canon(v0);
    assert forall s | s in e && s != s0 :: GoodOption(s, e[s]);
    assert AllGood(e) <==> GoodOption(s0, v0);
  }

  lemma FinishWonBy(q: Question, s0: string, v0: Value)
    requires IsChoice(q) && q.criteria.AnyMap? && !HasBadName(q.criteria.keyed) && Candidate(q.criteria.keyed, s0, v0)
    ensures var r := Finish(q, StrMap(WonBy(q.criteria.keyed, s0, v0)));
            && Outcome(q, r)
            && (if GoodOption(s0, v0) then r.Ok? && r.value.criteria.Options? && s0 in r.value.criteria.options
                                          && r.value.criteria.options[s0] == TextOf(v0)
                else r.Err?)
  {
    WonByIsNormalForm(q.criteria.keyed, s0, v0);
    OutcomeFrom(q, StrMap(WonBy(q.criteria.keyed, s0, v0)));
    WonByOptions(q.criteria.keyed, s0, v0);
  }

  /** A question that is not settled is accepted under some walk, and under another it is rejected
      or accepted with other texts. */
  lemma UnsettledHasTwo(q: Question) returns (n: Normalized, r: Result<Normalized, QuestionError>)
    requires !Settled(q)
    ensures Outcome(q, Ok(n)) && Outcome(q, r) && r != Ok(n)
  {
    var m := q.criteria.keyed;
    if s, v :| Candidate(m, s, v) && !GoodOption(s, v) {
      CandidateWins(m, s, v, Canon(v)) by { CanonIsNormalForm(v); }
      var good := GoodValue(m, s);
      FinishWonBy(q, s, good);
      FinishWonBy(q, s, v);
      n, r := Finish(q, StrMap(WonBy(m, s, good))).value, Finish(q, StrMap(WonBy(m, s, v)));
    } else {
      var s, v, v' :| Candidate(m, s, v) && Candidate(m, s, v') && TextOf(v) != TextOf(v');
      FinishWonBy(q, s, v);
      FinishWonBy(q, s, v');
      n, r := Finish(q, StrMap(WonBy(m, s, v))).value, Finish(q, StrMap(WonBy(m, s, v')));
    }
  }

  /** The outcome of a question is the same for every walk exactly when the question is settled. */
  lemma QuestionWalkIndependentExactly(q: Question)
    ensures QuestionWalkIndependent(q) <==> Settled(q)
  {
    if Settled(q) {
      forall r1, r2 | Outcome(q, r1) && Outcome(q, r2) ensures r1 == r2 {
        SettledOutcome(q, r1);
        SettledOutcome(q, r2);
      }
    } else {
      var n, r := UnsettledHasTwo(q);
    }
  }

  // ----- whole requests -----

  /** The question is rejected under every walk. */
  ghost predicate Rejected(q: Question) {
    Settled(q) && Expected(q).Err?
  }

  /** The question is beyond help: its key is blank, or it is rejected under every walk. */
  ghost predicate Hopeless(p: Payload, k: string)
    requires k in p.questions
  {
    !NonBlank(k) || Rejected(p.questions[k])
  }

  /** The walks cannot matter to the request. */
  ghost predicate RequestSettled(p: Payload) {
    || p.questions == map[]
    || (exists k :: k in p.questions && Hopeless(p, k))
    || (Agreeing(p.state) && forall k | k in p.questions :: Settled(p.questions[k]))
  }

  /** Both fail, or both succeed with the same request. Which question a failure names is left open. */
  predicate SameResult(r1: Result<Decision, DecodeError>, r2: Result<Decision, DecodeError>) {
    if r1.Err? then r2.Err? else r2 == r1
  }

  ghost predicate DecodeWalkIndependent(p: Payload) {
    forall r1, r2 | Decoded(p, r1) && Decoded(p, r2) :: SameResult(r1, r2)
  }

  /** When every question is settled, decoding succeeds, whatever the walks, exactly when there is
      a question, every key is non-blank and every question is valid; and then every question
      comes out as expected and well formed. */
  lemma DecodesExactlyWhen(p: Payload, r: Result<Decision, DecodeError>)
    requires Decoded(p, r) && forall k | k in p.questions :: Settled(p.questions[k])
    ensures r.Ok?
            <==> p.questions != map[] && forall k | k in p.questions :: NonBlank(k) && Expected(p.questions[k]).Ok?
    ensures r.Ok? ==> r.value.questions.Keys == p.questions.Keys
                      && forall k | k in p.questions :: WellFormedQuestion(r.value.questions[k])
                                                        && Ok(r.value.questions[k]) == Expected(p.questions[k])
  {
    DecodedIsAllowed(p, r);
    match r {
      case Ok(d) =>
        forall k | k in p.questions
          ensures Ok(d.questions[k]) == Expected(p.questions[k]) && WellFormedQuestion(d.questions[k])
        {
          SettledOutcome(p.questions[k], Ok(d.questions[k]));
          AcceptedIsWellFormed(p.questions[k], d.questions[k]);
        }
      case Err(BadQuestion(k, e)) => SettledOutcome(p.questions[k], Err(e));
      case Err(_) =>
    }
  }

  lemma HopelessFails(p: Payload, k: string, r: Result<Decision, DecodeError>)
    requires DecodesTo(p, r) && k in p.questions && Hopeless(p, k)
    ensures r.Err?
  {
    if r.Ok? { SettledOutcome(p.questions[k], Ok(r.value.questions[k])); }
  }

  /** The decision every walk arrives at. */
  ghost predicate IsExpected(p: Payload, d: Decision) {
    && d.name == TrimmedOr(p.name) && d.namespace == TrimmedOr(p.namespace) && d.state == Canon(p.state)
    && d.questions.Keys == p.questions.Keys
    && forall k | k in p.questions :: Ok(d.questions[k]) == Expected(p.questions[k])
  }

  lemma ExpectedIsUnique(p: Payload, d1: Decision, d2: Decision)
    requires IsExpected(p, d1) && IsExpected(p, d2)
    ensures d1 == d2
  {
    assert d1.questions == d2.questions;
  }

  lemma AllSettledDecodes(p: Payload, r: Result<Decision, DecodeError>)
    requires DecodesTo(p, r) && p.questions != map[] && Agreeing(p.state)
    requires forall k | k in p.questions :: Settled(p.questions[k]) && !Hopeless(p, k)
    ensures r.Ok? && IsExpected(p, r.value)
  {
    DecodedExactly(p, r);
    DecodesExactlyWhen(p, r);
    AgreeingIsUnique(p.state, r.value.state);
  }

  lemma SettledDecodes(p: Payload, r1: Result<Decision, DecodeError>, r2: Result<Decision, DecodeError>)
    requires RequestSettled(p) && DecodesTo(p, r1) && DecodesTo(p, r2)
    ensures SameResult(r1, r2)
  {
    if p.questions != map[] {
      if k :| k in p.questions && Hopeless(p, k) {
        HopelessFails(p, k, r1);
        HopelessFails(p, k, r2);
      } else {
        AllSettledDecodes(p, r1);
        AllSettledDecodes(p, r2);
        ExpectedIsUnique(p, r1.value, r2.value);
      }
    }
  }

  lemma SomeWalkAccepts(q: Question)
    requires !Rejected(q)
    ensures exists n :: Outcome(q, Ok(n))
  {
    if Settled(q) {
      SettledOutcome(q, Expected(q));
      assert Outcome(q, Ok(Expected(q).value));
    } else {
      var n, r := UnsettledHasTwo(q);
    }
  }

  /** A result with which the question is accepted under some walk. */
  ghost function SomeAccepted(q: Question): (n: Normalized)
    requires !Rejected(q)
    ensures Outcome(q, Ok(n))
  {
    SomeWalkAccepts(q);
    var n :| Outcome(q, Ok(n));
    n
  }

  /** Results with which all questions are accepted, the question `k0` as `n0`. */
  ghost function Accepting(qs: map<string, Question>, k0: string, n0: Normalized): (r: map<string, Normalized>)
    requires forall k | k in qs :: !Rejected(qs[k])
    ensures r.Keys == qs.Keys
  {
    map k | k in qs :: if k == k0 then n0 else SomeAccepted(qs[k])
  }

  ghost function AcceptedWith(p: Payload, state: Value, k0: string, n0: Normalized): Decision
    requires forall k | k in p.questions :: !Rejected(p.questions[k])
  {
    Decision(TrimmedOr(p.name), TrimmedOr(p.namespace), state, Accepting(p.questions, k0, n0))
  }

  lemma AcceptingDecodes(p: Payload, state: Value, k0: string, n0: Normalized)
    requires k0 in p.questions && (forall k | k in p.questions :: NonBlank(k) && !Rejected(p.questions[k]))
    requires NormalizesTo(p.state, state) && Outcome(p.questions[k0], Ok(n0))
    ensures DecodesTo(p, Ok(AcceptedWith(p, state, k0, n0)))
  {
  }

  lemma DecisionsDiffer(p: Payload, s1: Value, s2: Value, k: string, n1: Normalized, n2: Normalized)
    requires k in p.questions && (forall k | k in p.questions :: !Rejected(p.questions[k])) && (s1 != s2 || n1 != n2)
    ensures AcceptedWith(p, s1, k, n1) != AcceptedWith(p, s2, k, n2)
  {
    if n1 != n2 { assert Accepting(p.questions, k, n1)[k] != Accepting(p.questions, k, n2)[k]; }
  }

  lemma QuestionFails(p: Payload, k: string, e: QuestionError)
    requires k in p.questions && NonBlank(k) && Outcome(p.questions[k], Err(e))
    ensures DecodesTo(p, Err(BadQuestion(k, e)))
  {
  }

  lemma UnsettledQuestionDecodesTwo(p: Payload, k: string)
    returns (r1: Result<Decision, DecodeError>, r2: Result<Decision, DecodeError>)
    requires k in p.questions && !Settled(p.questions[k])
    requires forall k | k in p.questions :: NonBlank(k) && !Rejected(p.questions[k])
    ensures DecodesTo(p, r1) && DecodesTo(p, r2) && !SameResult(r1, r2)
  {
    var state := Canon(p.state);
    CanonIsNormalForm(p.state);
    var n, r := UnsettledHasTwo(p.questions[k]);
    r1 := Ok(AcceptedWith(p, state, k, n));
    assert DecodesTo(p, r1) by { AcceptingDecodes(p, state, k, n); }
    if r.Err? {
      r2 := Err(BadQuestion(k, r.error));
      assert DecodesTo(p, r2) by { QuestionFails(p, k, r.error); }
    } else {
      r2 := Ok(AcceptedWith(p, state, k, r.value));
      assert DecodesTo(p, r2) by { AcceptingDecodes(p, state, k, r.value); }
      DecisionsDiffer(p, state, state, k, n, r.value);
    }
  }

  lemma UnsettledStateDecodesTwo(p: Payload, k: string)
    returns (r1: Result<Decision, DecodeError>, r2: Result<Decision, DecodeError>)
    requires k in p.questions && !Agreeing(p.state)
    requires forall k | k in p.questions :: NonBlank(k) && !Rejected(p.questions[k])
    ensures DecodesTo(p, r1) && DecodesTo(p, r2) && !SameResult(r1, r2)
  {
    var n := SomeAccepted(p.questions[k]);
    var w1, w2 := DisagreeingHasTwo(p.state);
    r1, r2 := Ok(AcceptedWith(p, w1, k, n)), Ok(AcceptedWith(p, w2, k, n));
    assert DecodesTo(p, r1) by { AcceptingDecodes(p, w1, k, n); }
    assert DecodesTo(p, r2) by { AcceptingDecodes(p, w2, k, n); }
    DecisionsDiffer(p, w1, w2, k, n, n);
  }

  lemma UnsettledDecodesTwo(p: Payload) returns (r1: Result<Decision, DecodeError>, r2: Result<Decision, DecodeError>)
    requires !RequestSettled(p)
    ensures DecodesTo(p, r1) && DecodesTo(p, r2) && !SameResult(r1, r2)
  {
    forall k | k in p.questions ensures NonBlank(k) && !Rejected(p.questions[k]) { assert !Hopeless(p, k); }
    if k :| k in p.questions && !Settled(p.questions[k]) {
      r1, r2 := UnsettledQuestionDecodesTwo(p, k);
    } else {
      var k :| k in p.questions;
      r1, r2 := UnsettledStateDecodesTwo(p, k);
    }
  }

  /** A request decodes the same way under every walk exactly when it has no question, or one that
      is beyond help, or a walk-independent state and settled questions only. */
  lemma DecodeWalkIndependentExactly(p: Payload)
    ensures DecodeWalkIndependent(p) <==> RequestSettled(p)
  {
    if RequestSettled(p) {
      forall r1, r2 | Decoded(p, r1) && Decoded(p, r2) ensures SameResult(r1, r2) {
        DecodedIsAllowed(p, r1);
        DecodedIsAllowed(p, r2);
        SettledDecodes(p, r1, r2);
      }
    } else {
      var r1, r2 := UnsettledDecodesTwo(p);
      DecodedExactly(p, r1);
      DecodedExactly(p, r2);
    }
  }

  /** In particular, a request in which no two keys of any map print alike decodes the same way
      under every walk. */
  lemma ApartRequestIsSettled(p: Payload)
    requires PrintsApartDeep(p.state) && forall k | k in p.questions :: PrintsApartDeep(p.questions[k].criteria)
    ensures RequestSettled(p) && DecodeWalkIndependent(p)
  {
    ApartIsAgreeing(p.state);
    forall k | k in p.questions ensures Settled(p.questions[k]) {
      ApartIsAgreeing(p.questions[k].criteria);
      AgreeingIsSettled(p.questions[k]);
    }
    DecodeWalkIndependentExactly(p);
  }

  lemma AgreeingIsSettled(q: Question)
    requires Agreeing(q.criteria)
    ensures Settled(q)
  {
    forall r1, r2 | Outcome(q, r1) && Outcome(q, r2) ensures r1 == r2 {
      var c1 := FormOf(q, r1);
      var c2 := FormOf(q, r2);
      AgreeingIsUnique(q.criteria, c1);
      AgreeingIsUnique(q.criteria, c2);
    }
    QuestionWalkIndependentExactly(q);
  }

  // ----- an example -----

  /** The two walks of a map whose two keys print alike, carrying a text and nothing. */
  lemma CollidingWalks(k: Key, k': Key, text: string)
    requires k != k' && Sprint(k) == Sprint(k')
    ensures var m := map[k := Str(text), k' := Null]; var s := Sprint(k);
            && IsWalk([k', k], m.Keys) && Assign([k', k], m) == map[s := Str(text)]
            && IsWalk([k, k'], m.Keys) && Assign([k, k'], m) == map[s := Null]
  {
    var m: map<Key, Value> := map[k := Str(text), k' := Null];
    AssignTwo(k', k, m);
    AssignTwo(k, k', m);
  }

  lemma AssignTwo(a: Key, b: Key, m: map<Key, Value>)
    requires a != b && Sprint(a) == Sprint(b) && a in m && b in m
    ensures Assign([a, b], m) == map[Sprint(b) := m[b]]
  {
    assert [a, b][..1] == [a] && [a][..0] == [];
    assert Assign([a], m) == map[Sprint(a) := m[a]];
  }

  lemma FlatIsWalked(m: map<Key, Value>, walk: seq<Key>)
    requires IsWalk(walk, m.Keys) && forall k | k in m :: m[k].Str? || m[k].Null?
    ensures Walked(AnyMap(m), StrMap(Assign(walk, m)))
  {
    assert forall k | k in m :: Walked(m[k], m[k]);
  }

  /** Without that condition the walk decides: a choice question with two option keys that print
      alike, one with a text and one without, is accepted when the one with the text is walked last,
      and rejected when it is walked first. */
  lemma CollidingOptionsUndecided(k: Key, k': Key, text: string, instructions: string) returns (n: Normalized)
    requires k != k' && Sprint(k) == Sprint(k') && NonBlank(Sprint(k)) && NonBlank(text) && NonBlank(instructions)
    ensures var m := map[k := Str(text), k' := Null]; var q := Question("choice", instructions, AnyMap(m));
            && IsWalk([k', k], m.Keys) && IsWalk([k, k'], m.Keys)
            && Finish(q, StrMap(Assign([k', k], m))) == Ok(n)
            && Finish(q, StrMap(Assign([k, k'], m))) == Err(CriteriaContent)
            && Outcome(q, Ok(n)) && Outcome(q, Err(CriteriaContent)) && !Agreeing(q.criteria)
  {
    var m: map<Key, Value> := map[k := Str(text), k' := Null];
    var q := Question("choice", instructions, AnyMap(m));
    var s := Sprint(k);
    CollidingWalks(k, k', text);
    FlatIsWalked(m, [k', k]);
    FlatIsWalked(m, [k, k']);
    WalkIndependentExactly(AnyMap(m));
    assert map[s := Str(text)][s] != map[s := Null][s];
    FinishChoice(instructions, AnyMap(m), StrMap(map[s := Str(text)]));
    FinishChoice(instructions, AnyMap(m), StrMap(map[s := Null]));
    SingleOption(s, Str(text));
    SingleOption(s, Null);
    n := Finish(q, StrMap(Assign([k', k], m))).value;
  }

  lemma FinishChoice(instructions: string, v: Value, c: Value)
    requires NonBlank(instructions)
    ensures Finish(Question("choice", instructions, v), c) ==
            match OptionsOf(c)
            case Ok(m) => Ok(Normalized("choice", TrimSpace(instructions), Options(m)))
            case Err(e) => Err(e)
  {
    KindIsFixed("choice");
  }

  lemma SingleOption(s: string, raw: Value)
    ensures OptionsOf(StrMap(map[s := raw])) ==
            if GoodOption(s, raw) then Ok(map[s := TrimSpace(raw.s)]) else Err(CriteriaContent)
  {
    var c := StrMap(map[s := raw]);
    assert s in c.entries && c.entries[s] == raw;
    if GoodOption(s, raw) {
      assert TextsOf(c.entries) == map[s := TrimSpace(raw.s)];
    }
  }

  /** Such keys exist: the number 1 and the string "1". */
  lemma NumberAndStringCollide()
    ensures KInt(1) != KString("1") && Sprint(KInt(1)) == Sprint(KString("1"))
  {
    assert Digits(1) == "1";
  }
}
