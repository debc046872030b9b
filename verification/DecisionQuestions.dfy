/** Decoding a decision request: every question is validated and normalised by its type, walking
    the maps of questions and options in arbitrary order. */
module DecisionQuestions {
  import opened GoStrings
  import opened Values
  import opened DecisionValues

  /** A question as decoded from YAML. */
  datatype Question = Question(kind: string, instructions: string, criteria: Value)

  datatype Criteria = NoCriteria | Options(options: map<string, string>) | Labels(labels: seq<string>)

  datatype Normalized = Normalized(kind: string, instructions: string, criteria: Criteria)

  datatype QuestionError = NoType | NoInstructions | CriteriaShape | CriteriaContent | UnknownType

  predicate NonBlank(s: string) { TrimSpace(s) != "" }

  predicate GoodOption(option: string, raw: Value) {
    raw.Str? && NonBlank(option) && NonBlank(raw.s)
  }

  predicate GoodLabel(raw: Value) {
    raw.Str? && NonBlank(raw.s)
  }

  function TextOf(raw: Value): string {
    if raw.Str? then TrimSpace(raw.s) else ""
  }

  function TextsOf(entries: map<string, Value>): map<string, string> {
    map o | o in entries :: TextOf(entries[o])
  }

  predicate AllGood(entries: map<string, Value>) {
    forall o | o in entries :: GoodOption(o, entries[o])
  }

  function OptionsOf(c: Value): Result<map<string, string>, QuestionError> {
    if !c.StrMap? || c.entries == map[] then Err(CriteriaShape)
    else if !AllGood(c.entries) then Err(CriteriaContent)
    else Ok(TextsOf(c.entries))
  }

  function LabelsOf(c: Value): Result<seq<string>, QuestionError> {
    if !c.List? || c.items == [] then Err(CriteriaShape)
    else if exists i | 0 <= i < |c.items| :: !GoodLabel(c.items[i]) then Err(CriteriaContent)
    else Ok(seq(|c.items|, i requires 0 <= i < |c.items| => TextOf(c.items[i])))
  }

  /** The criteria of a question of the given type, from the normalised criteria `c`. */
  function CriteriaOf(kind: string, c: Value): Result<Criteria, QuestionError> {
    if kind == "choice" then
      match OptionsOf(c) case Ok(m) => Ok(Options(m)) case Err(e) => Err(e)
    else if kind == "score" then
      match LabelsOf(c) case Ok(s) => Ok(Labels(s)) case Err(e) => Err(e)
    else if kind == "noul" then Ok(NoCriteria)
    else Err(UnknownType)
  }

  /** The normalised question, given the normalised criteria `c`. */
  function Finish(q: Question, c: Value): Result<Normalized, QuestionError> {
    var kind, instructions := ToLower(TrimSpace(q.kind)), TrimSpace(q.instructions);
    if kind == "" then Err(NoType)
    else if instructions == "" then Err(NoInstructions)
    else match CriteriaOf(kind, c)
      case Err(e) => Err(e)
      case Ok(criteria) => Ok(Normalized(kind, instructions, criteria))
  }

  /** `r` is a possible result for the question, under some walk of its criteria. */
  ghost predicate Outcome(q: Question, r: Result<Normalized, QuestionError>) {
    exists c :: Walked(q.criteria, c) && r == Finish(q, c)
  }

  lemma OutcomeFrom(q: Question, c: Value)
    requires NormalizesTo(q.criteria, c)
    ensures Outcome(q, Finish(q, c))
  {
    NormalFormIsWalked(q.criteria, c);
  }

  lemma FormOf(q: Question, r: Result<Normalized, QuestionError>) returns (c: Value)
    requires Outcome(q, r)
    ensures NormalizesTo(q.criteria, c) && r == Finish(q, c)
  {
    c :| Walked(q.criteria, c) && r == Finish(q, c);
    WalkedNormalizes(q.criteria, c);
  }

  method NormalizeOptions(c: Value) returns (r: Result<map<string, string>, QuestionError>)
    ensures r == OptionsOf(c)
  {
    if !c.StrMap? || c.entries == map[] { return Err(CriteriaShape); }
    var normalized: map<string, string> := map[];
    var todo := c.entries.Keys;
    while todo != {}
      invariant todo <= c.entries.Keys && normalized.Keys == c.entries.Keys - todo
      invariant forall o | o in normalized :: GoodOption(o, c.entries[o]) && normalized[o] == TextOf(c.entries[o])
      decreases todo
    {
      var option :| option in todo;
      var raw := c.entries[option];
      if !raw.Str? || TrimSpace(option) == "" || TrimSpace(raw.s) == "" {
        assert !GoodOption(option, c.entries[option]);
        return Err(CriteriaContent);
      }
      normalized := normalized[option := TrimSpace(raw.s)];
      todo := todo - {option};
    }
    assert normalized == TextsOf(c.entries);
    return Ok(normalized);
  }

  method NormalizeLabels(c: Value) returns (r: Result<seq<string>, QuestionError>)
    ensures r == LabelsOf(c)
  {
    if !c.List? || c.items == [] { return Err(CriteriaShape); }
    var normalized: seq<string> := [];
    for i := 0 to |c.items|
      invariant |normalized| == i
      invariant forall j | 0 <= j < i :: GoodLabel(c.items[j]) && normalized[j] == TextOf(c.items[j])
    {
      var raw := c.items[i];
      if !raw.Str? || TrimSpace(raw.s) == "" {
        assert !GoodLabel(c.items[i]);
        return Err(CriteriaContent);
      }
      normalized := normalized + [TrimSpace(raw.s)];
    }
    assert normalized == seq(|c.items|, i requires 0 <= i < |c.items| => TextOf(c.items[i]));
    return Ok(normalized);
  }

  method NormalizeQuestion(question: Question) returns (r: Result<Normalized, QuestionError>)
    ensures Outcome(question, r)
  {
    CanonIsWalked(question.criteria);
    ghost var c := Canon(question.criteria);
    var kind, instructions := ToLower(TrimSpace(question.kind)), TrimSpace(question.instructions);
    if kind == "" {
      r := Err(NoType);
    } else if instructions == "" {
      r := Err(NoInstructions);
    } else if kind == "choice" {
      var criteria := NormalizeValue(question.criteria);
      c := criteria;
      var options := NormalizeOptions(criteria);
      r := match options case Ok(m) => Ok(Normalized(kind, instructions, Options(m))) case Err(e) => Err(e);
    } else if kind == "score" {
      var criteria := NormalizeValue(question.criteria);
      c := criteria;
      var labels := NormalizeLabels(criteria);
      r := match labels case Ok(s) => Ok(Normalized(kind, instructions, Labels(s))) case Err(e) => Err(e);
    } else if kind == "noul" {
      r := Ok(Normalized(kind, instructions, NoCriteria));
    } else {
      r := Err(UnknownType);
    }
    assert Walked(question.criteria, c) && r == Finish(question, c);
  }

  // ----- accepted questions are well formed, and normalising them again changes nothing -----

  predicate Clean(s: string) {
    s != "" && TrimSpace(s) == s
  }

  predicate WellFormedQuestion(n: Normalized) {
    && Clean(n.instructions)
    && match n.criteria
       case Options(m) => n.kind == "choice" && m != map[] && forall o | o in m :: NonBlank(o) && Clean(m[o])
       case Labels(s) => n.kind == "score" && s != [] && forall i | 0 <= i < |s| :: Clean(s[i])
       case NoCriteria => n.kind == "noul"
  }

  /** A question is valid exactly when it has instructions and, by type, a non-empty map of options
      with non-blank names and texts, a non-empty list of non-blank texts, or anything at all. */
  lemma ValidExactlyWhen(q: Question, c: Value)
    ensures Finish(q, c).Ok? <==>
            && NonBlank(q.instructions)
            && var kind := ToLower(TrimSpace(q.kind));
               || (kind == "choice" && c.StrMap? && c.entries != map[]
                   && forall o | o in c.entries :: c.entries[o].Str? && NonBlank(o) && NonBlank(c.entries[o].s))
               || (kind == "score" && c.List? && c.items != []
                   && forall i | 0 <= i < |c.items| :: GoodLabel(c.items[i]))
               || kind == "noul"
  {
  }

  /** Why a question is refused: for want of a type, of instructions, of a known type, or of criteria
      of the right shape or content, in this order. */
  lemma RefusedExactly(q: Question, c: Value)
    ensures var kind, r := ToLower(TrimSpace(q.kind)), Finish(q, c);
            var asked := NonBlank(q.kind) && NonBlank(q.instructions);
            var options := c.StrMap? && c.entries != map[];
            var labels := c.List? && c.items != [];
            && (r == Err(NoType) <==> !NonBlank(q.kind))
            && (r == Err(NoInstructions) <==> NonBlank(q.kind) && !NonBlank(q.instructions))
            && (r == Err(UnknownType) <==> asked && kind !in {"choice", "score", "noul"})
            && (r == Err(CriteriaShape)
                <==> asked && ((kind == "choice" && !options) || (kind == "score" && !labels)))
            && (r == Err(CriteriaContent)
                <==> || (asked && kind == "choice" && options
                         && exists o :: o in c.entries && !GoodOption(o, c.entries[o]))
                     || (asked && kind == "score" && labels
                         && exists i :: 0 <= i < |c.items| && !GoodLabel(c.items[i])))
  {
    assert ToLower(TrimSpace(q.kind)) == "" <==> TrimSpace(q.kind) == "";
  }

  /** The text is what is left of a string under a key that prints the name. */
  ghost predicate TextUnder(criteria: Value, name: string, text: string) {
    match criteria
    case AnyMap(m) => exists k :: k in m && Sprint(k) == name && m[k].Str? && Remains(m[k].s, text, IsSpace)
    case StrMap(m) => name in m && m[name].Str? && Remains(m[name].s, text, IsSpace)
    case _ => false
  }

  /** What an accepted question says is what was asked: its type up to case and blanks, its trimmed
      instructions, and for a choice exactly the options given, each with a trimmed text given
      under its name. */
  lemma AcceptedSaysWhatWasAsked(q: Question, n: Normalized)
    requires Outcome(q, Ok(n))
    ensures Remains(q.instructions, n.instructions, IsSpace)
    ensures n.kind == ToLower(TrimSpace(q.kind)) && n.kind in {"choice", "score", "noul"}
    ensures n.kind == "choice" ==>
              && n.criteria.Options?
              && (q.criteria.AnyMap? ==> n.criteria.options.Keys == PrintedKeys(q.criteria.keyed))
              && (q.criteria.StrMap? ==> n.criteria.options.Keys == q.criteria.entries.Keys)
              && forall o | o in n.criteria.options :: TextUnder(q.criteria, o, n.criteria.options[o])
  {
    var c := FormOf(q, Ok(n));
    TrimExactly(q.instructions, IsSpace, n.instructions);
    if n.kind == "choice" { OptionsAreGiven(q.criteria, c, n.criteria.options); }
  }

  lemma OptionsAreGiven(v: Value, c: Value, options: map<string, string>)
    requires NormalizesTo(v, c) && OptionsOf(c) == Ok(options)
    ensures v.AnyMap? ==> options.Keys == PrintedKeys(v.keyed)
    ensures v.StrMap? ==> options.Keys == v.entries.Keys
    ensures forall o | o in options :: TextUnder(v, o, options[o])
  {
    assert options.Keys == c.entries.Keys;
    forall o | o in options ensures TextUnder(v, o, options[o]) {
      assert GoodOption(o, c.entries[o]);
      OptionIsGiven(v, c, o);
    }
  }

  lemma OptionIsGiven(v: Value, c: Value, o: string)
    requires NormalizesTo(v, c) && c.StrMap? && o in c.entries && GoodOption(o, c.entries[o])
    ensures TextUnder(v, o, TextOf(c.entries[o]))
  {
    var raw := c.entries[o].s;
    TrimExactly(raw, IsSpace, TrimSpace(raw));
    match v {
      case AnyMap(m) =>
        var k :| k in m && Sprint(k) == o && NormalizesTo(m[k], c.entries[o]);
        assert m[k] == c.entries[o];
      case StrMap(m) => assert NormalizesTo(m[o], c.entries[o]);
    }
  }

  lemma TrimmedIsClean(s: string)
    ensures NonBlank(s) ==> Clean(TrimSpace(s))
  {
    TrimSpaceIdempotent(s);
  }

  lemma AcceptedIsWellFormed(q: Question, n: Normalized)
    requires Outcome(q, Ok(n))
    ensures WellFormedQuestion(n)
  {
    var c := FormOf(q, Ok(n));
    TrimmedIsClean(q.instructions);
    match n.criteria {
      case Options(m) => forall o | o in m ensures NonBlank(o) && Clean(m[o]) { TrimmedIsClean(c.entries[o].s); }
      case Labels(s) => forall i | 0 <= i < |s| ensures Clean(s[i]) { TrimmedIsClean(c.items[i].s); }
      case NoCriteria =>
    }
  }

  /** A normalised question as a decoder would present it again, with string-keyed maps or with
      maps with keys of any type. */
  function Embed(n: Normalized, anyKeys: bool): Question {
    Question(n.kind, n.instructions,
      match n.criteria
      case NoCriteria => Null
      case Labels(s) => List(seq(|s|, i requires 0 <= i < |s| => Str(s[i])))
      case Options(m) =>
        if anyKeys then AnyMap(Keyed(m))
        else StrMap(AsValues(m)))
  }

  lemma EmbeddedCriteria(n: Normalized, anyKeys: bool, c: Value)
    ensures NormalizesTo(Embed(n, anyKeys).criteria, c) ==> c == Embed(n, false).criteria
  {
    var v := Embed(n, anyKeys).criteria;
    if NormalizesTo(v, c) {
      if n.criteria.Options? && anyKeys {
        KeyedOptions(n.criteria.options, c);
      } else {
        NormalIsFixed(v, c);
      }
    }
  }

  function Keyed(m: map<string, string>): map<Key, Value> {
    map k: Key | k in (set o | o in m :: KString(o)) :: Str(m[k.text])
  }

  lemma KeyedOption(m: map<string, string>, c: Value, o: string)
    requires NormalizesTo(AnyMap(Keyed(m)), c)
    ensures o in c.entries <==> o in m
    ensures o in m ==> c.entries[o] == Str(m[o])
  {
    var keyed := Keyed(m);
    if o in m { assert KString(o) in keyed && Sprint(KString(o)) == o; }
    if o in c.entries {
      var k :| k in keyed && Sprint(k) == o && NormalizesTo(keyed[k], c.entries[o]);
      assert k == KString(o);
    }
  }

  lemma SameEntries(e: map<string, Value>, m: map<string, string>)
    requires forall o :: (o in e <==> o in m) && (o in m ==> e[o] == Str(m[o]))
    ensures e == AsValues(m)
  {
    assert e.Keys == m.Keys;
  }

  lemma KeyedOptions(m: map<string, string>, c: Value)
    requires NormalizesTo(AnyMap(Keyed(m)), c)
    ensures c == StrMap(AsValues(m))
  {
    forall o ensures (o in c.entries <==> o in m) && (o in m ==> c.entries[o] == Str(m[o])) {
      KeyedOption(m, c, o);
    }
    SameEntries(c.entries, m);
  }

  lemma KindIsFixed(kind: string)
    requires kind in {"choice", "score", "noul"}
    ensures ToLower(TrimSpace(kind)) == kind
  {
    TrimIsTrimmed(kind, IsSpace);
    assert forall i | 0 <= i < |kind| :: LowerChar(kind[i]) == kind[i];
  }

  function AsValues(m: map<string, string>): map<string, Value> {
    map o | o in m :: Str(m[o])
  }

  lemma TextsAreFixed(m: map<string, string>)
    requires forall o | o in m :: Clean(m[o])
    ensures TextsOf(AsValues(m)) == m
  {
    forall o | o in m ensures TextsOf(AsValues(m))[o] == m[o] {
      assert Clean(m[o]);
    }
  }

  lemma ValuesAreGood(m: map<string, string>)
    requires forall o | o in m :: NonBlank(o) && Clean(m[o])
    ensures AllGood(AsValues(m))
  {
    forall o | o in m ensures GoodOption(o, AsValues(m)[o]) {
      assert NonBlank(o) && Clean(m[o]);
    }
  }

  lemma OptionsAreFixed(m: map<string, string>)
    requires m != map[] && forall o | o in m :: NonBlank(o) && Clean(m[o])
    ensures OptionsOf(StrMap(AsValues(m))) == Ok(m)
  {
    TextsAreFixed(m);
    ValuesAreGood(m);
    assert AsValues(m).Keys == m.Keys;
  }

  lemma LabelsAreFixed(s: seq<string>)
    requires s != [] && forall i | 0 <= i < |s| :: Clean(s[i])
    ensures LabelsOf(List(seq(|s|, i requires 0 <= i < |s| => Str(s[i])))) == Ok(s)
  {
    var c := List(seq(|s|, i requires 0 <= i < |s| => Str(s[i])));
    assert |c.items| == |s| && forall i | 0 <= i < |s| :: c.items[i] == Str(s[i]);
    assert forall i | 0 <= i < |s| :: GoodLabel(c.items[i]);
    assert seq(|c.items|, i requires 0 <= i < |c.items| => TextOf(c.items[i])) == s;
  }

  lemma FinishEmbedded(n: Normalized)
    requires WellFormedQuestion(n)
    ensures Finish(Embed(n, false), Embed(n, false).criteria) == Ok(n)
  {
    KindIsFixed(n.kind);
    match n.criteria {
      case NoCriteria =>
      case Options(m) => OptionsAreFixed(m);
      case Labels(s) => LabelsAreFixed(s);
    }
  }

  /** Normalising is a fixed point through re-encoding: for every well-formed question, in either
      encoding and under any walk, normalising it again gives the same question and nothing else. */
  lemma ReencodedIsFixed(n: Normalized, anyKeys: bool, r: Result<Normalized, QuestionError>)
    requires WellFormedQuestion(n)
    ensures Outcome(Embed(n, anyKeys), r) <==> r == Ok(n)
  {
    var q := Embed(n, anyKeys);
    FinishEmbedded(n);
    CanonIsNormalForm(q.criteria);
    EmbeddedCriteria(n, anyKeys, Canon(q.criteria));
    OutcomeFrom(q, Canon(q.criteria));
    if Outcome(q, r) {
      var c := FormOf(q, r);
      EmbeddedCriteria(n, anyKeys, c);
    }
  }

  /** Every accepted question, re-encoded, is accepted as itself. */
  lemma AcceptedIsFixed(q: Question, n: Normalized, anyKeys: bool, r: Result<Normalized, QuestionError>)
    requires Outcome(q, Ok(n))
    ensures Outcome(Embed(n, anyKeys), r) <==> r == Ok(n)
  {
    AcceptedIsWellFormed(q, n);
    ReencodedIsFixed(n, anyKeys, r);
  }

  /** Score criteria keep their number and order. */
  lemma ScoreKeepsOrder(q: Question, n: Normalized)
    requires Outcome(q, Ok(n)) && n.kind == "score"
    ensures q.criteria.List? && n.criteria.Labels? && |n.criteria.labels| == |q.criteria.items|
    ensures forall i | 0 <= i < |q.criteria.items| ::
              q.criteria.items[i].Str? && n.criteria.labels[i] == TrimSpace(q.criteria.items[i].s)
  {
    var c := FormOf(q, Ok(n));
    forall i | 0 <= i < |c.items| ensures q.criteria.items[i] == c.items[i] {
      assert GoodLabel(c.items[i]);
      assert NormalizesTo(q.criteria.items[i], c.items[i]);
    }
  }

  // ----- whole requests -----

  /** A request as decoded from YAML; metadata fields are absent when missing or not strings. */
  datatype Payload = Payload(name: Option<string>, namespace: Option<string>, state: Value,
                             questions: map<string, Question>)

  datatype Decision = Decision(name: string, namespace: string, state: Value, questions: map<string, Normalized>)

  datatype DecodeError = NoQuestions | BlankKey | BadQuestion(key: string, error: QuestionError)

  function TrimmedOr(s: Option<string>): string {
    match s case None => "" case Some(text) => TrimSpace(text)
  }

  /** The loop over the questions in the order of a walk, where each question comes out as given. */
  function DecodeAlong(walk: seq<string>, outcomes: map<string, Result<Normalized, QuestionError>>)
    : Result<map<string, Normalized>, DecodeError>
    requires forall k | k in walk :: k in outcomes
  {
    if walk == [] then Ok(map[])
    else
      var key := walk[|walk| - 1];
      match DecodeAlong(walk[..|walk| - 1], outcomes)
      case Err(e) => Err(e)
      case Ok(done) =>
        if !NonBlank(key) then Err(BlankKey)
        else match outcomes[key]
          case Err(e) => Err(BadQuestion(key, e))
          case Ok(n) => Ok(done[key := n])
  }

  function Completed(p: Payload, state: Value, r: Result<map<string, Normalized>, DecodeError>)
    : Result<Decision, DecodeError>
  {
    match r
    case Err(e) => Err(e)
    case Ok(questions) => Ok(Decision(TrimmedOr(p.name), TrimmedOr(p.namespace), state, questions))
  }

  ghost predicate OutcomesFor(p: Payload, outcomes: map<string, Result<Normalized, QuestionError>>) {
    outcomes.Keys == p.questions.Keys && forall k | k in p.questions :: Outcome(p.questions[k], outcomes[k])
  }

  ghost predicate DecodedBy(p: Payload, walk: seq<string>, outcomes: map<string, Result<Normalized, QuestionError>>,
                            state: Value, r: Result<Decision, DecodeError>)
  {
    && IsWalk(walk, p.questions.Keys) && OutcomesFor(p, outcomes) && Walked(p.state, state)
    && r == Completed(p, state, DecodeAlong(walk, outcomes))
  }

  /** `r` is what decoding arrives at when the questions are walked in some order, and the state and
      every question along some walks of their own. */
  ghost predicate Decoded(p: Payload, r: Result<Decision, DecodeError>) {
    if p.questions == map[] then r == Err(NoQuestions)
    else exists walk, outcomes, state :: DecodedBy(p, walk, outcomes, state, r)
  }

  /** The same without walks: the accepted request, or the error of some offending question. */
  ghost predicate DecodesTo(p: Payload, r: Result<Decision, DecodeError>) {
    match r
    case Ok(d) =>
      && p.questions != map[] && d.name == TrimmedOr(p.name) && d.namespace == TrimmedOr(p.namespace)
      && NormalizesTo(p.state, d.state) && d.questions.Keys == p.questions.Keys
      && forall k | k in p.questions :: NonBlank(k) && Outcome(p.questions[k], Ok(d.questions[k]))
    case Err(NoQuestions) => p.questions == map[]
    case Err(BlankKey) => exists k :: k in p.questions && !NonBlank(k)
    case Err(BadQuestion(k, e)) => k in p.questions && NonBlank(k) && Outcome(p.questions[k], Err(e))
  }

  /** What a walk has found: all questions accepted, or one it visited that offends. */
  ghost predicate Finding(walk: seq<string>, outcomes: map<string, Result<Normalized, QuestionError>>,
                          r: Result<map<string, Normalized>, DecodeError>)
    requires forall k | k in walk :: k in outcomes
  {
    match r
    case Ok(done) =>
      (forall k :: k in done <==> k in walk) && forall k | k in done :: NonBlank(k) && outcomes[k] == Ok(done[k])
    case Err(NoQuestions) => false
    case Err(BlankKey) => exists k :: k in walk && !NonBlank(k)
    case Err(BadQuestion(k, e)) => k in walk && NonBlank(k) && outcomes[k] == Err(e)
  }

  lemma {:induction false} DecodeAlongSound(walk: seq<string>, outcomes: map<string, Result<Normalized, QuestionError>>)
    requires forall k | k in walk :: k in outcomes
    ensures Finding(walk, outcomes, DecodeAlong(walk, outcomes))
  {
    if walk != [] {
      var n := |walk| - 1;
      DecodeAlongSound(walk[..n], outcomes);
      assert forall k :: k in walk <==> k in walk[..n] || k == walk[n];
      FindingNext(walk[..n], walk[n], outcomes, DecodeAlong(walk[..n], outcomes));
      assert walk == walk[..n] + [walk[n]];
    }
  }

  lemma FindingNext(walk: seq<string>, key: string, outcomes: map<string, Result<Normalized, QuestionError>>,
                    r: Result<map<string, Normalized>, DecodeError>)
    requires (forall k | k in walk :: k in outcomes) && key in outcomes && Finding(walk, outcomes, r)
    ensures r.Err? ==> Finding(walk + [key], outcomes, r)
    ensures r.Ok? && !NonBlank(key) ==> Finding(walk + [key], outcomes, Err(BlankKey))
    ensures r.Ok? && NonBlank(key) ==>
              Finding(walk + [key], outcomes, match outcomes[key]
                                              case Err(e) => Err(BadQuestion(key, e))
                                              case Ok(n) => Ok(r.value[key := n]))
  {
    assert key in walk + [key];
  }

  lemma AcceptedAlongWalk(p: Payload, walk: seq<string>, outcomes: map<string, Result<Normalized, QuestionError>>,
                          state: Value, d: Decision)
    requires p.questions != map[] && DecodedBy(p, walk, outcomes, state, Ok(d))
    ensures DecodesTo(p, Ok(d))
  {
    DecodeAlongSound(walk, outcomes);
    WalkedNormalizes(p.state, state);
    KeysAlongWalk(walk, p.questions, d.questions);
    forall k | k in p.questions ensures NonBlank(k) && Outcome(p.questions[k], Ok(d.questions[k])) {
      assert outcomes[k] == Ok(d.questions[k]);
    }
  }

  lemma KeysAlongWalk(walk: seq<string>, qs: map<string, Question>, done: map<string, Normalized>)
    requires IsWalk(walk, qs.Keys) && forall k :: k in done <==> k in walk
    ensures done.Keys == qs.Keys
  {
  }

  lemma RefusedAlongWalk(p: Payload, walk: seq<string>, outcomes: map<string, Result<Normalized, QuestionError>>,
                         state: Value, e: DecodeError)
    requires DecodedBy(p, walk, outcomes, state, Err(e))
    ensures DecodesTo(p, Err(e))
  {
    DecodeAlongSound(walk, outcomes);
    if e.BadQuestion? { assert outcomes[e.key] == Err(e.error); }
  }

  lemma DecodedIsAllowed(p: Payload, r: Result<Decision, DecodeError>)
    requires Decoded(p, r)
    ensures DecodesTo(p, r)
  {
    if p.questions != map[] {
      var walk, outcomes, state :| DecodedBy(p, walk, outcomes, state, r);
      match r {
        case Ok(d) => AcceptedAlongWalk(p, walk, outcomes, state, d);
        case Err(e) => RefusedAlongWalk(p, walk, outcomes, state, e);
      }
    }
  }

  /** Whatever comes after a prefix that fails, the failure stays. */
  lemma {:induction false} FailureStays(walk: seq<string>, later: seq<string>,
                                        outcomes: map<string, Result<Normalized, QuestionError>>)
    requires forall k | k in walk + later :: k in outcomes
    requires DecodeAlong(walk, outcomes).Err?
    ensures DecodeAlong(walk + later, outcomes) == DecodeAlong(walk, outcomes)
  {
    if later == [] {
      assert walk + later == walk;
    } else {
      var n := |later| - 1;
      assert forall k | k in walk + later[..n] :: k in walk + later;
      FailureStays(walk, later[..n], outcomes);
      assert (walk + later)[..|walk + later| - 1] == walk + later[..n];
    }
  }

  /** One result that every question can have. */
  ghost function SomeOutcomes(p: Payload): (outcomes: map<string, Result<Normalized, QuestionError>>)
    ensures outcomes.Keys == p.questions.Keys
  {
    map k | k in p.questions :: Finish(p.questions[k], Canon(p.questions[k].criteria))
  }

  lemma SomeOutcomesAre(p: Payload)
    ensures OutcomesFor(p, SomeOutcomes(p))
  {
    forall k | k in p.questions ensures Outcome(p.questions[k], SomeOutcomes(p)[k]) {
      CanonIsNormalForm(p.questions[k].criteria);
      OutcomeFrom(p.questions[k], Canon(p.questions[k].criteria));
    }
  }

  /** An offending question that is walked first decides the result. */
  lemma FirstDecides(p: Payload, key: string, outcomes: map<string, Result<Normalized, QuestionError>>)
    requires key in p.questions && OutcomesFor(p, outcomes)
    requires !NonBlank(key) || outcomes[key].Err?
    ensures Decoded(p, Err(if !NonBlank(key) then BlankKey else BadQuestion(key, outcomes[key].error)))
  {
    var rest, walk := WalkFrom(p.questions.Keys, key);
    FirstFails(key, rest, outcomes);
    var state := Canon(p.state);
    CanonIsWalked(p.state);
    assert DecodedBy(p, walk, outcomes, state, Completed(p, state, DecodeAlong(walk, outcomes)));
  }

  lemma WalkFrom(keys: set<string>, key: string) returns (rest: seq<string>, walk: seq<string>)
    requires key in keys
    ensures walk == [key] + rest && IsWalk(walk, keys)
  {
    rest := WalkOf(keys - {key});
    walk := [key] + rest;
    WalksJoin([key], {key}, rest, keys - {key});
    assert {key} + (keys - {key}) == keys;
  }

  lemma FirstFails(key: string, rest: seq<string>, outcomes: map<string, Result<Normalized, QuestionError>>)
    requires forall k | k in [key] + rest :: k in outcomes
    requires key in outcomes && (!NonBlank(key) || outcomes[key].Err?)
    ensures DecodeAlong([key] + rest, outcomes)
            == Err(if !NonBlank(key) then BlankKey else BadQuestion(key, outcomes[key].error))
  {
    assert [key][..0] == [];
    FailureStays([key], rest, outcomes);
  }

  lemma {:induction false} AllGoodAlong(walk: seq<string>, outcomes: map<string, Result<Normalized, QuestionError>>)
    requires forall k | k in walk :: k in outcomes && NonBlank(k) && outcomes[k].Ok?
    ensures DecodeAlong(walk, outcomes).Ok?
  {
    if walk != [] {
      AllGoodAlong(walk[..|walk| - 1], outcomes);
      assert walk[|walk| - 1] in walk;
    }
  }

  function AcceptedAs(questions: map<string, Normalized>): map<string, Result<Normalized, QuestionError>> {
    map k | k in questions :: Ok(questions[k])
  }

  lemma AcceptedAsAlong(walk: seq<string>, questions: map<string, Normalized>)
    requires IsWalk(walk, questions.Keys) && forall k | k in questions :: NonBlank(k)
    ensures DecodeAlong(walk, AcceptedAs(questions)) == Ok(questions)
  {
    AllGoodAlong(walk, AcceptedAs(questions));
    DecodeAlongSound(walk, AcceptedAs(questions));
    SameQuestions(DecodeAlong(walk, AcceptedAs(questions)).value, questions);
  }

  lemma SameQuestions(a: map<string, Normalized>, b: map<string, Normalized>)
    requires (forall k :: k in a <==> k in b) && forall k | k in a :: AcceptedAs(b)[k] == Ok(a[k])
    ensures a == b
  {
  }

  lemma AcceptedAsFor(p: Payload, questions: map<string, Normalized>)
    requires questions.Keys == p.questions.Keys
    requires forall k | k in p.questions :: Outcome(p.questions[k], Ok(questions[k]))
    ensures OutcomesFor(p, AcceptedAs(questions))
  {
    assert AcceptedAs(questions).Keys == questions.Keys;
  }

  lemma AcceptedIsDecoded(p: Payload, d: Decision)
    requires DecodesTo(p, Ok(d))
    ensures Decoded(p, Ok(d))
  {
    var outcomes := AcceptedAs(d.questions);
    var walk := WalkOf(p.questions.Keys);
    AcceptedAsAlong(walk, d.questions);
    NormalFormIsWalked(p.state, d.state);
    AcceptedAsFor(p, d.questions);
    assert DecodedBy(p, walk, outcomes, d.state, Ok(d));
  }

  /** The results of all walks are exactly the accepted requests and the errors of offending
      questions. */
  lemma DecodedExactly(p: Payload, r: Result<Decision, DecodeError>)
    ensures Decoded(p, r) <==> DecodesTo(p, r)
  {
    if Decoded(p, r) { DecodedIsAllowed(p, r); }
    if DecodesTo(p, r) && p.questions != map[] {
      match r {
        case Ok(d) => AcceptedIsDecoded(p, d);
        case Err(BlankKey) =>
          var k :| k in p.questions && !NonBlank(k);
          SomeOutcomesAre(p);
          FirstDecides(p, k, SomeOutcomes(p));
        case Err(BadQuestion(k, e)) =>
          SomeOutcomesAre(p);
          FirstDecides(p, k, SomeOutcomes(p)[k := Err(e)]);
        case Err(NoQuestions) =>
      }
    }
  }

  /** The name and namespace of a decoded request are the given ones without surrounding blanks. */
  lemma DecodedNames(p: Payload, d: Decision)
    requires Decoded(p, Ok(d))
    ensures match p.name case None => d.name == "" case Some(s) => Remains(s, d.name, IsSpace)
    ensures match p.namespace case None => d.namespace == "" case Some(s) => Remains(s, d.namespace, IsSpace)
  {
    DecodedIsAllowed(p, Ok(d));
    if p.name.Some? { TrimExactly(p.name.value, IsSpace, d.name); }
    if p.namespace.Some? { TrimExactly(p.namespace.value, IsSpace, d.namespace); }
  }

  /** The questions outside `todo` have been walked and accepted as `questions`. */
  ghost predicate Along(p: Payload, todo: set<string>, walk: seq<string>,
                        outcomes: map<string, Result<Normalized, QuestionError>>, questions: map<string, Normalized>)
  {
    && todo <= p.questions.Keys && OutcomesFor(p, outcomes)
    && IsWalk(walk, p.questions.Keys - todo) && DecodeAlong(walk, outcomes) == Ok(questions)
  }

  /** Learning the outcome of the question that comes next changes nothing that went before. */
  lemma NextOutcome(p: Payload, todo: set<string>, walk: seq<string>,
                    outcomes: map<string, Result<Normalized, QuestionError>>, questions: map<string, Normalized>,
                    key: string, r: Result<Normalized, QuestionError>)
    requires Along(p, todo, walk, outcomes, questions) && key in todo && Outcome(p.questions[key], r)
    ensures OutcomesFor(p, outcomes[key := r])
    ensures NonBlank(key) && r.Ok? ==>
              Along(p, todo - {key}, walk + [key], outcomes[key := r], questions[key := r.value])
  {
    NextOutcomes(p, outcomes, key, r);
    AlongMore(walk, outcomes, key, r);
    if NonBlank(key) && r.Ok? {
      NextWalk(p, todo, walk, key);
      NextAlong(walk, outcomes[key := r], questions, key);
    }
  }

  lemma NextOutcomes(p: Payload, outcomes: map<string, Result<Normalized, QuestionError>>, key: string,
                     r: Result<Normalized, QuestionError>)
    requires OutcomesFor(p, outcomes) && key in p.questions && Outcome(p.questions[key], r)
    ensures OutcomesFor(p, outcomes[key := r])
  {
    assert outcomes[key := r].Keys == outcomes.Keys;
  }

  lemma NextWalk(p: Payload, todo: set<string>, walk: seq<string>, key: string)
    requires todo <= p.questions.Keys && IsWalk(walk, p.questions.Keys - todo) && key in todo
    ensures IsWalk(walk + [key], p.questions.Keys - (todo - {key}))
  {
    WalksJoin(walk, p.questions.Keys - todo, [key], {key});
    assert p.questions.Keys - todo + {key} == p.questions.Keys - (todo - {key});
  }

  lemma NextAlong(walk: seq<string>, outcomes: map<string, Result<Normalized, QuestionError>>,
                  questions: map<string, Normalized>, key: string)
    requires (forall k | k in walk :: k in outcomes) && DecodeAlong(walk, outcomes) == Ok(questions)
    requires NonBlank(key) && key in outcomes && outcomes[key].Ok?
    ensures DecodeAlong(walk + [key], outcomes) == Ok(questions[key := outcomes[key].value])
  {
    assert (walk + [key])[..|walk|] == walk;
  }

  lemma {:induction false} AlongMore(walk: seq<string>, before: map<string, Result<Normalized, QuestionError>>,
                                     key: string, r: Result<Normalized, QuestionError>)
    requires key !in walk && forall k | k in walk :: k in before
    ensures DecodeAlong(walk, before[key := r]) == DecodeAlong(walk, before)
  {
    if walk != [] {
      AlongMore(walk[..|walk| - 1], before, key, r);
    }
  }

  lemma AlongToTheEnd(p: Payload, walk: seq<string>, outcomes: map<string, Result<Normalized, QuestionError>>,
                      questions: map<string, Normalized>, state: Value)
    requires Along(p, {}, walk, outcomes, questions) && Walked(p.state, state) && p.questions != map[]
    ensures Decoded(p, Completed(p, state, Ok(questions)))
  {
    assert p.questions.Keys - {} == p.questions.Keys;
    assert DecodedBy(p, walk, outcomes, state, Completed(p, state, Ok(questions)));
  }

  method DecodeDecisionRequest(p: Payload) returns (r: Result<Decision, DecodeError>)
    ensures Decoded(p, r)
  {
    if p.questions == map[] { return Err(NoQuestions); }
    var state := NormalizeValue(p.state);
    var questions: map<string, Normalized> := map[];
    ghost var walk: seq<string>, outcomes := [], SomeOutcomes(p);
    SomeOutcomesAre(p);
    var todo := p.questions.Keys;
    while todo != {}
      invariant Along(p, todo, walk, outcomes, questions)
      decreases todo
    {
      var key :| key in todo;
      if TrimSpace(key) == "" {
        FirstDecides(p, key, outcomes);
        return Err(BlankKey);
      }
      var normalized := NormalizeQuestion(p.questions[key]);
      NextOutcome(p, todo, walk, outcomes, questions, key, normalized);
      outcomes := outcomes[key := normalized];
      if normalized.Err? {
        FirstDecides(p, key, outcomes);
        return Err(BadQuestion(key, normalized.error));
      }
      questions := questions[key := normalized.value];
      todo := todo - {key};
      walk := walk + [key];
    }
    AlongToTheEnd(p, walk, outcomes, questions, state);
    return Ok(Decision(TrimmedOr(p.name), TrimmedOr(p.namespace), state, questions));
  }
}
