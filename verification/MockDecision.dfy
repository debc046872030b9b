/** The mock decision maker: keyword scores, and its answers to choice and score questions. */
module MockDecision {
  import opened MockShares
  import opened MockScores

  function CountIn(tokens: set<string>, candidates: seq<string>): nat {
    if candidates == [] then 0
    else CountIn(tokens, candidates[..|candidates| - 1]) + if candidates[|candidates| - 1] in tokens then 1 else 0
  }

  /** The positions of the candidates that are tokens. */
  function Hits(tokens: set<string>, candidates: seq<string>): set<nat> {
    set i: nat | i < |candidates| && candidates[i] in tokens
  }

  lemma {:induction false} CountInExactly(tokens: set<string>, candidates: seq<string>)
    ensures CountIn(tokens, candidates) == |Hits(tokens, candidates)|
  {
    if candidates != [] {
      var n := |candidates| - 1;
      CountInExactly(tokens, candidates[..n]);
      var all, init := Hits(tokens, candidates), Hits(tokens, candidates[..n]);
      assert n !in init;
      assert all == init + if candidates[n] in tokens then {n} else {};
    }
  }

  /** No candidate counts exactly when none is a token, and all count exactly when all are. */
  lemma {:induction false} CountInExtremes(tokens: set<string>, candidates: seq<string>)
    ensures CountIn(tokens, candidates) <= |candidates|
    ensures CountIn(tokens, candidates) == 0 <==> forall i | 0 <= i < |candidates| :: candidates[i] !in tokens
    ensures CountIn(tokens, candidates) == |candidates| <==> forall i | 0 <= i < |candidates| :: candidates[i] in tokens
  {
    if candidates != [] {
      CountInExtremes(tokens, candidates[..|candidates| - 1]);
      assert candidates == candidates[..|candidates| - 1] + [candidates[|candidates| - 1]];
    }
  }

  lemma {:induction false} CountInAdds(tokens: set<string>, a: seq<string>, b: seq<string>)
    ensures CountIn(tokens, a + b) == CountIn(tokens, a) + CountIn(tokens, b)
    decreases |b|
  {
    if b == [] {
      assert a + b == a;
    } else {
      CountInAdds(tokens, a, b[..|b| - 1]);
      assert (a + b)[..|a + b| - 1] == a + b[..|b| - 1];
    }
  }

  lemma {:induction false} CountInGrows(tokens: set<string>, more: set<string>, candidates: seq<string>)
    requires tokens <= more
    ensures CountIn(tokens, candidates) <= CountIn(more, candidates)
  {
    if candidates != [] { CountInGrows(tokens, more, candidates[..|candidates| - 1]); }
  }

  method KeywordScore(tokens: set<string>, candidates: seq<string>) returns (score: nat)
    ensures score == CountIn(tokens, candidates) == |Hits(tokens, candidates)|
  {
    score := 0;
    for i := 0 to |candidates|
      invariant score == CountIn(tokens, candidates[..i])
    {
      assert candidates[..i + 1][..i] == candidates[..i];
      if candidates[i] in tokens {
        score := score + 1;
      }
    }
    assert candidates[..|candidates|] == candidates;
    CountInExactly(tokens, candidates);
  }

  /** What tokenising and substring search answer about the state; tokenisation is a library matter. */
  datatype Text = Text(tokens: set<string>, tokenize: string -> seq<string>, mentions: string -> bool)

  function OptionScore(text: Text, option: string, description: string): nat {
    1 + CountIn(text.tokens, text.tokenize(option + " " + description))
  }

  function OptionScores(text: Text, options: seq<(string, string)>): seq<nat> {
    seq(|options|, i requires 0 <= i < |options| => OptionScore(text, options[i].0, options[i].1))
  }

  /** Some word of the option's name and description is in the state. */
  ghost predicate Matches(text: Text, option: (string, string)) {
    exists word :: word in text.tokenize(option.0 + " " + option.1) && word in text.tokens
  }

  /** An option scores one, and one more for every word of its name and description that is in the
      state; so exactly the options that match score more than one. */
  lemma OptionScoreExactly(text: Text, option: (string, string))
    ensures var words := text.tokenize(option.0 + " " + option.1);
            OptionScore(text, option.0, option.1) == 1 + |Hits(text.tokens, words)|
    ensures OptionScore(text, option.0, option.1) > 1 <==> Matches(text, option)
  {
    var words := text.tokenize(option.0 + " " + option.1);
    CountInExactly(text.tokens, words);
    CountInExtremes(text.tokens, words);
    assert Matches(text, option) <==> exists i :: 0 <= i < |words| && words[i] in text.tokens by {
      if word :| word in words && word in text.tokens {
        var i :| 0 <= i < |words| && words[i] == word;
      }
    }
  }

  /** If one option alone matches the state, it has the first largest score. */
  lemma LoneMatchIsFirst(text: Text, options: seq<(string, string)>, i: nat, best: nat)
    requires i < |options| && Matches(text, options[i])
    requires forall j | 0 <= j < |options| && j != i :: !Matches(text, options[j])
    ensures IsFirstMax(OptionScores(text, options), best) <==> best == i
  {
    var scores := OptionScores(text, options);
    forall j | 0 <= j < |options| ensures scores[j] >= 1 && (scores[j] > 1 <==> j == i) {
      OptionScoreExactly(text, options[j]);
    }
    assert |scores| == |options| && scores[i] > 1;
    if IsFirstMax(scores, best) { assert scores[i] <= scores[best]; }
  }

  /** The probability of every option, under its own name. */
  method ProbabilityMap(options: seq<string>, scores: seq<nat>) returns (probabilities: map<string, nat>)
    requires |options| == |scores|
    requires forall i, j | 0 <= i < j < |options| :: options[i] != options[j]
    ensures forall o :: o in probabilities <==> o in options
    ensures forall i | 0 <= i < |options| :: probabilities[options[i]] == Shares(scores)[i]
  {
    var shares := Shares(scores);
    probabilities := map[];
    for i := 0 to |options|
      invariant forall o :: o in probabilities <==> o in options[..i]
      invariant forall k | 0 <= k < i :: probabilities[options[k]] == shares[k]
    {
      probabilities := probabilities[options[i] := shares[i]];
    }
    assert options[..|options|] == options;
  }

  /** The head of the options sorted by descending share: the first largest. */
  method FirstLargest(shares: seq<nat>) returns (best: nat)
    requires shares != []
    ensures IsFirstMax(shares, best)
  {
    best := 0;
    for i := 1 to |shares|
      invariant best < i
      invariant forall j | 0 <= j < i :: shares[j] <= shares[best]
      invariant forall j | 0 <= j < best :: shares[j] < shares[best]
    {
      if shares[i] > shares[best] { best := i; }
    }
  }

  /** The one property name that a plain object does not take as its own when it is assigned. */
  const PROTO := "__proto__"

  predicate DistinctNames(options: seq<(string, string)>) {
    forall i, j | 0 <= i < j < |options| :: options[i].0 != options[j].0
  }

  ghost predicate Names(options: seq<(string, string)>, name: string) {
    exists i :: 0 <= i < |options| && options[i].0 == name
  }

  /** The options with a score once a score is assigned to a property named after one more. */
  function Assigned(kept: seq<(string, string)>, option: (string, string)): seq<(string, string)> {
    if option.0 == PROTO then kept else kept + [option]
  }

  /** The options whose score the object of scores keeps, in order. */
  function Kept(options: seq<(string, string)>): (kept: seq<(string, string)>) {
    if options == [] then [] else Assigned(Kept(options[..|options| - 1]), options[|options| - 1])
  }

  lemma {:induction false} KeptNames(options: seq<(string, string)>)
    ensures forall i | 0 <= i < |Kept(options)| :: Kept(options)[i] in options
    ensures forall o :: Names(Kept(options), o) <==> Names(options, o) && o != PROTO
    ensures DistinctNames(options) ==> DistinctNames(Kept(options))
  {
    if options != [] {
      var n := |options| - 1;
      var last := options[n];
      var init, kept := Kept(options[..n]), Kept(options);
      KeptNames(options[..n]);
      forall o ensures Names(kept, o) <==> Names(options, o) && o != PROTO {
        if i :| 0 <= i < |options| && options[i].0 == o && o != PROTO {
          if i < n {
            assert options[..n][i].0 == o;
            assert Names(options[..n], o) && Names(init, o);
            var j :| 0 <= j < |init| && init[j].0 == o;
            assert kept[j].0 == o;
          } else {
            assert kept[|init|].0 == o;
          }
        }
        if i :| 0 <= i < |kept| && kept[i].0 == o {
          if i < |init| {
            assert init[i].0 == o;
            assert Names(init, o) && Names(options[..n], o);
            var j :| 0 <= j < n && options[..n][j].0 == o;
            assert options[j].0 == o;
          } else {
            assert options[n].0 == o;
          }
        }
      }
      if DistinctNames(options) {
        forall i, j | 0 <= i < j < |kept| ensures kept[i].0 != kept[j].0 {
          if j == |init| {
            assert init[i] in options[..n];
            var k :| 0 <= k < n && options[..n][k] == init[i];
            assert options[k].0 != options[n].0;
          }
        }
      }
    }
  }

  /** The scores are those of exactly the given options, in their order, unless one of them is
      called `__proto__`: that one is lost. */
  lemma AllKeptExactly(options: seq<(string, string)>)
    ensures (forall o :: Names(Kept(options), o) <==> Names(options, o)) <==> !Names(options, PROTO)
    ensures Kept(options) == options <==> !Names(options, PROTO)
  {
    KeptNames(options);
    if !Names(options, PROTO) {
      assert forall i | 0 <= i < |options| :: options[i].0 != PROTO;
      KeepsAll(options);
    }
  }

  lemma {:induction false} KeepsAll(options: seq<(string, string)>)
    requires forall i | 0 <= i < |options| :: options[i].0 != PROTO
    ensures Kept(options) == options
    decreases |options|
  {
    if options != [] {
      var n := |options| - 1;
      KeepsAll(options[..n]);
      assert options == options[..n] + [options[n]];
    }
  }

  /** Assigning the score of every option to a property of its name. */
  method ScoreOptions(text: Text, options: seq<(string, string)>) returns (names: seq<string>, scores: seq<nat>)
    ensures scores == OptionScores(text, Kept(options))
    ensures |names| == |Kept(options)| && forall i | 0 <= i < |names| :: names[i] == Kept(options)[i].0
  {
    names, scores := [], [];
    for i := 0 to |options|
      invariant scores == OptionScores(text, Kept(options[..i]))
      invariant |names| == |scores| && forall k | 0 <= k < |names| :: names[k] == Kept(options[..i])[k].0
    {
      assert options[..i + 1][..i] == options[..i];
      var keywords := KeywordScore(text.tokens, text.tokenize(options[i].0 + " " + options[i].1));
      if options[i].0 != PROTO {
        names, scores := names + [options[i].0], scores + [1 + keywords];
      }
    }
    assert options[..|options|] == options;
  }

  /** Answers a choice question over the entries of its criteria, in entry order: a probability for
      each option with a property of its own, and the one with the first largest probability, which
      for totals of at most 10000 is the first with the largest raw score. Exactly when no option is
      called `__proto__`, the probabilities are those of exactly the given options. */
  method AnswerChoice(text: Text, options: seq<(string, string)>)
    returns (choice: string, probabilities: map<string, nat>)
    requires DistinctNames(options)
    ensures forall o :: o in probabilities <==> Names(options, o) && o != PROTO
    ensures (forall o :: o in probabilities <==> Names(options, o)) <==> !Names(options, PROTO)
    ensures forall i | 0 <= i < |Kept(options)| ::
              Kept(options)[i].0 in probabilities
              && probabilities[Kept(options)[i].0] == Shares(OptionScores(text, Kept(options)))[i]
    ensures Kept(options) == [] ==> choice == ""
    ensures Kept(options) != [] ==>
              var scores := OptionScores(text, Kept(options));
              exists i: nat :: IsFirstMax(Shares(scores), i) && choice == Kept(options)[i].0
                               && (Sum(scores) <= 10000 ==> IsFirstMax(scores, i))
  {
    ghost var kept := Kept(options);
    KeptNames(options);
    var names, scores := ScoreOptions(text, options);
    forall i, j | 0 <= i < j < |names| ensures names[i] != names[j] { assert kept[i].0 != kept[j].0; }
    probabilities := ProbabilityMap(names, scores);
    forall o ensures o in names <==> Names(kept, o) {
      if o in names {
        var i :| 0 <= i < |names| && names[i] == o;
        assert kept[i].0 == o;
      }
      if i :| 0 <= i < |kept| && kept[i].0 == o { assert names[i] == o; }
    }
    forall i | 0 <= i < |kept| ensures kept[i].0 in probabilities && probabilities[kept[i].0] == Shares(scores)[i] {
      assert names[i] == kept[i].0;
    }
    if names == [] {
      choice := "";
    } else {
      var best := FirstLargest(Shares(scores));
      choice := names[best];
      if Sum(scores) <= 10000 { ChoiceIsFirstRawMax(scores, best); }
    }
  }

  /** A question whose only option is called `__proto__` is answered with no choice at all. */
  lemma OnlyProtoAnswersNothing(description: string)
    ensures Kept([(PROTO, description)]) == [] && Names([(PROTO, description)], PROTO)
  {
    assert [(PROTO, description)][..0] == [];
    assert [(PROTO, description)][0].0 == PROTO;
  }

  function CriterionWeight(text: Text, criterion: string, index: nat): nat {
    1 + CountIn(text.tokens, text.tokenize(criterion)) + if text.mentions(criterion) then index + 1 else 0
  }

  function CriterionWeights(text: Text, criteria: seq<string>): seq<nat> {
    seq(|criteria|, i requires 0 <= i < |criteria| => CriterionWeight(text, criteria[i], i))
  }

  /** A criterion weighs one, one more for every word of it that is in the state, and, if the state
      mentions it as a whole, its position counted from one. */
  lemma CriterionWeightExactly(text: Text, criteria: seq<string>, i: nat)
    requires i < |criteria|
    ensures var w, hits := CriterionWeights(text, criteria)[i], |Hits(text.tokens, text.tokenize(criteria[i]))|;
            && (text.mentions(criteria[i]) ==> w == hits + i + 2)
            && (!text.mentions(criteria[i]) ==> w == hits + 1)
    ensures CriterionWeights(text, criteria)[i] == 1
            <==> !text.mentions(criteria[i]) && forall word | word in text.tokenize(criteria[i]) :: word !in text.tokens
  {
    var words := text.tokenize(criteria[i]);
    CountInExactly(text.tokens, words);
    CountInExtremes(text.tokens, words);
  }

  method WeighCriteria(text: Text, criteria: seq<string>) returns (weights: seq<nat>)
    ensures weights == CriterionWeights(text, criteria)
  {
    weights := [];
    for i := 0 to |criteria|
      invariant weights == CriterionWeights(text, criteria)[..i]
    {
      var keywords := KeywordScore(text.tokens, text.tokenize(criteria[i]));
      var weight := 1 + keywords;
      if text.mentions(criteria[i]) {
        weight := weight + (i + 1);
      }
      weights := weights + [weight];
    }
  }

  method ExpectedIndex(distribution: seq<nat>) returns (score: nat)
    ensures score == Moment(distribution)
  {
    score := 0;
    for i := 0 to |distribution|
      invariant score == Moment(distribution[..i])
    {
      assert distribution[..i + 1][..i] == distribution[..i];
      score := score + distribution[i] * i;
    }
    assert distribution[..|distribution|] == distribution;
  }

  /** Answers a score question. The score, in ten-thousandths, is an expected index over the rounded
      distribution; with up to four criteria, or a total of at most 20000, it is never above the
      last index. */
  method AnswerScore(text: Text, criteria: seq<string>) returns (score: nat, distribution: seq<nat>)
    ensures distribution == Shares(CriterionWeights(text, criteria))
    ensures score == Moment(distribution)
    ensures criteria != [] && (|criteria| <= 4 || Sum(CriterionWeights(text, criteria)) <= 20000)
            ==> score <= 10000 * (|criteria| - 1)
  {
    var weights := WeighCriteria(text, criteria);
    distribution := Shares(weights);
    score := ExpectedIndex(distribution);
    if criteria != [] && |criteria| <= 4 {
      FewStayInRange(weights);
    } else if criteria != [] && Sum(weights) <= 20000 {
      ScoreInRange(weights);
    }
  }
}
