/** The count handler's loop that takes `apiVersion` and `kind` out of a field selector and
    passes the remaining terms on. */
module FieldSelectors {
  import opened GoStrings

  datatype Selection = Selection(apiVersion: string, kind: string, residual: string)

  const API_VERSION := "apiVersion"
  const KIND := "kind"
  const EMPTY := Selection("", "", "")

  /** The comma-separated terms of a query, each trimmed. */
  function TermsOf(query: string): seq<string> {
    var parts := Split(query, ',');
    seq(|parts|, i requires 0 <= i < |parts| => TrimSpace(parts[i]))
  }

  /** The term gives the field a value. */
  predicate Assigns(fs: string, field: string) {
    HasPrefix(fs, field) && CutAfter(fs, '=').Some?
  }

  predicate IsOther(fs: string) {
    !HasPrefix(fs, API_VERSION) && !HasPrefix(fs, KIND)
  }

  /** What one trimmed term does to the selection. */
  function Absorb(sel: Selection, fs: string): Selection {
    if HasPrefix(fs, API_VERSION) then
      match CutAfter(fs, '=') case Some(v) => sel.(apiVersion := v) case None => sel
    else if HasPrefix(fs, KIND) then
      match CutAfter(fs, '=') case Some(v) => sel.(kind := v) case None => sel
    else sel.(residual := Extend(sel.residual, fs))
  }

  function Extend(residual: string, fs: string): string {
    if residual != "" then residual + "," + fs else fs
  }

  function AbsorbAll(sel: Selection, terms: seq<string>): Selection
    decreases terms
  {
    if terms == [] then sel else AbsorbAll(Absorb(sel, terms[0]), terms[1..])
  }

  function Parse(query: string): Selection {
    AbsorbAll(EMPTY, TermsOf(query))
  }

  method SplitFieldSelector(query: string) returns (apiVersion: string, kind: string, fieldSelector: string)
    ensures Selection(apiVersion, kind, fieldSelector) == Parse(query)
  {
    var fieldSelectors := Split(query, ',');
    ghost var terms := TermsOf(query);
    apiVersion, kind, fieldSelector := "", "", "";
    for i := 0 to |fieldSelectors|
      invariant AbsorbAll(Selection(apiVersion, kind, fieldSelector), terms[i..]) == Parse(query)
    {
      ghost var before := Selection(apiVersion, kind, fieldSelector);
      var fs := TrimSpace(fieldSelectors[i]);
      if HasPrefix(fs, API_VERSION) {
        var value := CutAfter(fs, '=');
        if value.Some? { apiVersion := value.value; }
      } else if HasPrefix(fs, KIND) {
        var value := CutAfter(fs, '=');
        if value.Some? { kind := value.value; }
      } else {
        if fieldSelector != "" {
          fieldSelector := fieldSelector + ",";
        }
        fieldSelector := fieldSelector + fs;
      }
      assert Selection(apiVersion, kind, fieldSelector) == Absorb(before, terms[i]);
      assert terms[i..][1..] == terms[i + 1..];
    }
  }

  // ----- the residual is a join of the other terms -----

  /** The terms that name neither the version nor the kind, in order. */
  function Others(terms: seq<string>): seq<string> {
    if terms == [] then [] else (if IsOther(terms[0]) then [terms[0]] else []) + Others(terms[1..])
  }

  function DropLeadingBlanks(terms: seq<string>): (r: seq<string>)
    ensures r != [] ==> r[0] != ""
  {
    if terms != [] && terms[0] == "" then DropLeadingBlanks(terms[1..]) else terms
  }

  lemma StepResidual(sel: Selection, terms: seq<string>)
    requires terms != []
    ensures if IsOther(terms[0])
            then Others(terms) == [terms[0]] + Others(terms[1..])
                 && Absorb(sel, terms[0]).residual == Extend(sel.residual, terms[0])
            else Others(terms) == Others(terms[1..]) && Absorb(sel, terms[0]).residual == sel.residual
  {
  }

  /** A non-empty residual takes every further term, each after a comma. */
  lemma {:induction false} ResidualGrows(sel: Selection, terms: seq<string>)
    requires sel.residual != ""
    ensures AbsorbAll(sel, terms).residual == Join([sel.residual] + Others(terms), ',')
    decreases terms
  {
    if terms == [] {
      assert [sel.residual] + Others(terms) == [sel.residual];
    } else {
      var fs, rest := terms[0], Others(terms[1..]);
      StepResidual(sel, terms);
      ResidualGrows(Absorb(sel, fs), terms[1..]);
      if IsOther(fs) {
        JoinMerge(sel.residual, fs, rest);
        assert [sel.residual] + ([fs] + rest) == [sel.residual, fs] + rest;
      }
    }
  }

  lemma DropBlank(rest: seq<string>)
    ensures DropLeadingBlanks([""] + rest) == DropLeadingBlanks(rest)
  {
    assert ([""] + rest)[1..] == rest;
  }

  /** An empty residual skips blank terms until the first that is not. */
  lemma {:induction false} ResidualStarts(sel: Selection, terms: seq<string>)
    requires sel.residual == ""
    ensures AbsorbAll(sel, terms).residual == Join(DropLeadingBlanks(Others(terms)), ',')
    decreases terms
  {
    if terms != [] {
      var fs, rest := terms[0], Others(terms[1..]);
      StepResidual(sel, terms);
      if IsOther(fs) && fs != "" {
        ResidualGrows(Absorb(sel, fs), terms[1..]);
      } else {
        ResidualStarts(Absorb(sel, fs), terms[1..]);
        DropBlank(rest);
      }
    }
  }

  lemma JoinMerge(a: string, b: string, rest: seq<string>)
    ensures Join([a, b] + rest, ',') == Join([a + "," + b] + rest, ',')
  {
    assert ([a, b] + rest)[1..] == [b] + rest;
    assert ([a + "," + b] + rest)[1..] == rest;
    assert ([b] + rest)[1..] == rest;
    if rest != [] {
      assert a + "," + (b + "," + Join(rest, ',')) == a + "," + b + "," + Join(rest, ',');
    } else {
      assert [b] + rest == [b] && [a + "," + b] + rest == [a + "," + b];
    }
  }

  /** The residual of a whole query: the other terms, trimmed, in order, without leading blanks. */
  lemma ResidualIsJoin(query: string)
    ensures Parse(query).residual == Join(DropLeadingBlanks(Others(TermsOf(query))), ',')
  {
    ResidualStarts(EMPTY, TermsOf(query));
  }

  // ----- the last assignment wins -----

  function ValueOf(sel: Selection, field: string): string {
    if field == API_VERSION then sel.apiVersion else sel.kind
  }

  lemma AssignmentTakes(sel: Selection, fs: string, field: string)
    requires field == API_VERSION || field == KIND
    ensures Assigns(fs, field) ==> Some(ValueOf(Absorb(sel, fs), field)) == CutAfter(fs, '=')
    ensures !Assigns(fs, field) ==> ValueOf(Absorb(sel, fs), field) == ValueOf(sel, field)
  {
    assert API_VERSION[0] == 'a' && KIND[0] == 'k';
    assert HasPrefix(fs, API_VERSION) ==> fs[0] == 'a';
    assert HasPrefix(fs, KIND) ==> fs[0] == 'k';
  }

  /** Version and kind are what the last term that assigns them says. */
  lemma {:induction false} LastAssignmentWins(sel: Selection, terms: seq<string>, field: string, i: nat)
    requires field == API_VERSION || field == KIND
    requires i < |terms| && Assigns(terms[i], field)
    requires forall j | i < j < |terms| :: !Assigns(terms[j], field)
    ensures Some(ValueOf(AbsorbAll(sel, terms), field)) == CutAfter(terms[i], '=')
    decreases terms
  {
    if i > 0 {
      LastAssignmentWins(Absorb(sel, terms[0]), terms[1..], field, i - 1);
    } else {
      AssignmentTakes(sel, terms[0], field);
      UnassignedIsKept(Absorb(sel, terms[0]), terms[1..], field);
    }
  }

  /** Without such a term they stay what they were. */
  lemma {:induction false} UnassignedIsKept(sel: Selection, terms: seq<string>, field: string)
    requires field == API_VERSION || field == KIND
    requires forall j | 0 <= j < |terms| :: !Assigns(terms[j], field)
    ensures ValueOf(AbsorbAll(sel, terms), field) == ValueOf(sel, field)
    decreases terms
  {
    if terms != [] {
      AssignmentTakes(sel, terms[0], field);
      UnassignedIsKept(Absorb(sel, terms[0]), terms[1..], field);
    }
  }

  /** The term starts with the name of the field and gives what follows its first `=`. */
  ghost predicate Gives(term: string, field: string, value: string) {
    field <= term && exists tag :: '=' !in tag && term == tag + ['='] + value
  }

  /** The last term that gives the field a value gives it this one; a field without one is empty. */
  ghost predicate LastGives(query: string, field: string, value: string) {
    var terms := TermsOf(query);
    || (value == "" && forall i, v | 0 <= i < |terms| :: !Gives(terms[i], field, v))
    || exists i :: && 0 <= i < |terms| && Gives(terms[i], field, value)
                   && forall j, v | i < j < |terms| :: !Gives(terms[j], field, v)
  }

  lemma GivesExactly(term: string, field: string, value: string)
    ensures Gives(term, field, value) <==> HasPrefix(term, field) && CutAfter(term, '=') == Some(value)
  {
    CutAfterExactly(term, '=', value);
  }

  lemma AssignsExactly(term: string, field: string)
    ensures Assigns(term, field) <==> exists v :: Gives(term, field, v)
  {
    forall v ensures Gives(term, field, v) <==> HasPrefix(term, field) && CutAfter(term, '=') == Some(v) {
      GivesExactly(term, field, v);
    }
    if Assigns(term, field) { assert Gives(term, field, CutAfter(term, '=').value); }
  }

  lemma {:induction false} LastAssigning(terms: seq<string>, field: string) returns (i: int)
    ensures -1 <= i < |terms| && (i >= 0 ==> Assigns(terms[i], field))
    ensures forall j | i < j < |terms| :: !Assigns(terms[j], field)
  {
    i := |terms| - 1;
    if terms != [] && !Assigns(terms[i], field) {
      i := LastAssigning(terms[..i], field);
    }
  }

  /** The version and the kind read from a query are what its last assignments give. */
  lemma SelectionExactly(query: string, field: string, value: string)
    requires field == API_VERSION || field == KIND
    ensures ValueOf(Parse(query), field) == value <==> LastGives(query, field, value)
  {
    var terms := TermsOf(query);
    forall i | 0 <= i < |terms| ensures Assigns(terms[i], field) <==> exists v :: Gives(terms[i], field, v) {
      AssignsExactly(terms[i], field);
    }
    var i := LastAssigning(terms, field);
    if i < 0 {
      UnassignedIsKept(EMPTY, terms, field);
    } else {
      LastAssignmentWins(EMPTY, terms, field, i);
      LastGivesOne(query, field, i, value);
    }
  }

  lemma LastGivesOne(query: string, field: string, i: nat, value: string)
    requires i < |TermsOf(query)| && Assigns(TermsOf(query)[i], field)
    requires forall j | i < j < |TermsOf(query)| :: !Assigns(TermsOf(query)[j], field)
    ensures LastGives(query, field, value) <==> CutAfter(TermsOf(query)[i], '=') == Some(value)
  {
    var terms := TermsOf(query);
    forall j | 0 <= j < |terms| ensures Assigns(terms[j], field) <==> exists v :: Gives(terms[j], field, v) {
      AssignsExactly(terms[j], field);
    }
    GivesExactly(terms[i], field, value);
    if LastGives(query, field, value) {
      var k :| && 0 <= k < |terms| && Gives(terms[k], field, value)
               && forall j, v | k < j < |terms| :: !Gives(terms[j], field, v);
      assert Assigns(terms[k], field);
      assert k == i;
    }
  }

  // ----- printing and parsing again -----

  /** Terms are comma-free and have no blank ends. */
  ghost predicate Tidy(fs: string) {
    ',' !in fs && Trimmed(fs, IsSpace)
  }

  ghost predicate AllTidy(terms: seq<string>) {
    forall i | 0 <= i < |terms| :: Tidy(terms[i])
  }

  lemma TermsAreTidy(query: string)
    ensures AllTidy(TermsOf(query))
  {
    var parts := Split(query, ',');
    forall i | 0 <= i < |parts| ensures Tidy(TrimSpace(parts[i])) {
      TrimIsTrimmed(parts[i], IsSpace);
      TrimKeepsOut(parts[i], IsSpace, ',');
    }
  }

  lemma TrimTidy(fs: string)
    requires Tidy(fs)
    ensures TrimSpace(fs) == fs
  {
    TrimIsTrimmed(fs, IsSpace);
  }

  /** Values come from tidy terms. */
  ghost predicate CleanValue(v: string) {
    ',' !in v && (v != "" ==> !IsSpace(v[|v| - 1]))
  }

  lemma CutIsClean(fs: string)
    requires Tidy(fs) && CutAfter(fs, '=').Some?
    ensures CleanValue(CutAfter(fs, '=').value)
  {
    CutAfterSuffix(fs, '=');
  }

  lemma {:induction false} ValuesAreClean(sel: Selection, terms: seq<string>)
    requires AllTidy(terms) && CleanValue(sel.apiVersion) && CleanValue(sel.kind)
    ensures CleanValue(AbsorbAll(sel, terms).apiVersion) && CleanValue(AbsorbAll(sel, terms).kind)
    decreases terms
  {
    if terms != [] {
      assert Tidy(terms[0]);
      if CutAfter(terms[0], '=').Some? { CutIsClean(terms[0]); }
      ValuesAreClean(Absorb(sel, terms[0]), terms[1..]);
    }
  }

  function Print(sel: Selection): string {
    API_VERSION + "=" + sel.apiVersion + "," + KIND + "=" + sel.kind + "," + sel.residual
  }

  lemma AssignmentIsTidy(name: string, value: string)
    requires name != "" && '=' !in name && ',' !in name && !IsSpace(name[0]) && CleanValue(value)
    ensures Tidy(name + "=" + value) && CutAfter(name + "=" + value, '=') == Some(value)
  {
    var t := name + "=" + value;
    assert t[0] == name[0];
    assert t[|t| - 1] == if value == "" then '=' else value[|value| - 1];
    CutAfterPrinted(name, '=', value);
  }

  /** The kept terms of a query: what its residual is joined from. */
  ghost predicate KeptTerms(terms: seq<string>) {
    AllTidy(terms) && forall i | 0 <= i < |terms| :: IsOther(terms[i])
  }

  lemma {:induction false} OthersAreKept(terms: seq<string>)
    requires AllTidy(terms)
    ensures KeptTerms(Others(terms))
  {
    if terms != [] {
      assert Tidy(terms[0]);
      OthersAreKept(terms[1..]);
    }
  }

  lemma {:induction false} DroppedAreKept(terms: seq<string>)
    requires KeptTerms(terms)
    ensures KeptTerms(DropLeadingBlanks(terms))
  {
    if terms != [] && terms[0] == "" { DroppedAreKept(terms[1..]); }
  }

  lemma {:induction false} OthersFixed(terms: seq<string>)
    requires KeptTerms(terms)
    ensures Others(terms) == terms
  {
    if terms != [] { OthersFixed(terms[1..]); }
  }

  lemma {:induction false} OthersKeepValues(sel: Selection, terms: seq<string>)
    requires KeptTerms(terms)
    ensures AbsorbAll(sel, terms).apiVersion == sel.apiVersion && AbsorbAll(sel, terms).kind == sel.kind
    decreases terms
  {
    if terms != [] { OthersKeepValues(Absorb(sel, terms[0]), terms[1..]); }
  }

  lemma TrimAllTidy(parts: seq<string>)
    requires AllTidy(parts)
    ensures seq(|parts|, i requires 0 <= i < |parts| => TrimSpace(parts[i])) == parts
  {
    forall i | 0 <= i < |parts| ensures TrimSpace(parts[i]) == parts[i] { TrimTidy(parts[i]); }
  }

  /** Splitting a residual joined from kept terms gives kept terms that join to it again. */
  lemma ResidualTerms(kept: seq<string>)
    requires KeptTerms(kept) && DropLeadingBlanks(kept) == kept
    ensures var terms := Split(Join(kept, ','), ',');
            KeptTerms(terms) && Join(DropLeadingBlanks(terms), ',') == Join(kept, ',')
  {
    if kept == [] {
      assert Split("", ',') == [""];
    } else {
      assert forall i | 0 <= i < |kept| :: Tidy(kept[i]) && ',' !in kept[i];
      SplitJoin(kept, ',');
    }
  }

  lemma {:induction false} DropTwice(terms: seq<string>)
    ensures DropLeadingBlanks(DropLeadingBlanks(terms)) == DropLeadingBlanks(terms)
  {
    if terms != [] && terms[0] == "" { DropTwice(terms[1..]); }
  }

  lemma SplitPrinted(first: string, second: string, residual: string)
    requires ',' !in first && ',' !in second
    ensures Split(first + "," + second + "," + residual, ',') == [first, second] + Split(residual, ',')
  {
    var tail, rest := second + [','] + residual, Split(residual, ',');
    SplitHead(second, residual, ',');
    SplitHead(first, tail, ',');
    assert first + "," + second + "," + residual == first + [','] + tail;
    assert [first] + ([second] + rest) == [first, second] + rest;
  }

  /** A printed selection has the two assignments and the residual's terms. */
  lemma PrintedTerms(sel: Selection, terms: seq<string>)
    requires CleanValue(sel.apiVersion) && CleanValue(sel.kind)
    requires terms == Split(sel.residual, ',') && AllTidy(terms)
    ensures TermsOf(Print(sel)) == [API_VERSION + "=" + sel.apiVersion, KIND + "=" + sel.kind] + terms
  {
    var first, second := API_VERSION + "=" + sel.apiVersion, KIND + "=" + sel.kind;
    AssignmentIsTidy(API_VERSION, sel.apiVersion);
    AssignmentIsTidy(KIND, sel.kind);
    SplitPrinted(first, second, sel.residual);
    assert Print(sel) == first + "," + second + "," + sel.residual;
    TrimAllTidy([first, second] + terms);
  }

  lemma AbsorbPrinted(sel: Selection, terms: seq<string>)
    requires CleanValue(sel.apiVersion) && CleanValue(sel.kind)
    ensures AbsorbAll(EMPTY, [API_VERSION + "=" + sel.apiVersion, KIND + "=" + sel.kind] + terms)
            == AbsorbAll(Selection(sel.apiVersion, sel.kind, ""), terms)
  {
    var first, second := API_VERSION + "=" + sel.apiVersion, KIND + "=" + sel.kind;
    AssignmentIsTidy(API_VERSION, sel.apiVersion);
    AssignmentIsTidy(KIND, sel.kind);
    assert !HasPrefix(second, API_VERSION) by { assert second[0] == 'k'; }
    assert Absorb(EMPTY, first) == Selection(sel.apiVersion, "", "");
    assert Absorb(Selection(sel.apiVersion, "", ""), second) == Selection(sel.apiVersion, sel.kind, "");
    assert ([first, second] + terms)[1..] == [second] + terms;
    assert ([second] + terms)[1..] == terms;
  }

  /** Printing what the loop extracted and parsing it again changes nothing, for every query. */
  lemma PrintParse(query: string)
    ensures Parse(Print(Parse(query))) == Parse(query)
  {
    var sel := Parse(query);
    var kept := DropLeadingBlanks(Others(TermsOf(query)));
    TermsAreTidy(query);
    ValuesAreClean(EMPTY, TermsOf(query));
    ResidualIsJoin(query);
    OthersAreKept(TermsOf(query));
    DroppedAreKept(Others(TermsOf(query)));
    DropTwice(Others(TermsOf(query)));
    ResidualTerms(kept);
    PrintedAgain(sel, Split(sel.residual, ','));
  }

  lemma PrintedAgain(sel: Selection, terms: seq<string>)
    requires CleanValue(sel.apiVersion) && CleanValue(sel.kind)
    requires terms == Split(sel.residual, ',') && KeptTerms(terms)
             && Join(DropLeadingBlanks(terms), ',') == sel.residual
    ensures Parse(Print(sel)) == sel
  {
    var start := Selection(sel.apiVersion, sel.kind, "");
    PrintedTerms(sel, terms);
    AbsorbPrinted(sel, terms);
    OthersFixed(terms);
    OthersKeepValues(start, terms);
    ResidualStarts(start, terms);
  }
}
