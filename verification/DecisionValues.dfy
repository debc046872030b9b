/** Normalising decoded YAML: maps with keys of any type become string-keyed maps, at every depth.
    The maps are walked in an arbitrary order, and when two keys print alike the last one walked
    wins; so a value may have several normal forms. `Walked` says what the walks arrive at, and
    `NormalizesTo` says it without walks; the two are proved to be the same. */
module DecisionValues {
  import opened Values

  function PrintedKeys(m: map<Key, Value>): set<string> {
    set k | k in m :: Sprint(k)
  }

  // ----- walks -----

  /** The keys in some order, each once. */
  ghost predicate IsWalk<T(!new)>(walk: seq<T>, ks: set<T>) {
    (forall k :: k in walk <==> k in ks) && (forall i, j | 0 <= i < j < |walk| :: walk[i] != walk[j])
  }

  /** Assigning entries under the printed names of their keys, in the order of a walk. */
  function Assign(walk: seq<Key>, entries: map<Key, Value>): map<string, Value> {
    if walk == [] then map[]
    else
      var last := walk[|walk| - 1];
      var before := Assign(walk[..|walk| - 1], entries);
      if last in entries then before[Sprint(last) := entries[last]] else before
  }

  /** `w` is what normalising `v` arrives at when every map with keys of any type is walked in some
      order and every entry is normalised along some walks of its own. */
  ghost predicate Walked(v: Value, w: Value) {
    match v
    case AnyMap(m) =>
      exists walk: seq<Key>, entries: map<Key, Value> ::
        && w == StrMap(Assign(walk, entries)) && IsWalk(walk, m.Keys) && entries.Keys == m.Keys
        && forall k | k in m :: Walked(m[k], entries[k])
    case StrMap(m) =>
      w.StrMap? && w.entries.Keys == m.Keys && forall s | s in m :: Walked(m[s], w.entries[s])
    case List(items) =>
      w.List? && |w.items| == |items| && forall i | 0 <= i < |items| :: Walked(items[i], w.items[i])
    case _ => w == v
  }

  /** The same without walks: every name is won by one of the keys that print it. */
  ghost predicate NormalizesTo(v: Value, w: Value) {
    match v
    case AnyMap(m) =>
      && w.StrMap? && w.entries.Keys == PrintedKeys(m)
      && forall s | s in w.entries :: exists k :: k in m && Sprint(k) == s && NormalizesTo(m[k], w.entries[s])
    case StrMap(m) =>
      w.StrMap? && w.entries.Keys == m.Keys && forall s | s in m :: NormalizesTo(m[s], w.entries[s])
    case List(items) =>
      w.List? && |w.items| == |items| && forall i | 0 <= i < |items| :: NormalizesTo(items[i], w.items[i])
    case _ => w == v
  }

  lemma {:induction false} AssignFrom(walk: seq<Key>, entries: map<Key, Value>)
    requires forall k | k in walk :: k in entries
    ensures forall s :: s in Assign(walk, entries) <==> exists k :: k in walk && Sprint(k) == s
    ensures forall s | s in Assign(walk, entries) ::
              exists k :: k in walk && Sprint(k) == s && Assign(walk, entries)[s] == entries[k]
  {
    if walk != [] {
      var n := |walk| - 1;
      AssignFrom(walk[..n], entries);
      var all, before := Assign(walk, entries), Assign(walk[..n], entries);
      forall s | s in all ensures exists k :: k in walk && Sprint(k) == s && all[s] == entries[k] {
        if s == Sprint(walk[n]) {
          assert walk[n] in walk;
        } else {
          var k :| k in walk[..n] && Sprint(k) == s && before[s] == entries[k];
        }
      }
      forall s | exists k :: k in walk && Sprint(k) == s ensures s in all {
        var k :| k in walk && Sprint(k) == s;
        if k != walk[n] { assert k in walk[..n]; }
      }
    }
  }

  lemma {:induction false} AssignAppend(a: seq<Key>, b: seq<Key>, entries: map<Key, Value>)
    ensures Assign(a + b, entries) == Assign(a, entries) + Assign(b, entries)
  {
    if b == [] {
      assert a + b == a;
    } else {
      AssignAppend(a, b[..|b| - 1], entries);
      assert (a + b)[..|a + b| - 1] == a + b[..|b| - 1];
    }
  }

  lemma {:induction false} WalkOf<T(!new)>(ks: set<T>) returns (walk: seq<T>)
    ensures IsWalk(walk, ks)
  {
    walk := [];
    if ks != {} {
      var k :| k in ks;
      walk := WalkOf(ks - {k});
      walk := walk + [k];
    }
  }

  /** One key for every name printed by the keys of a map. */
  ghost predicate Winners(entries: map<Key, Value>, wins: map<string, Key>) {
    && wins.Keys == PrintedKeys(entries)
    && forall s | s in wins :: wins[s] in entries && Sprint(wins[s]) == s
  }

  function Won(entries: map<Key, Value>, wins: map<string, Key>): map<string, Value>
    requires forall s | s in wins :: wins[s] in entries
  {
    map s | s in wins :: entries[wins[s]]
  }

  lemma OnlyWinners(winners: seq<Key>, entries: map<Key, Value>, wins: map<string, Key>)
    requires Winners(entries, wins) && forall k :: k in winners <==> k in wins.Values
    ensures Assign(winners, entries) == Won(entries, wins)
  {
    AssignFrom(winners, entries);
    var won := Assign(winners, entries);
    forall s ensures s in won <==> s in wins {
      if s in wins { assert wins[s] in winners && Sprint(wins[s]) == s; }
      if s in won { var k :| k in winners && Sprint(k) == s; }
    }
    forall s | s in wins ensures won[s] == entries[wins[s]] {
      var k :| k in winners && Sprint(k) == s && won[s] == entries[k];
      var s' :| s' in wins && wins[s'] == k;
    }
  }

  /** However one winner is chosen for every printed name, there is a walk of the map in which all
      of them win: the losers first. */
  lemma AnyWinnersCanWin(entries: map<Key, Value>, wins: map<string, Key>) returns (walk: seq<Key>)
    requires Winners(entries, wins)
    ensures IsWalk(walk, entries.Keys)
    ensures Assign(walk, entries) == Won(entries, wins)
  {
    var last := wins.Values;
    assert last <= entries.Keys;
    var losers := WalkOf(entries.Keys - last);
    var winners := WalkOf(last);
    walk := losers + winners;
    WalksJoin(losers, entries.Keys - last, winners, last);
    assert entries.Keys - last + last == entries.Keys;
    LosersFirst(losers, winners, entries, wins);
  }

  lemma LosersFirst(losers: seq<Key>, winners: seq<Key>, entries: map<Key, Value>, wins: map<string, Key>)
    requires Winners(entries, wins)
    requires (forall k | k in losers :: k in entries) && forall k :: k in winners <==> k in wins.Values
    ensures Assign(losers + winners, entries) == Won(entries, wins)
  {
    AssignAppend(losers, winners, entries);
    OnlyWinners(winners, entries, wins);
    LosersAreCovered(losers, entries, wins);
  }

  lemma WalksJoin<T(!new)>(a: seq<T>, ks: set<T>, b: seq<T>, ls: set<T>)
    requires IsWalk(a, ks) && IsWalk(b, ls) && ks !! ls
    ensures IsWalk(a + b, ks + ls)
  {
    forall i, j | 0 <= i < j < |a + b| ensures (a + b)[i] != (a + b)[j] {
      if i < |a| <= j { assert a[i] in ks && b[j - |a|] in ls; }
    }
  }

  lemma LosersAreCovered(losers: seq<Key>, entries: map<Key, Value>, wins: map<string, Key>)
    requires Winners(entries, wins) && forall k | k in losers :: k in entries
    ensures Assign(losers, entries).Keys <= wins.Keys
  {
    AssignFrom(losers, entries);
    forall s | s in Assign(losers, entries) ensures s in wins {
      var k :| k in losers && Sprint(k) == s;
    }
  }

  /** Every walk arrives at a normal form. */
  lemma {:induction false} WalkedNormalizes(v: Value, w: Value)
    requires Walked(v, w)
    ensures NormalizesTo(v, w)
    decreases v
  {
    match v {
      case AnyMap(m) =>
        var walk: seq<Key>, entries: map<Key, Value> :|
          && w == StrMap(Assign(walk, entries)) && IsWalk(walk, m.Keys) && entries.Keys == m.Keys
          && forall k | k in m :: Walked(m[k], entries[k]);
        AssignFrom(walk, entries);
        forall s ensures s in w.entries <==> s in PrintedKeys(m) {
        }
        forall s | s in w.entries ensures exists k :: k in m && Sprint(k) == s && NormalizesTo(m[k], w.entries[s]) {
          var k :| k in walk && Sprint(k) == s && w.entries[s] == entries[k];
          WalkedNormalizes(m[k], entries[k]);
        }
      case StrMap(m) =>
        forall s | s in m ensures NormalizesTo(m[s], w.entries[s]) {
          WalkedNormalizes(m[s], w.entries[s]);
        }
      case List(items) =>
        forall i | 0 <= i < |items| ensures NormalizesTo(items[i], w.items[i]) {
          WalkedNormalizes(items[i], w.items[i]);
        }
      case _ =>
    }
  }

  ghost function WinnerIn(m: map<Key, Value>, w: Value, s: string): (k: Key)
    requires NormalizesTo(AnyMap(m), w) && s in w.entries
    ensures k in m && Sprint(k) == s && NormalizesTo(m[k], w.entries[s])
  {
    var k :| k in m && Sprint(k) == s && NormalizesTo(m[k], w.entries[s]); k
  }

  /** The winners of a normal form, and what each key is normalised to on the way: a winner to the
      entry it wins, a loser to any normal form. */
  ghost function WinsOf(m: map<Key, Value>, w: Value): (wins: map<string, Key>)
    requires NormalizesTo(AnyMap(m), w)
    ensures wins.Keys == PrintedKeys(m)
    ensures forall s | s in wins :: wins[s] in m && Sprint(wins[s]) == s && NormalizesTo(m[wins[s]], w.entries[s])
  {
    map s | s in w.entries :: WinnerIn(m, w, s)
  }

  ghost function EntriesOf(m: map<Key, Value>, w: Value): (entries: map<Key, Value>)
    requires NormalizesTo(AnyMap(m), w)
    ensures entries.Keys == m.Keys
  {
    map k | k in m :: EntryOf(m, w, k)
  }

  ghost function EntryOf(m: map<Key, Value>, w: Value, k: Key): Value
    requires NormalizesTo(AnyMap(m), w) && k in m
  {
    if k == WinsOf(m, w)[Sprint(k)] then w.entries[Sprint(k)] else Canon(m[k])
  }

  lemma EntryIsNormalForm(m: map<Key, Value>, w: Value, k: Key)
    requires NormalizesTo(AnyMap(m), w) && k in m
    ensures NormalizesTo(m[k], EntryOf(m, w, k))
  {
    CanonIsNormalForm(m[k]);
  }

  lemma WonIs(entries: map<Key, Value>, wins: map<string, Key>, e: map<string, Value>)
    requires wins.Keys == e.Keys && forall s | s in wins :: wins[s] in entries && entries[wins[s]] == e[s]
    ensures Won(entries, wins) == e
  {
  }

  lemma WinsBack(m: map<Key, Value>, w: Value)
    requires NormalizesTo(AnyMap(m), w)
    ensures Won(EntriesOf(m, w), WinsOf(m, w)) == w.entries
  {
    WonIs(EntriesOf(m, w), WinsOf(m, w), w.entries);
  }

  lemma MapIsWalked(m: map<Key, Value>, w: Value)
    requires NormalizesTo(AnyMap(m), w) && forall k | k in m :: Walked(m[k], EntriesOf(m, w)[k])
    ensures Walked(AnyMap(m), w)
  {
    var wins, entries := WinsOf(m, w), EntriesOf(m, w);
    assert PrintedKeys(entries) == PrintedKeys(m);
    var walk := AnyWinnersCanWin(entries, wins);
    WinsBack(m, w);
    assert w == StrMap(Assign(walk, entries)) && IsWalk(walk, m.Keys);
  }

  /** Every normal form is arrived at by some walk: the winner of every name goes last, along the
      walks that give its entry. */
  lemma {:induction false} NormalFormIsWalked(v: Value, w: Value)
    requires NormalizesTo(v, w)
    ensures Walked(v, w)
    decreases v
  {
    match v {
      case AnyMap(m) =>
        forall k | k in m ensures Walked(m[k], EntriesOf(m, w)[k]) {
          EntryIsNormalForm(m, w, k);
          NormalFormIsWalked(m[k], EntryOf(m, w, k));
        }
        MapIsWalked(m, w);
      case StrMap(m) => forall s | s in m ensures Walked(m[s], w.entries[s]) { NormalFormIsWalked(m[s], w.entries[s]); }
      case List(items) =>
        forall i | 0 <= i < |items| ensures Walked(items[i], w.items[i]) { NormalFormIsWalked(items[i], w.items[i]); }
      case _ =>
    }
  }

  lemma CanonIsWalked(v: Value)
    ensures Walked(v, Canon(v))
  {
    CanonIsNormalForm(v);
    NormalFormIsWalked(v, Canon(v));
  }

  /** The results of all walks are exactly the normal forms. */
  lemma WalkedExactly(v: Value, w: Value)
    ensures Walked(v, w) <==> NormalizesTo(v, w)
  {
    if Walked(v, w) { WalkedNormalizes(v, w); }
    if NormalizesTo(v, w) { NormalFormIsWalked(v, w); }
  }

  // ----- the normaliser -----

  lemma {:induction false} AssignMore(walk: seq<Key>, entries: map<Key, Value>, k: Key, entry: Value)
    requires k !in walk
    ensures Assign(walk, entries[k := entry]) == Assign(walk, entries)
  {
    if walk != [] {
      AssignMore(walk[..|walk| - 1], entries, k, entry);
    }
  }

  lemma AssignNext(walk: seq<Key>, entries: map<Key, Value>, k: Key, entry: Value)
    requires k !in walk
    ensures Assign(walk + [k], entries[k := entry]) == Assign(walk, entries)[Sprint(k) := entry]
  {
    AssignMore(walk, entries, k, entry);
    assert (walk + [k])[..|walk|] == walk;
  }

  /** The recursive normaliser. Each map is walked in whatever order its keys come. */
  method NormalizeValue(v: Value) returns (w: Value)
    ensures Walked(v, w)
    decreases v
  {
    match v {
      case AnyMap(m) =>
        var normalized: map<string, Value> := map[];
        ghost var walk: seq<Key>, entries: map<Key, Value> := [], map[];
        var todo := m.Keys;
        while todo != {}
          invariant todo <= m.Keys && entries.Keys == m.Keys - todo
          invariant IsWalk(walk, m.Keys - todo) && normalized == Assign(walk, entries)
          invariant forall k | k in entries :: Walked(m[k], entries[k])
          decreases todo
        {
          var k :| k in todo;
          var entry := NormalizeValue(m[k]);
          AssignNext(walk, entries, k, entry);
          normalized := normalized[Sprint(k) := entry];
          todo := todo - {k};
          walk, entries := walk + [k], entries[k := entry];
        }
        w := StrMap(normalized);
        assert IsWalk(walk, m.Keys);
      case StrMap(m) =>
        var normalized: map<string, Value> := map[];
        var todo := m.Keys;
        while todo != {}
          invariant todo <= m.Keys && normalized.Keys == m.Keys - todo
          invariant forall s | s in normalized :: Walked(m[s], normalized[s])
          decreases todo
        {
          var k :| k in todo;
          var entry := NormalizeValue(m[k]);
          normalized := normalized[k := entry];
          todo := todo - {k};
        }
        w := StrMap(normalized);
      case List(items) =>
        var normalized: seq<Value> := [];
        for i := 0 to |items|
          invariant |normalized| == i && forall j | 0 <= j < i :: Walked(items[j], normalized[j])
        {
          var entry := NormalizeValue(items[i]);
          normalized := normalized + [entry];
        }
        w := List(normalized);
      case _ =>
        w := v;
    }
  }

  // ----- normal form -----

  /** No map with keys of any type, at any depth. */
  predicate Normal(v: Value) {
    match v
    case AnyMap(_) => false
    case StrMap(m) => forall s | s in m :: Normal(m[s])
    case List(items) => forall i | 0 <= i < |items| :: Normal(items[i])
    case _ => true
  }

  lemma {:induction false} ResultIsNormal(v: Value, w: Value)
    requires NormalizesTo(v, w)
    ensures Normal(w)
    decreases v
  {
    match v {
      case AnyMap(m) =>
        forall s | s in w.entries ensures Normal(w.entries[s]) {
          var k :| k in m && Sprint(k) == s && NormalizesTo(m[k], w.entries[s]);
          ResultIsNormal(m[k], w.entries[s]);
        }
      case StrMap(m) => forall s | s in m ensures Normal(w.entries[s]) { ResultIsNormal(m[s], w.entries[s]); }
      case List(items) =>
        forall i | 0 <= i < |items| ensures Normal(w.items[i]) {
          ResultIsNormal(items[i], w.items[i]);
        }
      case _ =>
    }
  }

  /** A normal value normalises to itself and to nothing else. */
  lemma {:induction false} NormalIsFixed(v: Value, w: Value)
    requires Normal(v)
    ensures NormalizesTo(v, w) <==> w == v
    decreases v
  {
    match v {
      case StrMap(m) =>
        forall s | s in m ensures NormalizesTo(m[s], m[s]) { NormalIsFixed(m[s], m[s]); }
        if NormalizesTo(v, w) {
          forall s | s in m ensures w.entries[s] == m[s] { NormalIsFixed(m[s], w.entries[s]); }
          assert w.entries == m;
        }
      case List(items) =>
        forall i | 0 <= i < |items| ensures NormalizesTo(items[i], items[i]) { NormalIsFixed(items[i], items[i]); }
        if NormalizesTo(v, w) {
          forall i | 0 <= i < |items| ensures w.items[i] == items[i] { NormalIsFixed(items[i], w.items[i]); }
          assert w.items == items;
        }
      case _ =>
    }
  }

  /** Normalising twice is normalising once, whatever the walks. */
  lemma Idempotent(v: Value, w: Value, w': Value)
    requires NormalizesTo(v, w)
    ensures NormalizesTo(w, w') <==> w' == w
  {
    ResultIsNormal(v, w);
    NormalIsFixed(w, w');
  }

  /** No two keys of the map print alike. */
  ghost predicate PrintsApart(m: map<Key, Value>) {
    forall k, k' | k in m && k' in m && k != k' :: Sprint(k) != Sprint(k')
  }

  lemma {:induction false} PrintedCount(ks: set<Key>)
    ensures |set k | k in ks :: Sprint(k)| <= |ks|
    ensures |set k | k in ks :: Sprint(k)| == |ks|
            <==> forall k, k' | k in ks && k' in ks && k != k' :: Sprint(k) != Sprint(k')
  {
    if ks != {} {
      var k :| k in ks;
      var rest := ks - {k};
      PrintedCount(rest);
      var all, others := (set j | j in ks :: Sprint(j)), (set j | j in rest :: Sprint(j));
      assert all == others + {Sprint(k)};
      if Sprint(k) in others {
        var j :| j in rest && Sprint(j) == Sprint(k);
        assert all == others;
      } else {
        assert forall j | j in rest :: Sprint(j) != Sprint(k);
        assert |all| == |others| + 1;
      }
    }
  }

  /** A map keeps its size exactly when no two of its keys print alike; otherwise entries are lost. */
  lemma SizeKeptExactly(m: map<Key, Value>, w: Value)
    requires NormalizesTo(AnyMap(m), w)
    ensures |w.entries| <= |m|
    ensures |w.entries| == |m| <==> PrintsApart(m)
  {
    PrintedCount(m.Keys);
    assert PrintedKeys(m) == set k | k in m.Keys :: Sprint(k);
    assert |w.entries| == |w.entries.Keys| && |m| == |m.Keys|;
  }

  /** In particular it does when its keys are integers, booleans and nil. */
  lemma ScalarKeysKeepSize(m: map<Key, Value>, w: Value)
    requires Walked(AnyMap(m), w) && forall k | k in m :: !k.KString? && !k.KOther?
    ensures PrintsApart(m) && |w.entries| == |m|
  {
    forall k, k' | k in m && k' in m && k != k' ensures Sprint(k) != Sprint(k') { ScalarsPrintApart(k, k'); }
    WalkedNormalizes(AnyMap(m), w);
    SizeKeptExactly(m, w);
  }

  // ----- when the walk does not matter -----

  ghost function Winner(m: map<Key, Value>, s: string): (k: Key)
    requires s in PrintedKeys(m)
    ensures k in m && Sprint(k) == s
  {
    var k :| k in m && Sprint(k) == s; k
  }

  /** One of the normal forms. */
  ghost function Canon(v: Value): Value {
    match v
    case AnyMap(m) => StrMap(map s | s in PrintedKeys(m) :: var k := Winner(m, s); Canon(m[k]))
    case StrMap(m) => StrMap(map s | s in m :: Canon(m[s]))
    case List(items) => List(seq(|items|, i requires 0 <= i < |items| => Canon(items[i])))
    case _ => v
  }

  lemma {:induction false} CanonIsNormalForm(v: Value)
    ensures NormalizesTo(v, Canon(v))
    decreases v
  {
    match v {
      case AnyMap(m) =>
        forall s | s in PrintedKeys(m)
          ensures exists k :: k in m && Sprint(k) == s && NormalizesTo(m[k], Canon(v).entries[s])
        {
          CanonIsNormalForm(m[Winner(m, s)]);
        }
      case StrMap(m) => forall s | s in m ensures NormalizesTo(m[s], Canon(m[s])) { CanonIsNormalForm(m[s]); }
      case List(items) =>
        forall i | 0 <= i < |items| ensures NormalizesTo(items[i], Canon(items[i])) { CanonIsNormalForm(items[i]); }
      case _ =>
    }
  }

  /** Keys that print alike carry values with the same normal form, at every depth. */
  ghost predicate Agreeing(v: Value) {
    match v
    case AnyMap(m) =>
      && (forall k | k in m :: Agreeing(m[k]))
      && (forall k, k' | k in m && k' in m && Sprint(k) == Sprint(k') :: Canon(m[k]) == Canon(m[k']))
    case StrMap(m) => forall s | s in m :: Agreeing(m[s])
    case List(items) => forall i | 0 <= i < |items| :: Agreeing(items[i])
    case _ => true
  }

  lemma {:induction false} AgreeingIsUnique(v: Value, w: Value)
    requires Agreeing(v) && NormalizesTo(v, w)
    ensures w == Canon(v)
    decreases v
  {
    match v {
      case AnyMap(m) =>
        forall s | s in w.entries ensures w.entries[s] == Canon(v).entries[s] {
          var k :| k in m && Sprint(k) == s && NormalizesTo(m[k], w.entries[s]);
          AgreeingIsUnique(m[k], w.entries[s]);
          assert Canon(m[k]) == Canon(m[Winner(m, s)]);
        }
        assert w.entries == Canon(v).entries;
      case StrMap(m) =>
        forall s | s in m ensures w.entries[s] == Canon(m[s]) { AgreeingIsUnique(m[s], w.entries[s]); }
        assert w.entries == Canon(v).entries;
      case List(items) =>
        forall i | 0 <= i < |items| ensures w.items[i] == Canon(items[i]) { AgreeingIsUnique(items[i], w.items[i]); }
        assert w.items == Canon(v).items;
      case _ =>
    }
  }

  /** Any entry of a normal form may be replaced by any normal form of a value that may win it. */
  lemma ReplaceEntry(m: map<Key, Value>, k: Key, a: Value)
    requires k in m && NormalizesTo(m[k], a)
    ensures NormalizesTo(AnyMap(m), StrMap(Canon(AnyMap(m)).entries[Sprint(k) := a]))
  {
    var base := Canon(AnyMap(m)).entries;
    CanonIsNormalForm(AnyMap(m));
    var w := base[Sprint(k) := a];
    assert w.Keys == PrintedKeys(m);
    forall s | s in w ensures exists k' :: k' in m && Sprint(k') == s && NormalizesTo(m[k'], w[s]) {
      if s == Sprint(k) { assert NormalizesTo(m[k], w[s]); } else { assert w[s] == base[s]; }
    }
  }

  /** Two different entries that may win one name give two normal forms. */
  lemma TwoEntries(m: map<Key, Value>, k: Key, a: Value, k': Key, b: Value) returns (w1: Value, w2: Value)
    requires k in m && k' in m && Sprint(k) == Sprint(k') && NormalizesTo(m[k], a) && NormalizesTo(m[k'], b) && a != b
    ensures NormalizesTo(AnyMap(m), w1) && NormalizesTo(AnyMap(m), w2) && w1 != w2
  {
    var base := Canon(AnyMap(m)).entries;
    ReplaceEntry(m, k, a);
    ReplaceEntry(m, k', b);
    w1, w2 := StrMap(base[Sprint(k) := a]), StrMap(base[Sprint(k) := b]);
    assert w1.entries[Sprint(k)] != w2.entries[Sprint(k)];
  }

  lemma {:induction false} DisagreeingHasTwo(v: Value) returns (w1: Value, w2: Value)
    requires !Agreeing(v)
    ensures NormalizesTo(v, w1) && NormalizesTo(v, w2) && w1 != w2
    decreases v
  {
    CanonIsNormalForm(v);
    match v {
      case AnyMap(m) =>
        if k :| k in m && !Agreeing(m[k]) {
          var a, b := DisagreeingHasTwo(m[k]);
          w1, w2 := TwoEntries(m, k, a, k, b);
        } else {
          var k, k' :| k in m && k' in m && Sprint(k) == Sprint(k') && Canon(m[k]) != Canon(m[k']);
          CanonIsNormalForm(m[k]);
          CanonIsNormalForm(m[k']);
          w1, w2 := TwoEntries(m, k, Canon(m[k]), k', Canon(m[k']));
        }
      case StrMap(m) =>
        var s :| s in m && !Agreeing(m[s]);
        var a, b := DisagreeingHasTwo(m[s]);
        w1, w2 := StrMap(Canon(v).entries[s := a]), StrMap(Canon(v).entries[s := b]);
        assert w1.entries[s] != w2.entries[s];
      case List(items) =>
        var i :| 0 <= i < |items| && !Agreeing(items[i]);
        var a, b := DisagreeingHasTwo(items[i]);
        w1, w2 := List(Canon(v).items[i := a]), List(Canon(v).items[i := b]);
        assert w1.items[i] != w2.items[i];
      case _ =>
    }
  }

  ghost predicate WalkIndependent(v: Value) {
    forall w1, w2 | Walked(v, w1) && Walked(v, w2) :: w1 == w2
  }

  /** Normalisation does not depend on the order of map walks exactly when keys that print alike
      carry values with the same normal form, at every depth. */
  lemma WalkIndependentExactly(v: Value)
    ensures WalkIndependent(v) <==> Agreeing(v)
  {
    if Agreeing(v) {
      forall w1, w2 | Walked(v, w1) && Walked(v, w2) ensures w1 == w2 {
        WalkedNormalizes(v, w1);
        WalkedNormalizes(v, w2);
        AgreeingIsUnique(v, w1);
        AgreeingIsUnique(v, w2);
      }
    } else {
      var w1, w2 := DisagreeingHasTwo(v);
      NormalFormIsWalked(v, w1);
      NormalFormIsWalked(v, w2);
    }
  }

  /** In particular when no two keys of any map print alike. */
  ghost predicate PrintsApartDeep(v: Value) {
    match v
    case AnyMap(m) => PrintsApart(m) && forall k | k in m :: PrintsApartDeep(m[k])
    case StrMap(m) => forall s | s in m :: PrintsApartDeep(m[s])
    case List(items) => forall i | 0 <= i < |items| :: PrintsApartDeep(items[i])
    case _ => true
  }

  lemma {:induction false} ApartIsAgreeing(v: Value)
    requires PrintsApartDeep(v)
    ensures Agreeing(v)
    decreases v
  {
    match v {
      case AnyMap(m) => forall k | k in m ensures Agreeing(m[k]) { ApartIsAgreeing(m[k]); }
      case StrMap(m) => forall s | s in m ensures Agreeing(m[s]) { ApartIsAgreeing(m[s]); }
      case List(items) => forall i | 0 <= i < |items| ensures Agreeing(items[i]) { ApartIsAgreeing(items[i]); }
      case _ =>
    }
  }
}
