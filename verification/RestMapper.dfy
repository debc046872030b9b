/** Looking up a kind with one retry: a miss resets the mapper's cache to what the API server
    offers now and asks again. When lookups of the two transaction passes can differ. */
module RestMapper {
  import opened ApiVersions
  import opened TransactionEnv
  import opened Staging

  type Discovery = map<Gvk, Mapping>

  function Answer(d: Discovery, g: Gvk): Lookup {
    if g in d then Found(d[g]) else LookupFailed
  }

  /** The answer to one lookup, and the cache it leaves behind. */
  function Resolve(cached: Discovery, server: Discovery, g: Gvk): (Lookup, Discovery) {
    if g in cached then (Found(cached[g]), cached) else (Answer(server, g), server)
  }

  class Mapper {
    var cached: Discovery

    constructor (initial: Discovery)
      ensures cached == initial
    {
      cached := initial;
    }

    method GetResource(g: Gvk, server: Discovery) returns (r: Lookup)
      modifies this
      ensures (r, cached) == Resolve(old(cached), server, g)
    {
      if g in cached {
        return Found(cached[g]);
      }
      cached := server;
      return if g in cached then Found(cached[g]) else LookupFailed;
    }
  }

  /** The answers to a series of lookups while the server's offer stays the same. */
  function Answers(cached: Discovery, server: Discovery, gs: seq<Gvk>): (answers: seq<Lookup>)
    ensures |answers| == |gs|
    decreases gs
  {
    if gs == [] then []
    else
      var (r, after) := Resolve(cached, server, gs[0]);
      [r] + Answers(after, server, gs[1..])
  }

  /** What is cached is still true, though it may be incomplete. */
  ghost predicate Fresh(cached: Discovery, server: Discovery) {
    forall g | g in cached :: g in server && cached[g] == server[g]
  }

  /** With a fresh cache every lookup of every series gets the server's answer. */
  lemma {:induction false} FreshAnswers(cached: Discovery, server: Discovery, gs: seq<Gvk>)
    requires Fresh(cached, server)
    ensures |Answers(cached, server, gs)| == |gs|
    ensures forall i | 0 <= i < |gs| :: Answers(cached, server, gs)[i] == Answer(server, gs[i])
    decreases gs
  {
    if gs != [] {
      var (_, after) := Resolve(cached, server, gs[0]);
      FreshAnswers(after, server, gs[1..]);
    }
  }

  /** So two passes over the same kinds, with anything looked up in between, are answered alike. */
  lemma PassesAnsweredAlike(cached: Discovery, server: Discovery, gs: seq<Gvk>, between: seq<Gvk>, i: nat)
    requires Fresh(cached, server) && i < |gs|
    ensures var all := Answers(cached, server, gs + between + gs);
            |all| == 2 * |gs| + |between| && all[i] == all[|gs| + |between| + i]
  {
    FreshAnswers(cached, server, gs + between + gs);
  }

  /** The kinds looked up for entries, in order: those that have a version and a kind. */
  function KindsOf(env: Env, ts: seq<Tagged>): seq<Gvk> {
    if ts == [] then []
    else (if NamesKind(env, ts[0]) then [GvkOf(env.decode(ts[0].entry).value)] else []) + KindsOf(env, ts[1..])
  }

  lemma {:induction false} KindIsListed(env: Env, ts: seq<Tagged>, i: nat)
    requires i < |ts| && NamesKind(env, ts[i])
    ensures GvkOf(env.decode(ts[i].entry).value) in KindsOf(env, ts)
  {
    if i > 0 {
      KindIsListed(env, ts[1..], i - 1);
      assert ts[1..][i - 1] == ts[i];
    }
  }

  /** The lookups of the two passes are answered by one mapper, one pass after the other. */
  ghost predicate AnsweredBy(env: Env, ts: seq<Tagged>, cached: Discovery, server: Discovery, between: seq<Gvk>) {
    var kinds := KindsOf(env, ts);
    var answers := Answers(cached, server, kinds + between + kinds);
    forall i | 0 <= i < |kinds| ::
      env.authLookup(kinds[i]) == answers[i] && env.stageLookup(kinds[i]) == answers[|kinds| + |between| + i]
  }

  /** So with such a mapper every entry meets the staging pass's assumption about it. */
  lemma FreshMapsAlike(env: Env, ts: seq<Tagged>, cached: Discovery, server: Discovery, between: seq<Gvk>)
    requires Fresh(cached, server) && AnsweredBy(env, ts, cached, server, between)
    ensures forall i | 0 <= i < |ts| :: MappedAlike(env, ts[i])
  {
    var kinds := KindsOf(env, ts);
    forall i | 0 <= i < |ts| ensures MappedAlike(env, ts[i]) {
      if NamesKind(env, ts[i]) {
        KindIsListed(env, ts, i);
        var j :| 0 <= j < |kinds| && kinds[j] == GvkOf(env.decode(ts[i].entry).value);
        PassesAnsweredAlike(cached, server, kinds, between, j);
      }
    }
  }

  /** With a cache that is not fresh, a kind is answered differently before and after a miss. */
  lemma StaleAnswerChanges(cached: Discovery, server: Discovery, g: Gvk, miss: Gvk)
    requires g in cached && miss !in cached && !(g in server && cached[g] == server[g])
    ensures var all := Answers(cached, server, [g, miss, g]); |all| == 3 && all[0] != all[2]
  {
    assert [g, miss, g][1..] == [miss, g] && [miss, g][1..] == [g] && [g][1..] == [];
    assert Answers(server, server, [g]) == [Answer(server, g)];
    assert Answers(cached, server, [miss, g]) == [Answer(server, miss)] + Answers(server, server, [g]);
  }

  /** A kind the cache does not hold. */
  lemma {:induction false} UncachedKind(kinds: set<Gvk>) returns (miss: Gvk)
    ensures forall g | g in kinds :: |g.kind| < |miss.kind|
  {
    if kinds == {} {
      miss := Gvk("", "", "k");
    } else {
      var g :| g in kinds;
      var m := UncachedKind(kinds - {g});
      miss := Gvk("", "", m.kind + g.kind + "k");
    }
  }

  /** Repeated lookups are answered alike in every series exactly when the cache is fresh. */
  lemma AnsweredAlikeExactly(cached: Discovery, server: Discovery)
    ensures (forall gs, i, j | 0 <= i < j < |gs| && gs[i] == gs[j] ::
               |Answers(cached, server, gs)| == |gs|
               && Answers(cached, server, gs)[i] == Answers(cached, server, gs)[j])
            <==> Fresh(cached, server)
  {
    if Fresh(cached, server) {
      forall gs, i, j | 0 <= i < j < |gs| && gs[i] == gs[j]
        ensures |Answers(cached, server, gs)| == |gs|
                && Answers(cached, server, gs)[i] == Answers(cached, server, gs)[j]
      {
        FreshAnswers(cached, server, gs);
      }
    } else {
      var g :| g in cached && !(g in server && cached[g] == server[g]);
      var miss := UncachedKind(cached.Keys);
      StaleAnswerChanges(cached, server, g, miss);
      var gs := [g, miss, g];
      assert gs[0] == gs[2];
    }
  }
}
