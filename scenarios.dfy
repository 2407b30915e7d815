// Whole passes over particular kinds of input, for every random choice.

module IsotropicScenarios {
  import opened AutomatchModel
  import opened Isotropic
  import opened IsotropicProperties
  import opened IsotropicPassProperties

  /** Pair (Tiers[t], Sizes[k]) has too few candidates, so it changes nothing. */
  ghost predicate Idle(pool: seq<Seek>, t: nat, k: nat)
    requires t < |Tiers| && k < |Sizes|
  {
    |Candidates(pool, Sizes[k], Tiers[t])| < Sizes[k]
  }

  /** The pairs with slots in [5 * t + k, 5 * t2 + k2) each have too few candidates. */
  ghost predicate IdleBetween(pool: seq<Seek>, t: nat, k: nat, t2: nat, k2: nat) {
    forall t': nat, k': nat | t' < |Tiers| && k' < |Sizes| && 5 * t + k <= 5 * t' + k' < 5 * t2 + k2 ::
      Idle(pool, t', k')
  }

  /** Pairs with too few candidates are skipped: the pass goes on from the
      first pair that is not idle with the state unchanged. */
  lemma {:induction false} SkipIdle(st: Pass, t: nat, k: nat, t2: nat, k2: nat, ok: MatchOk, draws: Draws)
    requires t <= |Tiers| && k <= |Sizes| && (t < |Tiers| || k == 0)
    requires t2 <= |Tiers| && k2 <= |Sizes| && (t2 < |Tiers| || k2 == 0)
    requires 5 * t + k <= 5 * t2 + k2
    requires IdleBetween(st.pool, t, k, t2, k2)
    ensures RunPairs(st, t, k, ok, draws) == RunPairs(st, t2, k2, ok, draws)
    decreases |Tiers| - t, |Sizes| - k, 1
  {
    if t == t2 && k == k2 {
    } else if k == |Sizes| {
      SkipTier(st, t, t2, k2, ok, draws);
    } else if 5 * t + k == 5 * t2 + k2 {
      assert RunPairs(st, t2, k2, ok, draws) == RunPairs(st, t, k, ok, draws);
    } else {
      SkipPair(st, t, k, t2, k2, ok, draws);
    }
  }

  /** SkipIdle past the end of a tier. */
  lemma {:induction false} SkipTier(st: Pass, t: nat, t2: nat, k2: nat, ok: MatchOk, draws: Draws)
    requires t < |Tiers|
    requires t2 <= |Tiers| && k2 <= |Sizes| && (t2 < |Tiers| || k2 == 0)
    requires 5 * t + |Sizes| <= 5 * t2 + k2
    requires IdleBetween(st.pool, t, |Sizes|, t2, k2)
    ensures RunPairs(st, t, |Sizes|, ok, draws) == RunPairs(st, t2, k2, ok, draws)
    decreases |Tiers| - t, 0, 0
  {
    assert RunPairs(st, t, |Sizes|, ok, draws) == RunPairs(st, t + 1, 0, ok, draws);
    SkipIdle(st, t + 1, 0, t2, k2, ok, draws);
  }

  /** SkipIdle over one idle pair. */
  lemma {:induction false} SkipPair(st: Pass, t: nat, k: nat, t2: nat, k2: nat, ok: MatchOk, draws: Draws)
    requires t < |Tiers| && k < |Sizes|
    requires t2 <= |Tiers| && k2 <= |Sizes| && (t2 < |Tiers| || k2 == 0)
    requires 5 * t + k < 5 * t2 + k2
    requires IdleBetween(st.pool, t, k, t2, k2)
    ensures RunPairs(st, t, k, ok, draws) == RunPairs(st, t2, k2, ok, draws)
    decreases |Tiers| - t, |Sizes| - k, 0
  {
    assert Idle(st.pool, t, k);
    assert RunPairs(st, t, k, ok, draws) == RunPairs(st, t, k + 1, ok, draws);
    SkipIdle(st, t, k + 1, t2, k2, ok, draws);
  }

  /** A list holding two different values has at least two elements. */
  lemma TwoMembers(q: seq<Seek>, a: Seek, b: Seek)
    requires a in q && b in q && a != b
    ensures |q| >= 2
  {
    var i :| 0 <= i < |q| && q[i] == a;
    var j :| 0 <= j < |q| && q[j] == b;
    assert i != j;
  }

  /** The requirements of a seek that wants exactly a casual two-player game. */
  const CasualPair: seq<Requirement> := [NumPlayers(2, 2), RatingSystem("casual")]

  lemma CasualPairAccepts(e: Seek, n: int, rsys: string)
    requires e.requirements == CasualPair
    ensures Accepts(n, rsys, e) <==> n == 2 && rsys == "casual"
  {
    assert e.requirements[0].NumPlayers? && e.requirements[1].RatingSystem?;
  }

  /** Only the casual two-player pair has candidates when every seek wants exactly that. */
  lemma CasualPairIdle(pool: seq<Seek>, seeks: seq<Seek>, t: nat, k: nat)
    requires t < |Tiers| && k < |Sizes| && (t != 1 || k != 4)
    requires forall i | 0 <= i < |seeks| :: seeks[i].requirements == CasualPair
    requires forall e | e in pool :: e in seeks
    ensures |Candidates(pool, Sizes[k], Tiers[t])| == 0
    ensures Idle(pool, t, k)
  {
    SizesDescend(k);
    assert t == 0 || t == 1 || t == 2;
    var c := Candidates(pool, Sizes[k], Tiers[t]);
    if |c| > 0 {
      assert c[0] in c;
      CasualPairAccepts(c[0], Sizes[k], Tiers[t]);
    }
  }

  /** One pair step of the pass. */
  lemma RunPairsStep(st: Pass, t: nat, k: nat, ok: MatchOk, draws: Draws)
    requires t < |Tiers| && k < |Sizes|
    ensures RunPairs(st, t, k, ok, draws) ==
      match PairStep(st, t, Sizes[k], ok, draws)
      case Err(e) => Err(e)
      case Ok(st') => RunPairs(st', t, k + 1, ok, draws)
  {
  }

  /** The step of a pair whose trials end with a match. */
  lemma PairStepOnMatch(st: Pass, t: nat, n: nat, ok: MatchOk, draws: Draws, x: Seek, rest: seq<Seek>,
                        players: seq<Seek>, h: Player)
    requires t < |Tiers| && 1 <= n && |Candidates(st.pool, n, Tiers[t])| >= n
    requires var s := Candidates(st.pool, n, Tiers[t]);
      var idx := draws.pick(t, n) % |s|;
      x == s[idx] && rest == s[..idx] + s[idx + 1..]
    requires Trials(t, n, x, rest, 0, ok, draws) == Matched(players, h)
    ensures PairStep(st, t, n, ok, draws) ==
      Ok(Pass(Without(st.pool, players), st.matches + [MakeRecord(players, Tiers[t], h)]))
  {
  }

  /** The pair (casual, 2) of CasualPairsOneMatch: its first trial has a host. */
  lemma CasualPairMatch(seeks: seq<Seek>, st0: Pass, ok: MatchOk, draws: Draws) returns (st1: Pass)
    requires Distinct(seeks) && |seeks| >= 2
    requires forall i | 0 <= i < |seeks| :: seeks[i].requirements == CasualPair
    requires forall i | 0 <= i < |seeks| :: SetCount(seeks[i].player) >= 1
    requires forall g, rsys, h :: ok(g, rsys, h)
    requires st0 == Pass(Dedup(seeks), [])
    ensures RunPairs(st0, 1, 4, ok, draws) == RunPairs(st1, 1, 5, ok, draws)
    ensures |st1.matches| == 1 && st1.matches[0].ratingSystem == "casual" && |st1.matches[0].seeks| == 2
    ensures forall e | e in st1.pool :: e in seeks
  {
    var s := Candidates(st0.pool, 2, "casual");
    CasualPairAccepts(seeks[0], 2, "casual");
    CasualPairAccepts(seeks[1], 2, "casual");
    TwoMembers(s, seeks[0], seeks[1]);
    var idx := draws.pick(1, 2) % |s|;
    var x := s[idx];
    var rest := s[..idx] + s[idx + 1..];
    var s' := TrialShuffle(rest, draws, 1, 2, 0);
    var players := [x] + s'[..1];
    assert players[0] == x && x in seeks;
    SelectHostChoosesFirstMost(players, "casual", ok);
    assert Legal(players, "casual", ok, players[0].player);
    var h := SelectHost(players, "casual", ok).host;
    assert Trials(1, 2, x, rest, 0, ok, draws) == Matched(players, h);
    PairStepOnMatch(st0, 1, 2, ok, draws, x, rest, players, h);
    st1 := Pass(Without(st0.pool, players), st0.matches + [MakeRecord(players, Tiers[1], h)]);
    SizesDescend(4);
    RunPairsStep(st0, 1, 4, ok, draws);
  }

  /** Any number, from two up, of different seeks that each want exactly a
      casual two-player game, when every host is acceptable and every player
      owns a set: the pass emits exactly one casual two-player match, whatever
      the random choices. There is no `while |S| >= N` loop: each (tier, N)
      pair pops one seek and emits at most one match. */
  lemma CasualPairsOneMatch(seeks: seq<Seek>, ok: MatchOk, draws: Draws)
    requires Distinct(seeks) && |seeks| >= 2
    requires forall i | 0 <= i < |seeks| :: seeks[i].requirements == CasualPair
    requires forall i | 0 <= i < |seeks| :: SetCount(seeks[i].player) >= 1
    requires forall g, rsys, h :: ok(g, rsys, h)
    ensures Generate(seeks, ok, draws).Ok?
    ensures |Generate(seeks, ok, draws).value| == 1
    ensures Generate(seeks, ok, draws).value[0].ratingSystem == "casual"
    ensures |Generate(seeks, ok, draws).value[0].seeks| == 2
  {
    var pool := Dedup(seeks);
    var st0 := Pass(pool, []);
    forall t': nat, k': nat | t' < |Tiers| && k' < |Sizes| && 0 <= 5 * t' + k' < 9
      ensures Idle(pool, t', k')
    {
      CasualPairIdle(pool, seeks, t', k');
    }
    SkipIdle(st0, 0, 0, 1, 4, ok, draws);
    var st1 := CasualPairMatch(seeks, st0, ok, draws);
    forall t': nat, k': nat | t' < |Tiers| && k' < |Sizes| && 10 <= 5 * t' + k' < 15
      ensures Idle(st1.pool, t', k')
    {
      CasualPairIdle(st1.pool, seeks, t', k');
    }
    SkipIdle(st1, 1, 5, 3, 0, ok, draws);
  }

  /** At most three seeks that each want a game of four to six players: no pair
      has enough candidates, so the pass emits nothing, whatever the random
      choices and the feasibility oracle. */
  lemma TooFewForFour(seeks: seq<Seek>, ok: MatchOk, draws: Draws)
    requires |seeks| <= 3
    requires forall i | 0 <= i < |seeks| :: seeks[i].requirements == [NumPlayers(4, 6)]
    ensures Generate(seeks, ok, draws) == Ok([])
  {
    var pool := Dedup(seeks);
    forall t': nat, k': nat | t' < |Tiers| && k' < |Sizes|
      ensures Idle(pool, t', k')
    {
      SizesDescend(k');
    }
    SkipIdle(Pass(pool, []), 0, 0, 3, 0, ok, draws);
  }
}
