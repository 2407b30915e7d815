// What the isotropic matchmaker promises, proved about the definitions of
// module Isotropic: the seek filter, the host choice, the VP-counter
// reconciliation, one (tier, N) pair, and a whole matching pass.

module IsotropicProperties {
  import opened AutomatchModel
  import opened Isotropic

  // ---------------------------------------------------------------------------
  // accepts(N, rsys)

  /** A seek that names neither a player count nor a rating system is accepted
      for every game size and every tier. */
  lemma UnconstrainedAccepted(n: int, rsys: string, seek: Seek)
    requires forall i | 0 <= i < |seek.requirements| ::
      !seek.requirements[i].NumPlayers? && !seek.requirements[i].RatingSystem?
    ensures Accepts(n, rsys, seek)
  {
  }

  // ---------------------------------------------------------------------------
  // choose_host(match)

  /** Player p is a legal host of the match on `group`. */
  ghost predicate Legal(group: seq<Seek>, rsys: string, ok: MatchOk, p: Player) {
    ok(group, rsys, p.pname)
  }

  /** Seek k of `seeks` carries a legal host that owns at least one set, as many
      as every legal host of `seeks`, and strictly more than every legal host
      of an earlier seek. */
  ghost predicate FirstLegalMost(group: seq<Seek>, seeks: seq<Seek>, rsys: string, ok: MatchOk, k: int) {
    && 0 <= k < |seeks|
    && Legal(group, rsys, ok, seeks[k].player)
    && 0 < SetCount(seeks[k].player)
    && (forall j | 0 <= j < |seeks| && Legal(group, rsys, ok, seeks[j].player) ::
          SetCount(seeks[j].player) <= SetCount(seeks[k].player))
    && (forall j | 0 <= j < k && Legal(group, rsys, ok, seeks[j].player) ::
          SetCount(seeks[j].player) < SetCount(seeks[k].player))
  }

  /** `possible_hosts` holds exactly the legal players of the scanned seeks. */
  lemma {:induction false} LegalHostsMembers(group: seq<Seek>, scanned: seq<Seek>, rsys: string, ok: MatchOk)
    ensures forall p :: p in LegalHosts(group, scanned, rsys, ok) <==>
      exists i | 0 <= i < |scanned| :: scanned[i].player == p && Legal(group, rsys, ok, scanned[i].player)
  {
    if scanned != [] {
      var n := |scanned| - 1;
      var pre := scanned[..n];
      LegalHostsMembers(group, pre, rsys, ok);
      assert forall i | 0 <= i < n :: pre[i] == scanned[i];
      forall p
        ensures p in LegalHosts(group, scanned, rsys, ok) ==>
          exists i | 0 <= i < |scanned| :: scanned[i].player == p && Legal(group, rsys, ok, scanned[i].player)
      {
        if p in LegalHosts(group, pre, rsys, ok) {
          var i :| 0 <= i < n && pre[i].player == p && Legal(group, rsys, ok, pre[i].player);
          assert Legal(group, rsys, ok, scanned[i].player);
        }
      }
      forall p | exists i | 0 <= i < |scanned| :: scanned[i].player == p && Legal(group, rsys, ok, scanned[i].player)
        ensures p in LegalHosts(group, scanned, rsys, ok)
      {
        var i :| 0 <= i < |scanned| && scanned[i].player == p && Legal(group, rsys, ok, scanned[i].player);
        if i < n {
          assert Legal(group, rsys, ok, pre[i].player);
        }
      }
    }
  }

  /** A legal last seek with more sets than every earlier legal host is the first with the most. */
  lemma NewFirstLegalMost(group: seq<Seek>, scanned: seq<Seek>, rsys: string, ok: MatchOk, bound: nat)
    requires scanned != []
    requires Legal(group, rsys, ok, scanned[|scanned| - 1].player)
    requires SetCount(scanned[|scanned| - 1].player) > bound
    requires forall j | 0 <= j < |scanned| - 1 && Legal(group, rsys, ok, scanned[j].player) ::
      SetCount(scanned[j].player) <= bound
    ensures FirstLegalMost(group, scanned, rsys, ok, |scanned| - 1)
  {
  }

  /** The first seek with the most sets stays so when a seek with no more sets, or no legal host, follows. */
  lemma KeptFirstLegalMost(group: seq<Seek>, scanned: seq<Seek>, rsys: string, ok: MatchOk, k: int)
    requires scanned != []
    requires FirstLegalMost(group, scanned[..|scanned| - 1], rsys, ok, k)
    requires Legal(group, rsys, ok, scanned[|scanned| - 1].player) ==>
      SetCount(scanned[|scanned| - 1].player) <= SetCount(scanned[k].player)
    ensures FirstLegalMost(group, scanned, rsys, ok, k)
  {
    assert forall j | 0 <= j < |scanned| - 1 :: scanned[..|scanned| - 1][j] == scanned[j];
  }

  /** The running maximum over the legal hosts of the scanned seeks is the host
      of the first seek with the most sets, and is None exactly when every
      legal host owns no set. */
  lemma {:induction false} ScanFirstLegalMost(group: seq<Seek>, scanned: seq<Seek>, rsys: string, ok: MatchOk)
    ensures MostSets(LegalHosts(group, scanned, rsys, ok)).None? <==>
      forall i | 0 <= i < |scanned| && Legal(group, rsys, ok, scanned[i].player) :: SetCount(scanned[i].player) == 0
    ensures MostSets(LegalHosts(group, scanned, rsys, ok)).Some? ==>
      exists k :: FirstLegalMost(group, scanned, rsys, ok, k) &&
        scanned[k].player == MostSets(LegalHosts(group, scanned, rsys, ok)).value
  {
    if scanned != [] {
      var n := |scanned| - 1;
      var pre := scanned[..n];
      var last := scanned[n].player;
      ScanFirstLegalMost(group, pre, rsys, ok);
      var prev := MostSets(LegalHosts(group, pre, rsys, ok));
      var best := MostSets(LegalHosts(group, scanned, rsys, ok));
      assert best == if Legal(group, rsys, ok, last) && SetCount(last) > BestCount(prev) then Some(last) else prev by {
        var hosts := LegalHosts(group, pre, rsys, ok);
        if Legal(group, rsys, ok, last) {
          assert LegalHosts(group, scanned, rsys, ok) == hosts + [last];
          assert (hosts + [last])[..|hosts|] == hosts;
        } else {
          assert LegalHosts(group, scanned, rsys, ok) == hosts + [] == hosts;
        }
      }
      assert forall j | 0 <= j < n :: pre[j] == scanned[j];
      assert forall j | 0 <= j < n && Legal(group, rsys, ok, scanned[j].player) ::
        SetCount(scanned[j].player) <= BestCount(prev) by {
        if prev.Some? {
          var k :| FirstLegalMost(group, pre, rsys, ok, k) && pre[k].player == prev.value;
        }
      }
      if Legal(group, rsys, ok, last) && SetCount(last) > BestCount(prev) {
        NewFirstLegalMost(group, scanned, rsys, ok, BestCount(prev));
      } else if prev.Some? {
        var k :| FirstLegalMost(group, pre, rsys, ok, k) && pre[k].player == prev.value;
        KeptFirstLegalMost(group, scanned, rsys, ok, k);
      }
    }
  }

  /** choose_host on a group: None exactly when no player of the group is a
      legal host; the crash exactly when there are legal hosts but none owns a
      set; otherwise the first legal host, in seek order, with the most sets. */
  lemma SelectHostChoosesFirstMost(group: seq<Seek>, rsys: string, ok: MatchOk)
    ensures SelectHost(group, rsys, ok).NoLegalHost? <==>
      forall i | 0 <= i < |group| :: !Legal(group, rsys, ok, group[i].player)
    ensures SelectHost(group, rsys, ok).NoneHostError? <==>
      && (exists i | 0 <= i < |group| :: Legal(group, rsys, ok, group[i].player))
      && (forall i | 0 <= i < |group| && Legal(group, rsys, ok, group[i].player) :: SetCount(group[i].player) == 0)
    ensures SelectHost(group, rsys, ok).Hosted? ==>
      exists k :: FirstLegalMost(group, group, rsys, ok, k) && group[k].player == SelectHost(group, rsys, ok).host
  {
    LegalHostsMembers(group, group, rsys, ok);
    ScanFirstLegalMost(group, group, rsys, ok);
    var hosts := LegalHosts(group, group, rsys, ok);
    if |hosts| != 0 {
      assert hosts[0] in hosts;
    } else {
      forall i | 0 <= i < |group| && Legal(group, rsys, ok, group[i].player)
        ensures group[i].player in hosts
      {
      }
    }
  }

  // ---------------------------------------------------------------------------
  // VPON/VPOFF reconciliation

  /** The VP setting is the value of the last requirement that sets one, and
      None exactly when no requirement sets one. */
  lemma {:induction false} LastSetVPIsLastWrite(reqs: seq<Requirement>)
    ensures LastSetVP(reqs).None? <==> forall i | 0 <= i < |reqs| :: !SetsVP(reqs[i])
    ensures LastSetVP(reqs).Some? ==>
      exists k | 0 <= k < |reqs| ::
        && SetsVP(reqs[k]) && reqs[k].vpcounter == LastSetVP(reqs)
        && forall j | k < j < |reqs| :: !SetsVP(reqs[j])
  {
    if reqs != [] {
      var n := |reqs| - 1;
      var pre := reqs[..n];
      LastSetVPIsLastWrite(pre);
      assert forall j | 0 <= j < n :: pre[j] == reqs[j];
      if !SetsVP(reqs[n]) && LastSetVP(pre).Some? {
        var k :| 0 <= k < n && SetsVP(pre[k]) && pre[k].vpcounter == LastSetVP(pre) &&
          forall j | k < j < n :: !SetsVP(pre[j]);
        assert SetsVP(reqs[k]) && forall j | k < j < |reqs| :: !SetsVP(reqs[j]);
      }
    }
  }

  /** Scanning more requirements: a later setting overrides every earlier one. */
  lemma {:induction false} LastSetVPAppend(a: seq<Requirement>, b: seq<Requirement>)
    ensures LastSetVP(a + b) == if LastSetVP(b).Some? then LastSetVP(b) else LastSetVP(a)
  {
    if b == [] {
      assert a + b == a;
    } else {
      var n := |b| - 1;
      LastSetVPAppend(a, b[..n]);
      assert (a + b)[..|a + b| - 1] == a + b[..n];
    }
  }

  /** Seeks are scanned in order: the last seek that sets the VP counter decides
      it, whatever the earlier seeks asked for. */
  lemma ReconciledVPLastSeekWins(seeks: seq<Seek>, s: Seek)
    ensures ReconciledVP(seeks + [s]) ==
      if LastSetVP(s.requirements).Some? then LastSetVP(s.requirements) else ReconciledVP(seeks)
  {
    assert (seeks + [s])[..|seeks|] == seeks;
    LastSetVPAppend(Flatten(seeks), s.requirements);
  }

  /** Every requirement of the flattened group comes from one of its seeks, and back. */
  lemma {:induction false} FlattenMembers(seeks: seq<Seek>)
    ensures forall r :: r in Flatten(seeks) <==>
      exists i | 0 <= i < |seeks| :: r in seeks[i].requirements
  {
    if seeks != [] {
      var n := |seeks| - 1;
      FlattenMembers(seeks[..n]);
      assert forall i | 0 <= i < n :: seeks[..n][i] == seeks[i];
    }
  }

  /** When every setting in the group agrees on v and there is one, the match
      gets v. */
  lemma ReconciledAgreed(seeks: seq<Seek>, v: bool)
    requires exists i, r | 0 <= i < |seeks| && r in seeks[i].requirements :: SetsVP(r)
    requires forall i, r | 0 <= i < |seeks| && r in seeks[i].requirements :: SetsVP(r) ==> r.vpcounter == Some(v)
    ensures ReconciledVP(seeks) == Some(v)
  {
    FlattenMembers(seeks);
    var reqs := Flatten(seeks);
    LastSetVPIsLastWrite(reqs);
    var i, r :| 0 <= i < |seeks| && r in seeks[i].requirements && SetsVP(r);
    assert r in reqs;
    if LastSetVP(reqs).Some? {
      var k :| 0 <= k < |reqs| && SetsVP(reqs[k]) && reqs[k].vpcounter == LastSetVP(reqs) &&
        forall j | k < j < |reqs| :: !SetsVP(reqs[j]);
      assert reqs[k] in reqs;
    }
  }

  /** One seek asks for the VP counter with value v and no other seek sets it:
      the match gets v. */
  lemma OneSeekSetsVP(seeks: seq<Seek>, k: nat, v: bool)
    requires k < |seeks|
    requires VPCounter(Some(v)) in seeks[k].requirements
    requires forall r | r in seeks[k].requirements :: SetsVP(r) ==> r.vpcounter == Some(v)
    requires forall i, r | 0 <= i < |seeks| && i != k && r in seeks[i].requirements :: !SetsVP(r)
    ensures ReconciledVP(seeks) == Some(v)
  {
    assert SetsVP(VPCounter(Some(v)));
    ReconciledAgreed(seeks, v);
  }

  /** No agreement check: of two seeks asking for opposite settings, the later one wins. */
  lemma ConflictLastWins(p: Player, q: Player, v: bool)
    ensures ReconciledVP([Seek(p, [VPCounter(Some(v))]), Seek(q, [VPCounter(Some(!v))])]) == Some(!v)
  {
    var a := Seek(p, [VPCounter(Some(v))]);
    var b := Seek(q, [VPCounter(Some(!v))]);
    assert [a, b] == [a] + [b];
    ReconciledVPLastSeekWins([a], b);
  }
}

module IsotropicPassProperties {
  import opened AutomatchModel
  import opened Isotropic
  import opened IsotropicProperties

  // ---------------------------------------------------------------------------
  // The trials of one (tier, N) pair

  /** A group of a trial: X first, then N - 1 further seeks of s, all different. */
  ghost predicate DrawnFrom(players: seq<Seek>, n: nat, x: Seek, s: seq<Seek>) {
    && |players| == n && 0 < n && players[0] == x && Distinct(players)
    && forall j | 1 <= j < n :: players[j] in s
  }

  /** Reshuffling the same list keeps the same candidates. */
  lemma ShuffleMembers(s: seq<Seek>, draws: Draws, t: nat, n: nat, trial: nat)
    ensures Distinct(s) ==> Distinct(TrialShuffle(s, draws, t, n, trial))
    ensures forall e :: e in TrialShuffle(s, draws, t, n, trial) <==> e in s
  {
    var s' := TrialShuffle(s, draws, t, n, trial);
    TrialShufflePermutes(s, draws, t, n, trial);
    forall e
      ensures e in s' <==> e in s
    {
      assert e in s' <==> e in multiset(s');
      assert e in s <==> e in multiset(s);
    }
  }

  /** X followed by a prefix of a list without X is a trial group. */
  lemma GroupDrawn(x: Seek, s: seq<Seek>, n: nat)
    requires 1 <= n && n - 1 <= |s|
    requires Distinct(s) && x !in s
    ensures DrawnFrom([x] + s[..n - 1], n, x, s)
  {
    var g := [x] + s[..n - 1];
    assert forall j | 1 <= j < n :: g[j] == s[j - 1];
  }

  /** The trials end with a match only on a group of X and N - 1 others that
      has a host, and crash only on such a group whose legal hosts own no set. */
  lemma {:induction false} TrialsShape(t: nat, n: nat, x: Seek, s: seq<Seek>, i: nat, ok: MatchOk, draws: Draws)
    requires t < |Tiers| && 1 <= n && n - 1 <= |s| && i <= TrialCount
    requires Distinct(s) && x !in s
    ensures Trials(t, n, x, s, i, ok, draws).Matched? ==>
      && DrawnFrom(Trials(t, n, x, s, i, ok, draws).players, n, x, s)
      && SelectHost(Trials(t, n, x, s, i, ok, draws).players, Tiers[t], ok) ==
           Hosted(Trials(t, n, x, s, i, ok, draws).host)
    ensures Trials(t, n, x, s, i, ok, draws).Crashed? ==>
      exists g :: DrawnFrom(g, n, x, s) && SelectHost(g, Tiers[t], ok).NoneHostError?
    decreases TrialCount - i
  {
    if i < TrialCount {
      var s' := TrialShuffle(s, draws, t, n, i);
      ShuffleMembers(s, draws, t, n, i);
      var players := [x] + s'[..n - 1];
      GroupDrawn(x, s', n);
      assert DrawnFrom(players, n, x, s);
      match SelectHost(players, Tiers[t], ok)
      case NoLegalHost =>
        TrialsShape(t, n, x, s', i + 1, ok, draws);
        if Trials(t, n, x, s', i + 1, ok, draws).Crashed? {
          var g :| DrawnFrom(g, n, x, s') && SelectHost(g, Tiers[t], ok).NoneHostError?;
          assert DrawnFrom(g, n, x, s);
        }
      case NoneHostError =>
      case Hosted(h) =>
    }
  }

  // ---------------------------------------------------------------------------
  // One (tier, N) pair

  /** g has N different seeks of pool, each accepting an N-player game of tier Tiers[t]. */
  ghost predicate GroupOf(g: seq<Seek>, pool: seq<Seek>, t: nat, n: nat)
    requires t < |Tiers|
  {
    && |g| == n && Distinct(g)
    && forall e | e in g :: e in pool && Accepts(n, Tiers[t], e)
  }

  /** rec is a finished match of the pair (Tiers[t], N) on seeks of pool. */
  ghost predicate FormedFrom(rec: MatchRecord, pool: seq<Seek>, t: nat, n: nat, ok: MatchOk)
    requires t < |Tiers|
  {
    && GroupOf(rec.seeks, pool, t, n)
    && rec.ratingSystem == Tiers[t]
    && SelectHost(rec.seeks, Tiers[t], ok).Hosted?
    && rec.hostname == Some(SelectHost(rec.seeks, Tiers[t], ok).host.pname)
    && rec.roomname == Some(RoomName)
    && rec.vpcounter == ReconciledVP(rec.seeks)
  }

  /** st' is st with one match of the pair appended and its players taken out of the pool. */
  ghost predicate Emits(st: Pass, st': Pass, t: nat, n: nat, ok: MatchOk)
    requires t < |Tiers|
  {
    && |st'.matches| == |st.matches| + 1
    && st'.matches[..|st.matches|] == st.matches
    && FormedFrom(st'.matches[|st.matches|], st.pool, t, n, ok)
    && st'.pool == Without(st.pool, st'.matches[|st.matches|].seeks)
  }

  /** Removing the popped seek X leaves the others, without X. */
  lemma PopSeek(s: seq<Seek>, idx: nat)
    requires idx < |s| && Distinct(s)
    ensures Distinct(s[..idx] + s[idx + 1..])
    ensures s[idx] !in s[..idx] + s[idx + 1..]
    ensures forall e | e in s[..idx] + s[idx + 1..] :: e in s
  {
    var rest := s[..idx] + s[idx + 1..];
    assert forall j | 0 <= j < |rest| :: rest[j] == s[if j < idx then j else j + 1];
  }

  /** A pair either changes nothing (too few candidates, or every trial without
      a host), or emits one match, or fails on a hostless group of candidates. */
  lemma PairStepShape(st: Pass, t: nat, n: nat, ok: MatchOk, draws: Draws)
    requires t < |Tiers| && 1 <= n && Distinct(st.pool)
    ensures |Candidates(st.pool, n, Tiers[t])| < n ==> PairStep(st, t, n, ok, draws) == Ok(st)
    ensures PairStep(st, t, n, ok, draws).Ok? ==>
      PairStep(st, t, n, ok, draws).value == st || Emits(st, PairStep(st, t, n, ok, draws).value, t, n, ok)
    ensures PairStep(st, t, n, ok, draws).Err? ==>
      exists g :: GroupOf(g, st.pool, t, n) && SelectHost(g, Tiers[t], ok).NoneHostError?
  {
    var s := Candidates(st.pool, n, Tiers[t]);
    if |s| >= n {
      var idx := draws.pick(t, n) % |s|;
      var x := s[idx];
      var rest := s[..idx] + s[idx + 1..];
      PopSeek(s, idx);
      TrialsShape(t, n, x, rest, 0, ok, draws);
      match Trials(t, n, x, rest, 0, ok, draws)
      case AllFailed =>
      case Crashed =>
        var g :| DrawnFrom(g, n, x, rest) && SelectHost(g, Tiers[t], ok).NoneHostError?;
        assert forall j | 0 <= j < n :: g[j] in s;
        assert GroupOf(g, st.pool, t, n);
      case Matched(players, h) =>
        assert forall j | 0 <= j < n :: players[j] in s;
        var st' := Pass(Without(st.pool, players), st.matches + [MakeRecord(players, Tiers[t], h)]);
        assert PairStep(st, t, n, ok, draws) == Ok(st');
        MatchEmits(st, st', t, n, players, h, ok);
    }
  }

  /** With N or more candidates the trials decide the pair: all trials without a
      host leave the pass unchanged, a crash fails it, and a trial with a host
      emits that trial's group as the new match. */
  lemma PairStepByTrials(st: Pass, t: nat, n: nat, ok: MatchOk, draws: Draws)
    requires t < |Tiers| && 1 <= n && Distinct(st.pool)
    ensures |Candidates(st.pool, n, Tiers[t])| >= n ==>
      var s := Candidates(st.pool, n, Tiers[t]);
      var idx := draws.pick(t, n) % |s|;
      var r := Trials(t, n, s[idx], s[..idx] + s[idx + 1..], 0, ok, draws);
      var p := PairStep(st, t, n, ok, draws);
      && (r.AllFailed? ==> p == Ok(st))
      && (r.Crashed? ==> p == Err(HostIsNone))
      && (r.Matched? ==>
            p.Ok? && Emits(st, p.value, t, n, ok) &&
            p.value.matches[|st.matches|].seeks == r.players &&
            p.value.matches[|st.matches|].hostname == Some(r.host.pname))
  {
    PairStepShape(st, t, n, ok, draws);
  }

  /** The match a successful trial records is an emitted match of the pair. */
  lemma MatchEmits(st: Pass, st': Pass, t: nat, n: nat, players: seq<Seek>, h: Player, ok: MatchOk)
    requires t < |Tiers|
    requires GroupOf(players, st.pool, t, n) && SelectHost(players, Tiers[t], ok) == Hosted(h)
    requires st' == Pass(Without(st.pool, players), st.matches + [MakeRecord(players, Tiers[t], h)])
    ensures Emits(st, st', t, n, ok)
  {
    assert st'.matches[..|st.matches|] == st.matches;
  }

  // ---------------------------------------------------------------------------
  // A whole pass

  function TierIndex(rsys: string): nat {
    if rsys == Tiers[0] then 0 else if rsys == Tiers[1] then 1 else 2
  }

  /** The position of a match's (tier, N) pair in the priority order, from 0. */
  function Slot(rec: MatchRecord): int {
    5 * TierIndex(rec.ratingSystem) + (6 - |rec.seeks|)
  }

  /** rec is a match a pass over `seeks` can emit. */
  ghost predicate ValidMatch(rec: MatchRecord, seeks: seq<Seek>, ok: MatchOk) {
    && rec.ratingSystem in Tiers
    && 2 <= |rec.seeks| <= 6 && Distinct(rec.seeks)
    && (forall e | e in rec.seeks :: e in seeks && Accepts(|rec.seeks|, rec.ratingSystem, e))
    && SelectHost(rec.seeks, rec.ratingSystem, ok).Hosted?
    && rec.hostname == Some(SelectHost(rec.seeks, rec.ratingSystem, ok).host.pname)
    && rec.roomname == Some(RoomName)
    && rec.vpcounter == ReconciledVP(rec.seeks)
  }

  /** A group of seeks of the input on which choose_host fails. */
  ghost predicate CrashGroup(g: seq<Seek>, seeks: seq<Seek>, rsys: string, ok: MatchOk) {
    && rsys in Tiers
    && 2 <= |g| <= 6 && Distinct(g)
    && (forall e | e in g :: e in seeks && Accepts(|g|, rsys, e))
    && SelectHost(g, rsys, ok).NoneHostError?
  }

  /** What holds of a pass over `seeks` once its first `done` pairs are processed. */
  ghost predicate PassInv(seeks: seq<Seek>, st: Pass, ok: MatchOk, done: int) {
    && Distinct(st.pool)
    && (forall e | e in st.pool :: e in seeks)
    && |st.matches| <= done
    && (forall j | 0 <= j < |st.matches| :: ValidMatch(st.matches[j], seeks, ok) && Slot(st.matches[j]) < done)
    && (forall j, l | 0 <= j < l < |st.matches| :: Slot(st.matches[j]) < Slot(st.matches[l]))
    && (forall j, e | 0 <= j < |st.matches| && e in st.matches[j].seeks :: e !in st.pool)
    && (forall j, l, e | 0 <= j < l < |st.matches| && e in st.matches[j].seeks :: e !in st.matches[l].seeks)
  }

  /** The match of pair (t, k) takes the slot 5 * t + k. */
  lemma PairSlot(rec: MatchRecord, t: nat, k: nat)
    requires t < |Tiers| && k < |Sizes|
    requires rec.ratingSystem == Tiers[t] && |rec.seeks| == Sizes[k]
    ensures Slot(rec) == 5 * t + k
    ensures 2 <= |rec.seeks| <= 6
  {
    SizesDescend(k);
    assert TierIndex(Tiers[t]) == t by {
      assert t == 0 || t == 1 || t == 2;
    }
  }

  /** Appending a valid match of pool seeks in the next slot, and taking its
      seeks out of the pool, keeps the pass invariant. */
  lemma AppendKeepsInv(seeks: seq<Seek>, st: Pass, rec: MatchRecord, ok: MatchOk, done: int)
    requires PassInv(seeks, st, ok, done)
    requires ValidMatch(rec, seeks, ok) && Slot(rec) == done
    requires forall e | e in rec.seeks :: e in st.pool
    ensures PassInv(seeks, Pass(Without(st.pool, rec.seeks), st.matches + [rec]), ok, done + 1)
  {
    var st' := Pass(Without(st.pool, rec.seeks), st.matches + [rec]);
    forall j, e | 0 <= j < |st'.matches| && e in st'.matches[j].seeks
      ensures e !in st'.pool
    {
      if j < |st.matches| {
        assert st'.matches[j] == st.matches[j];
      }
    }
    forall j, l, e | 0 <= j < l < |st'.matches| && e in st'.matches[j].seeks
      ensures e !in st'.matches[l].seeks
    {
      assert st'.matches[j] == st.matches[j];
      if l == |st.matches| {
        assert e !in st.pool;
      } else {
        assert st'.matches[l] == st.matches[l];
      }
    }
  }

  /** Appending one emitted match keeps the pass invariant. */
  lemma EmitKeepsInv(seeks: seq<Seek>, st: Pass, st': Pass, t: nat, k: nat, ok: MatchOk)
    requires t < |Tiers| && k < |Sizes|
    requires PassInv(seeks, st, ok, 5 * t + k)
    requires Emits(st, st', t, Sizes[k], ok)
    ensures PassInv(seeks, st', ok, 5 * t + k + 1)
  {
    var prev := st.matches;
    var rec := st'.matches[|prev|];
    assert st'.matches == prev + [rec] by {
      assert st'.matches[..|prev|] == prev;
    }
    PairSlot(rec, t, k);
    assert ValidMatch(rec, seeks, ok);
    AppendKeepsInv(seeks, st, rec, ok, 5 * t + k);
  }

  /** Processing one pair keeps the pass invariant. */
  lemma PairStepKeepsInv(seeks: seq<Seek>, st: Pass, t: nat, k: nat, ok: MatchOk, draws: Draws)
    requires t < |Tiers| && k < |Sizes|
    requires PassInv(seeks, st, ok, 5 * t + k)
    ensures PairStep(st, t, Sizes[k], ok, draws).Ok? ==>
      PassInv(seeks, PairStep(st, t, Sizes[k], ok, draws).value, ok, 5 * t + k + 1)
  {
    SizesDescend(k);
    PairStepShape(st, t, Sizes[k], ok, draws);
    var r := PairStep(st, t, Sizes[k], ok, draws);
    if r.Ok? && r.value != st {
      EmitKeepsInv(seeks, st, r.value, t, k, ok);
    }
  }

  /** The working set holds input seeks, each once. */
  ghost predicate PoolInv(seeks: seq<Seek>, pool: seq<Seek>) {
    Distinct(pool) && forall e | e in pool :: e in seeks
  }

  /** One pair keeps the working set within the input, and fails only on a
      hostless group of input seeks. */
  lemma PairStepFails(seeks: seq<Seek>, st: Pass, t: nat, k: nat, ok: MatchOk, draws: Draws)
    requires t < |Tiers| && k < |Sizes| && PoolInv(seeks, st.pool)
    ensures PairStep(st, t, Sizes[k], ok, draws).Ok? ==>
      PoolInv(seeks, PairStep(st, t, Sizes[k], ok, draws).value.pool)
    ensures PairStep(st, t, Sizes[k], ok, draws).Err? ==>
      exists g, rsys :: CrashGroup(g, seeks, rsys, ok)
  {
    SizesDescend(k);
    PairStepShape(st, t, Sizes[k], ok, draws);
    var r := PairStep(st, t, Sizes[k], ok, draws);
    if r.Err? {
      var g :| GroupOf(g, st.pool, t, Sizes[k]) && SelectHost(g, Tiers[t], ok).NoneHostError?;
      assert CrashGroup(g, seeks, Tiers[t], ok);
    }
  }

  /** The remaining pairs fail only on a hostless group of input seeks. */
  lemma {:induction false} RunPairsFails(seeks: seq<Seek>, st: Pass, t: nat, k: nat, ok: MatchOk, draws: Draws)
    requires t <= |Tiers| && k <= |Sizes| && PoolInv(seeks, st.pool)
    ensures RunPairs(st, t, k, ok, draws).Err? ==>
      exists g, rsys :: CrashGroup(g, seeks, rsys, ok)
    decreases |Tiers| - t, |Sizes| - k, 1
  {
    if t == |Tiers| {
    } else if k == |Sizes| {
      NextTierFails(seeks, st, t, ok, draws);
    } else {
      NextPairFails(seeks, st, t, k, ok, draws);
    }
  }

  /** RunPairsFails past the end of a tier. */
  lemma {:induction false} NextTierFails(seeks: seq<Seek>, st: Pass, t: nat, ok: MatchOk, draws: Draws)
    requires t < |Tiers| && PoolInv(seeks, st.pool)
    ensures RunPairs(st, t, |Sizes|, ok, draws).Err? ==>
      exists g, rsys :: CrashGroup(g, seeks, rsys, ok)
    decreases |Tiers| - t, 0, 0
  {
    assert RunPairs(st, t, |Sizes|, ok, draws) == RunPairs(st, t + 1, 0, ok, draws);
    RunPairsFails(seeks, st, t + 1, 0, ok, draws);
  }

  /** RunPairsFails over one pair step. */
  lemma {:induction false} NextPairFails(seeks: seq<Seek>, st: Pass, t: nat, k: nat, ok: MatchOk, draws: Draws)
    requires t < |Tiers| && k < |Sizes| && PoolInv(seeks, st.pool)
    ensures RunPairs(st, t, k, ok, draws).Err? ==>
      exists g, rsys :: CrashGroup(g, seeks, rsys, ok)
    decreases |Tiers| - t, |Sizes| - k, 0
  {
    PairStepFails(seeks, st, t, k, ok, draws);
    match PairStep(st, t, Sizes[k], ok, draws)
    case Err(_) =>
    case Ok(st') =>
      assert RunPairs(st, t, k, ok, draws) == RunPairs(st', t, k + 1, ok, draws);
      RunPairsFails(seeks, st', t, k + 1, ok, draws);
  }

  /** A finished pass, unless it failed, satisfies the invariant with all 15 pairs processed. */
  ghost predicate FinishedInv(seeks: seq<Seek>, r: Result<Pass>, ok: MatchOk) {
    r.Ok? ==> PassInv(seeks, r.value, ok, 15)
  }

  /** The remaining pairs keep the pass invariant up to the end of the pass. */
  lemma {:induction false} RunPairsKeepsInv(seeks: seq<Seek>, st: Pass, t: nat, k: nat, ok: MatchOk, draws: Draws)
    requires t <= |Tiers| && k <= |Sizes| && (t < |Tiers| || k == 0)
    requires PassInv(seeks, st, ok, 5 * t + k)
    ensures FinishedInv(seeks, RunPairs(st, t, k, ok, draws), ok)
    decreases |Tiers| - t, |Sizes| - k, 1
  {
    if t == |Tiers| {
    } else if k == |Sizes| {
      NextTierKeepsInv(seeks, st, t, ok, draws);
    } else {
      NextPairKeepsInv(seeks, st, t, k, ok, draws);
    }
  }

  /** RunPairsKeepsInv past the end of a tier. */
  lemma {:induction false} NextTierKeepsInv(seeks: seq<Seek>, st: Pass, t: nat, ok: MatchOk, draws: Draws)
    requires t < |Tiers|
    requires PassInv(seeks, st, ok, 5 * t + |Sizes|)
    ensures FinishedInv(seeks, RunPairs(st, t, |Sizes|, ok, draws), ok)
    decreases |Tiers| - t, 0, 0
  {
    assert RunPairs(st, t, |Sizes|, ok, draws) == RunPairs(st, t + 1, 0, ok, draws);
    RunPairsKeepsInv(seeks, st, t + 1, 0, ok, draws);
  }

  /** RunPairsKeepsInv over one pair step. */
  lemma {:induction false} NextPairKeepsInv(seeks: seq<Seek>, st: Pass, t: nat, k: nat, ok: MatchOk, draws: Draws)
    requires t < |Tiers| && k < |Sizes|
    requires PassInv(seeks, st, ok, 5 * t + k)
    ensures FinishedInv(seeks, RunPairs(st, t, k, ok, draws), ok)
    decreases |Tiers| - t, |Sizes| - k, 0
  {
    PairStepKeepsInv(seeks, st, t, k, ok, draws);
    match PairStep(st, t, Sizes[k], ok, draws)
    case Err(_) =>
    case Ok(st') =>
      assert RunPairs(st, t, k, ok, draws) == RunPairs(st', t, k + 1, ok, draws);
      RunPairsKeepsInv(seeks, st', t, k + 1, ok, draws);
  }

  /** generate_matches: at most one match per (tier, N) pair, so at most 15; the
      matches are ordered pro, casual, unrated and, within a tier, by size from 6
      down to 2; each is valid; no seek is in two of them; and the pass fails
      only when choose_host meets a group whose legal hosts own no set. */
  lemma GenerateSound(seeks: seq<Seek>, ok: MatchOk, draws: Draws)
    ensures Generate(seeks, ok, draws).Ok? ==>
      var ms := Generate(seeks, ok, draws).value;
      && |ms| <= 15
      && (forall j | 0 <= j < |ms| :: ValidMatch(ms[j], seeks, ok))
      && (forall j, l | 0 <= j < l < |ms| ::
            || TierIndex(ms[j].ratingSystem) < TierIndex(ms[l].ratingSystem)
            || (TierIndex(ms[j].ratingSystem) == TierIndex(ms[l].ratingSystem) && |ms[j].seeks| > |ms[l].seeks|))
      && (forall j, l, e | 0 <= j < l < |ms| && e in ms[j].seeks :: e !in ms[l].seeks)
    ensures Generate(seeks, ok, draws).Err? ==> exists g, rsys :: CrashGroup(g, seeks, rsys, ok)
  {
    var st := Pass(Dedup(seeks), []);
    assert PassInv(seeks, st, ok, 0);
    RunPairsKeepsInv(seeks, st, 0, 0, ok, draws);
    RunPairsFails(seeks, st, 0, 0, ok, draws);
  }
}
