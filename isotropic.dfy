// The isotropic matchmaker: the seek filter `accepts`, the host selection
// `choose_host` and the matching pass `generate_matches`, each as an
// executable definition together with the specification it is proved against.

module Isotropic {
  import opened AutomatchModel

  /** The feasibility oracle `Match.is_match_ok`: given the seeks of a match,
      its rating system and the name of the tentative host, is the match acceptable? */
  type MatchOk = (seq<Seek>, string, string) -> bool

  /** The random choices of one pass. `pick(tier, N)` chooses the seek removed
      from the candidates (taken modulo their number); `swap(tier, N, trial, i)`
      is the swap target of position i in that trial's Fisher-Yates shuffle
      (taken modulo i + 1, as `random.shuffle` does). */
  datatype Draws = Draws(pick: (nat, nat) -> nat, swap: (nat, nat, nat, nat) -> nat)

  datatype HostOutcome =
    | NoLegalHost        // choose_host returns None
    | Hosted(host: Player)
    | NoneHostError      // every legal host owns no set: `max_host.pname` on None

  datatype Error = HostIsNone

  datatype Result<T> = Ok(value: T) | Err(error: Error)

  /** The state of a pass: the working set of seeks and the matches so far. */
  datatype Pass = Pass(pool: seq<Seek>, matches: seq<MatchRecord>)

  const Tiers: seq<string> := ["pro", "casual", "unrated"]
  const Sizes: seq<nat> := [6, 5, 4, 3, 2]
  const TrialCount: nat := 5
  const RoomName: string := "Outpost"

  lemma SizesDescend(k: nat)
    requires k < |Sizes|
    ensures Sizes[k] == 6 - k
  {
    assert k == 0 || k == 1 || k == 2 || k == 3 || k == 4;
  }

  ghost predicate Distinct<T>(q: seq<T>) {
    forall i, j | 0 <= i < j < |q| :: q[i] != q[j]
  }

  // ---------------------------------------------------------------------------
  // accepts(N, rsys)

  /** Whether a requirement list admits an N-player game in rating system rsys:
      scanned in order, returning false at the first violated requirement. */
  function SatisfiesAll(n: int, rsys: string, reqs: seq<Requirement>): (b: bool)
    ensures b <==>
      (forall i | 0 <= i < |reqs| :: reqs[i].NumPlayers? ==> reqs[i].minPlayers <= n <= reqs[i].maxPlayers) &&
      (forall i | 0 <= i < |reqs| :: reqs[i].RatingSystem? ==> reqs[i].ratingSystem == rsys)
  {
    if reqs == [] then true
    else
      var r := reqs[0];
      if r.NumPlayers? && !(r.minPlayers <= n <= r.maxPlayers) then false
      else if r.RatingSystem? && r.ratingSystem != rsys then false
      else SatisfiesAll(n, rsys, reqs[1..])
  }

  /** The predicate `accepts(N, rsys)` applied to a seek. */
  predicate Accepts(n: int, rsys: string, seek: Seek) {
    SatisfiesAll(n, rsys, seek.requirements)
  }

  // ---------------------------------------------------------------------------
  // choose_host(match)

  /** The list `possible_hosts` after scanning `scanned`: the players, in scan
      order, that make the match on `group` acceptable when set as its host. */
  function LegalHosts(group: seq<Seek>, scanned: seq<Seek>, rsys: string, ok: MatchOk): seq<Player> {
    if scanned == [] then []
    else
      var last := scanned[|scanned| - 1];
      LegalHosts(group, scanned[..|scanned| - 1], rsys, ok)
        + (if ok(group, rsys, last.player.pname) then [last.player] else [])
  }

  function SetCount(p: Player): nat {
    |p.setsOwned|
  }

  /** `max_hostsets` for a running maximum `max_host`. */
  function BestCount(o: Option<Player>): nat {
    if o.Some? then SetCount(o.value) else 0
  }

  /** The running maximum `max_host` after scanning `hosts`: it starts at None
      with count 0 and is replaced only by a host with strictly more sets. */
  function MostSets(hosts: seq<Player>): Option<Player> {
    if hosts == [] then None
    else
      var prev := MostSets(hosts[..|hosts| - 1]);
      var h := hosts[|hosts| - 1];
      if SetCount(h) > BestCount(prev) then Some(h) else prev
  }

  /** hosts[k] owns the most sets, strictly more than every host before it, and at least one. */
  ghost predicate FirstMost(hosts: seq<Player>, k: int) {
    && 0 <= k < |hosts|
    && 0 < SetCount(hosts[k])
    && (forall j | 0 <= j < |hosts| :: SetCount(hosts[j]) <= SetCount(hosts[k]))
    && (forall j | 0 <= j < k :: SetCount(hosts[j]) < SetCount(hosts[k]))
  }

  lemma {:induction false} MostSetsFirstMaximal(hosts: seq<Player>)
    ensures MostSets(hosts).None? <==> forall j | 0 <= j < |hosts| :: SetCount(hosts[j]) == 0
    ensures MostSets(hosts).Some? ==>
      exists k :: FirstMost(hosts, k) && hosts[k] == MostSets(hosts).value
  {
    if hosts != [] {
      var n := |hosts| - 1;
      var pre := hosts[..n];
      MostSetsFirstMaximal(pre);
      var prev := MostSets(pre);
      var h := hosts[n];
      assert MostSets(hosts) == if SetCount(h) > BestCount(prev) then Some(h) else prev;
      assert forall j | 0 <= j < n :: pre[j] == hosts[j];
      assert forall j | 0 <= j < n :: SetCount(hosts[j]) <= BestCount(prev) by {
        if prev.Some? {
          var k :| FirstMost(pre, k) && pre[k] == prev.value;
        }
      }
      if SetCount(h) > BestCount(prev) {
        assert FirstMost(hosts, n);
      } else if prev.Some? {
        var k :| FirstMost(pre, k) && pre[k] == prev.value;
        assert FirstMost(hosts, k);
      } else {
        assert forall j | 0 <= j < |hosts| :: SetCount(hosts[j]) == 0;
      }
    }
  }

  /** What choose_host does with a candidate group, as a value. */
  function SelectHost(group: seq<Seek>, rsys: string, ok: MatchOk): HostOutcome {
    var hosts := LegalHosts(group, group, rsys, ok);
    if |hosts| == 0 then NoLegalHost
    else
      match MostSets(hosts)
      case None => NoneHostError
      case Some(p) => Hosted(p)
  }

  /** The second loop of choose_host: the first legal host with the most sets. */
  method PickMostSets(hosts: seq<Player>) returns (maxHost: Option<Player>)
    ensures maxHost == MostSets(hosts)
    ensures maxHost.None? <==> forall j | 0 <= j < |hosts| :: SetCount(hosts[j]) == 0
    ensures maxHost.Some? ==> exists k :: FirstMost(hosts, k) && hosts[k] == maxHost.value
  {
    var maxHostSets: nat := 0;
    maxHost := None;
    for i := 0 to |hosts|
      invariant maxHost == MostSets(hosts[..i])
      invariant maxHostSets == BestCount(maxHost)
    {
      assert hosts[..i + 1][..i] == hosts[..i];
      if |hosts[i].setsOwned| > maxHostSets {
        maxHostSets := |hosts[i].setsOwned|;
        maxHost := Some(hosts[i]);
      }
    }
    assert hosts[..|hosts|] == hosts;
    MostSetsFirstMaximal(hosts);
  }

  /** choose_host: tries each seek's player as host in turn, then sets the
      host to the legal one with the most sets. */
  method ChooseHost(m: Match, ok: MatchOk) returns (outcome: HostOutcome)
    modifies m
    ensures outcome == SelectHost(m.seeks, m.ratingSystem, ok)
    ensures m.seeks == old(m.seeks) && m.ratingSystem == old(m.ratingSystem)
    ensures m.roomname == old(m.roomname) && m.vpcounter == old(m.vpcounter)
    ensures m.hostname ==
      if outcome.Hosted? then Some(outcome.host.pname)
      else if m.seeks == [] then old(m.hostname)
      else Some(m.seeks[|m.seeks| - 1].player.pname)
  {
    var possibleHosts: seq<Player> := [];
    for i := 0 to |m.seeks|
      invariant m.seeks == old(m.seeks) && m.ratingSystem == old(m.ratingSystem)
      invariant m.roomname == old(m.roomname) && m.vpcounter == old(m.vpcounter)
      invariant possibleHosts == LegalHosts(m.seeks, m.seeks[..i], m.ratingSystem, ok)
      invariant m.hostname == if i == 0 then old(m.hostname) else Some(m.seeks[i - 1].player.pname)
    {
      assert m.seeks[..i + 1][..i] == m.seeks[..i];
      var s := m.seeks[i];
      m.hostname := Some(s.player.pname);
      if ok(m.seeks, m.ratingSystem, s.player.pname) {
        possibleHosts := possibleHosts + [s.player];
      }
    }
    assert m.seeks[..|m.seeks|] == m.seeks;
    if |possibleHosts| == 0 {
      return NoLegalHost;
    }
    var maxHost := PickMostSets(possibleHosts);
    if maxHost.None? {
      return NoneHostError;
    }
    m.hostname := Some(maxHost.value.pname);
    return Hosted(maxHost.value);
  }

  // ---------------------------------------------------------------------------
  // VPON/VPOFF reconciliation

  /** All requirements of a group: seek order, then requirement order. */
  function Flatten(seeks: seq<Seek>): seq<Requirement> {
    if seeks == [] then []
    else Flatten(seeks[..|seeks| - 1]) + seeks[|seeks| - 1].requirements
  }

  predicate SetsVP(r: Requirement) {
    r.VPCounter? && r.vpcounter.Some?
  }

  /** The value the VP-counter loop leaves after scanning reqs from None. */
  function LastSetVP(reqs: seq<Requirement>): Option<bool> {
    if reqs == [] then None
    else if SetsVP(reqs[|reqs| - 1]) then reqs[|reqs| - 1].vpcounter
    else LastSetVP(reqs[..|reqs| - 1])
  }

  function ReconciledVP(seeks: seq<Seek>): Option<bool> {
    LastSetVP(Flatten(seeks))
  }

  /** The nested loops that set `match.vpcounter`. */
  method AssignVPCounter(m: Match)
    modifies m
    ensures m.vpcounter == ReconciledVP(m.seeks)
    ensures m.seeks == old(m.seeks) && m.ratingSystem == old(m.ratingSystem)
    ensures m.hostname == old(m.hostname) && m.roomname == old(m.roomname)
  {
    m.vpcounter := None;
    for i := 0 to |m.seeks|
      invariant m.seeks == old(m.seeks) && m.ratingSystem == old(m.ratingSystem)
      invariant m.hostname == old(m.hostname) && m.roomname == old(m.roomname)
      invariant m.vpcounter == LastSetVP(Flatten(m.seeks[..i]))
    {
      var reqs := m.seeks[i].requirements;
      ghost var before := Flatten(m.seeks[..i]);
      assert before + reqs[..0] == before;
      for j := 0 to |reqs|
        invariant m.seeks == old(m.seeks) && m.ratingSystem == old(m.ratingSystem)
        invariant m.hostname == old(m.hostname) && m.roomname == old(m.roomname)
        invariant m.vpcounter == LastSetVP(before + reqs[..j])
      {
        assert (before + reqs[..j + 1])[..|before + reqs[..j + 1]| - 1] == before + reqs[..j];
        var r := reqs[j];
        if r.VPCounter? && r.vpcounter.Some? {
          m.vpcounter := r.vpcounter;
        }
      }
      assert reqs[..|reqs|] == reqs;
      assert m.seeks[..i + 1][..i] == m.seeks[..i];
    }
    assert m.seeks[..|m.seeks|] == m.seeks;
  }

  // ---------------------------------------------------------------------------
  // Sequence helpers for generate_matches

  /** `set(seeks)`, enumerated in last-occurrence order: a repeated seek is kept where it last appears. */
  function Dedup(s: seq<Seek>): (r: seq<Seek>)
    ensures |r| <= |s|
    ensures Distinct(r)
    ensures forall e :: e in r <==> e in s
  {
    if s == [] then []
    else
      var rest := Dedup(s[1..]);
      if s[0] in s[1..] then rest
      else
        assert forall i | 1 <= i < |rest| + 1 :: ([s[0]] + rest)[i] == rest[i - 1];
        [s[0]] + rest
  }

  /** `list(filter(accepts(N, rsys), seeks))`. */
  function Candidates(pool: seq<Seek>, n: int, rsys: string): (r: seq<Seek>)
    ensures |r| <= |pool|
    ensures forall e :: e in r <==> e in pool && Accepts(n, rsys, e)
    ensures Distinct(pool) ==> Distinct(r)
  {
    if pool == [] then []
    else
      var rest := Candidates(pool[1..], n, rsys);
      if Accepts(n, rsys, pool[0]) then
        assert forall i | 1 <= i < |rest| + 1 :: ([pool[0]] + rest)[i] == rest[i - 1];
        [pool[0]] + rest
      else rest
  }

  /** `seeks - set(players)`. */
  function Without(pool: seq<Seek>, players: seq<Seek>): (r: seq<Seek>)
    ensures |r| <= |pool|
    ensures forall e :: e in r <==> e in pool && e !in players
    ensures Distinct(pool) ==> Distinct(r)
  {
    if pool == [] then []
    else
      var rest := Without(pool[1..], players);
      if pool[0] !in players then
        assert forall i | 1 <= i < |rest| + 1 :: ([pool[0]] + rest)[i] == rest[i - 1];
        [pool[0]] + rest
      else rest
  }

  /** Exchanging two positions keeps the multiset of elements. */
  lemma SwapKeepsElements<T>(s: seq<T>, i: nat, j: nat)
    requires i < |s| && j < |s|
    ensures multiset(s[i := s[j]][j := s[i]]) == multiset(s)
  {
    if i != j {
      var u := s[i := s[j]];
      assert multiset(u) == multiset(s) - multiset{s[i]} + multiset{s[j]};
      assert u[j] == s[j];
      assert multiset(u[j := s[i]]) == multiset(u) - multiset{s[j]} + multiset{s[i]};
    }
  }

  /** Exchanging two positions keeps a list free of duplicates. */
  lemma SwapKeepsDistinct<T>(s: seq<T>, i: nat, j: nat)
    requires i < |s| && j < |s| && Distinct(s)
    ensures Distinct(s[i := s[j]][j := s[i]])
  {
    var t := s[i := s[j]][j := s[i]];
    forall a, b | 0 <= a < b < |t|
      ensures t[a] != t[b]
    {
      var a' := if a == j then i else if a == i then j else a;
      var b' := if b == j then i else if b == i then j else b;
      assert t[a] == s[a'] && t[b] == s[b'] && a' != b';
    }
  }

  /** Positions i-1 down to 1 of CPython's Fisher-Yates shuffle. */
  function SwapDown<T>(s: seq<T>, i: nat, draw: nat -> nat): (r: seq<T>)
    requires i <= |s|
    ensures |r| == |s|
    decreases i
  {
    if i <= 1 then s
    else
      var k := i - 1;
      var j := draw(k) % i;
      SwapDown(s[k := s[j]][j := s[k]], k, draw)
  }

  /** `random.shuffle`, with its random indices supplied by `draw`. */
  function Shuffle<T>(s: seq<T>, draw: nat -> nat): (r: seq<T>)
    ensures |r| == |s|
  {
    SwapDown(s, |s|, draw)
  }

  /** The shuffle of trial `trial` for the tier with index t and size n. */
  function TrialShuffle(s: seq<Seek>, draws: Draws, t: nat, n: nat, trial: nat): (r: seq<Seek>)
    ensures |r| == |s|
  {
    Shuffle(s, (i: nat) => draws.swap(t, n, trial, i))
  }

  /** The shuffle only reorders: same elements, and no duplicates appear. */
  lemma {:induction false} SwapDownPermutes<T>(s: seq<T>, i: nat, draw: nat -> nat)
    requires i <= |s|
    ensures multiset(SwapDown(s, i, draw)) == multiset(s)
    ensures Distinct(s) ==> Distinct(SwapDown(s, i, draw))
    decreases i
  {
    if i > 1 {
      var k := i - 1;
      var j := draw(k) % i;
      SwapKeepsElements(s, k, j);
      if Distinct(s) {
        SwapKeepsDistinct(s, k, j);
      }
      SwapDownPermutes(s[k := s[j]][j := s[k]], k, draw);
    }
  }

  /** A trial's shuffle only reorders the candidates. */
  lemma TrialShufflePermutes(s: seq<Seek>, draws: Draws, t: nat, n: nat, trial: nat)
    ensures multiset(TrialShuffle(s, draws, t, n, trial)) == multiset(s)
    ensures Distinct(s) ==> Distinct(TrialShuffle(s, draws, t, n, trial))
  {
    SwapDownPermutes(s, |s|, (i: nat) => draws.swap(t, n, trial, i));
  }

  // ---------------------------------------------------------------------------
  // generate_matches, as a specification

  /** How the trials of one (tier, N) pair end. */
  datatype TrialResult =
    | AllFailed                                  // no trial found a host
    | Crashed                                    // choose_host failed on None
    | Matched(players: seq<Seek>, host: Player)  // the first trial with a host

  /** The match a successful trial records. */
  function MakeRecord(players: seq<Seek>, rsys: string, host: Player): MatchRecord {
    MatchRecord(players, rsys, Some(host.pname), Some(RoomName), ReconciledVP(players))
  }

  /** Trials i, i+1, ... of one (tier, N) pair: x is the removed seek, s the rest of the candidates. */
  function Trials(t: nat, n: nat, x: Seek, s: seq<Seek>, i: nat, ok: MatchOk, draws: Draws): TrialResult
    requires t < |Tiers| && 1 <= n && n - 1 <= |s| && i <= TrialCount
    // s is listed so that a literal i does not let the verifier unroll every trial
    decreases TrialCount - i, s
  {
    if i == TrialCount then AllFailed
    else
      var s' := TrialShuffle(s, draws, t, n, i);
      var players := [x] + s'[..n - 1];
      match SelectHost(players, Tiers[t], ok)
      case NoLegalHost => Trials(t, n, x, s', i + 1, ok, draws)
      case NoneHostError => Crashed
      case Hosted(h) => Matched(players, h)
  }

  /** One (tier, N) pair: filter, pop one seek, run the trials, record the match. */
  function PairStep(st: Pass, t: nat, n: nat, ok: MatchOk, draws: Draws): Result<Pass>
    requires t < |Tiers| && 1 <= n
  {
    var s := Candidates(st.pool, n, Tiers[t]);
    if |s| < n then Ok(st)
    else
      var idx := draws.pick(t, n) % |s|;
      match Trials(t, n, s[idx], s[..idx] + s[idx + 1..], 0, ok, draws)
      case AllFailed => Ok(st)
      case Crashed => Err(HostIsNone)
      case Matched(players, h) =>
        Ok(Pass(Without(st.pool, players), st.matches + [MakeRecord(players, Tiers[t], h)]))
  }

  /** The pairs from (Tiers[t], Sizes[k]) on, in priority order. */
  function RunPairs(st: Pass, t: nat, k: nat, ok: MatchOk, draws: Draws): Result<Pass>
    requires t <= |Tiers| && k <= |Sizes|
    // st is listed so that literal t and k do not let the verifier unroll every pair
    decreases |Tiers| - t, |Sizes| - k, st
  {
    if t == |Tiers| then Ok(st)
    else if k == |Sizes| then RunPairs(st, t + 1, 0, ok, draws)
    else
      match PairStep(st, t, Sizes[k], ok, draws)
      case Err(e) => Err(e)
      case Ok(st') => RunPairs(st', t, k + 1, ok, draws)
  }

  /** The matches generate_matches returns, or the error it raises. */
  function Generate(seeks: seq<Seek>, ok: MatchOk, draws: Draws): Result<seq<MatchRecord>> {
    match RunPairs(Pass(Dedup(seeks), []), 0, 0, ok, draws)
    case Err(e) => Err(e)
    case Ok(st) => Ok(st.matches)
  }

  // ---------------------------------------------------------------------------
  // generate_matches, as the source runs it

  /** One trial of `Trials`: the shuffled group either ends the trials or passes
      the shuffled list on to the next trial. */
  lemma TrialStep(t: nat, n: nat, x: Seek, s: seq<Seek>, i: nat, ok: MatchOk, draws: Draws)
    requires t < |Tiers| && 1 <= n && n - 1 <= |s| && i < TrialCount
    ensures var s' := TrialShuffle(s, draws, t, n, i);
      var players := [x] + s'[..n - 1];
      Trials(t, n, x, s, i, ok, draws) ==
        match SelectHost(players, Tiers[t], ok)
        case NoLegalHost => Trials(t, n, x, s', i + 1, ok, draws)
        case NoneHostError => Crashed
        case Hosted(h) => Matched(players, h)
  {
  }

  /** One trial's group: a new match of the players, its host from choose_host and,
      when there is one, room "Outpost" and the reconciled VP setting. */
  method TryGroup(players: seq<Seek>, rsys: string, ok: MatchOk) returns (chosen: HostOutcome, m: Match)
    ensures fresh(m)
    ensures chosen == SelectHost(players, rsys, ok)
    ensures chosen.Hosted? ==> m.Value() == MakeRecord(players, rsys, chosen.host)
  {
    m := new Match(players, rsys, None);
    chosen := ChooseHost(m, ok);
    if chosen.Hosted? {
      m.roomname := Some(RoomName);
      AssignVPCounter(m);
    }
  }

  /** The loop `for i in range(5)` of generate_matches, for the removed seek x
      and the remaining candidates s; on success it returns the finished match. */
  method MatchTrials(t: nat, n: nat, x: Seek, s: seq<Seek>, ok: MatchOk, draws: Draws)
      returns (outcome: TrialResult, m: Match?)
    requires t < |Tiers| && 1 <= n && n - 1 <= |s|
    ensures outcome == Trials(t, n, x, s, 0, ok, draws)
    ensures outcome.Matched? ==>
      m != null && fresh(m) && m.Value() == MakeRecord(outcome.players, Tiers[t], outcome.host)
  {
    var S := s;
    var rsys := Tiers[t];
    outcome, m := AllFailed, null;
    for i := 0 to TrialCount
      invariant |S| == |s|
      invariant Trials(t, n, x, S, i, ok, draws) == Trials(t, n, x, s, 0, ok, draws)
      invariant outcome == AllFailed
    {
      TrialStep(t, n, x, S, i, ok, draws);
      S := TrialShuffle(S, draws, t, n, i);
      var players := [x] + S[..n - 1];
      var chosen, candidate := TryGroup(players, rsys, ok);
      if chosen.NoneHostError? {
        outcome := Crashed;
        break;
      }
      if chosen.Hosted? {
        outcome, m := Matched(players, chosen.host), candidate;
        break;
      }
    }
  }

  /** The body of `for N in [6, 5, 4, 3, 2]` for tier Tiers[t] and N = Sizes[k]: the
      pair's effect on the pool and on the matches found so far, `records`. */
  method MatchPair(pool: seq<Seek>, ghost records: seq<MatchRecord>, t: nat, k: nat, ok: MatchOk, draws: Draws)
      returns (outcome: TrialResult, m: Match?)
    requires t < |Tiers| && k < |Sizes|
    ensures outcome.Crashed? ==> PairStep(Pass(pool, records), t, Sizes[k], ok, draws) == Err(HostIsNone)
    ensures outcome.AllFailed? ==> PairStep(Pass(pool, records), t, Sizes[k], ok, draws) == Ok(Pass(pool, records))
    ensures outcome.Matched? ==>
      m != null && fresh(m) &&
      PairStep(Pass(pool, records), t, Sizes[k], ok, draws) ==
        Ok(Pass(Without(pool, outcome.players), records + [m.Value()]))
  {
    var n := Sizes[k];
    assert n == 6 - k by { SizesDescend(k); }
    var S := Candidates(pool, n, Tiers[t]);
    if |S| < n {
      return AllFailed, null;
    }
    var idx := draws.pick(t, n) % |S|;
    var x := S[idx];
    S := S[..idx] + S[idx + 1..];
    outcome, m := MatchTrials(t, n, x, S, ok, draws);
  }

  /** The loop `for N in [6, 5, 4, 3, 2]` for tier Tiers[t], continuing the pass that has
      pool `pool` and the matches `matches` (whose values are `records`) so far. */
  method MatchTier(pool: seq<Seek>, matches: seq<Match>, ghost records: seq<MatchRecord>, t: nat, ok: MatchOk, draws: Draws)
      returns (crashed: bool, pool': seq<Seek>, matches': seq<Match>, ghost records': seq<MatchRecord>)
    requires t < |Tiers|
    requires |matches| == |records|
    requires forall j | 0 <= j < |matches| :: matches[j].Value() == records[j]
    ensures crashed ==> RunPairs(Pass(pool, records), t, 0, ok, draws) == Err(HostIsNone)
    ensures !crashed ==>
      RunPairs(Pass(pool, records), t, 0, ok, draws) == RunPairs(Pass(pool', records'), t + 1, 0, ok, draws)
    ensures |matches'| == |records'|
    ensures forall j | 0 <= j < |matches'| :: matches'[j].Value() == records'[j]
  {
    pool', matches', records' := pool, matches, records;
    for k := 0 to |Sizes|
      invariant RunPairs(Pass(pool', records'), t, k, ok, draws) == RunPairs(Pass(pool, records), t, 0, ok, draws)
      invariant |matches'| == |records'|
      invariant forall j | 0 <= j < |matches'| :: matches'[j].Value() == records'[j]
    {
      var outcome, m := MatchPair(pool', records', t, k, ok, draws);
      match outcome
      case Crashed =>
        return true, pool', matches', records';
      case AllFailed =>
      case Matched(players, _) =>
        matches' := matches' + [m];
        records' := records' + [m.Value()];
        pool' := Without(pool', players);
    }
    crashed := false;
  }

  /** generate_matches: the matches of one pass over `seeks`, or the error it raises. */
  method GenerateMatches(seeks: seq<Seek>, ok: MatchOk, draws: Draws) returns (res: Result<seq<Match>>)
    ensures res.Err? <==> Generate(seeks, ok, draws).Err?
    ensures res.Ok? ==>
      |res.value| == |Generate(seeks, ok, draws).value| &&
      forall j | 0 <= j < |res.value| :: res.value[j].Value() == Generate(seeks, ok, draws).value[j]
  {
    var matches: seq<Match> := [];
    ghost var records: seq<MatchRecord> := [];
    var pool := Dedup(seeks);
    ghost var total := RunPairs(Pass(pool, records), 0, 0, ok, draws);
    for t := 0 to |Tiers|
      invariant RunPairs(Pass(pool, records), t, 0, ok, draws) == total
      invariant |matches| == |records|
      invariant forall j | 0 <= j < |matches| :: matches[j].Value() == records[j]
    {
      var crashed;
      crashed, pool, matches, records := MatchTier(pool, matches, records, t, ok, draws);
      if crashed {
        return Err(HostIsNone);
      }
    }
    return Ok(matches);
  }
}
