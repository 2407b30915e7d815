# Isotropic matchmaker, modelled in Dafny

This project models the isotropic matchmaker of the Goko Dominion tools
(`IsotropicMatchmaker` in `gdt/automatch/matchmaker/isotropic.py`). Each
matching pass takes the open seeks and forms games from them. It goes through
the rating tiers pro, casual and unrated, and within each tier through the game
sizes 6 down to 2. For each (tier, size) pair it:

1. filters the remaining seeks with `accepts`;
2. pops one random seek X;
3. makes up to five shuffle trials that pair X with the first N-1 of the others;
4. asks `choose_host` for a host;
5. on the first trial that has a host, records the game (room "Outpost", the
   VP-counter setting) and takes its players out of the pool.

Files:

- `model.dfy`, module `AutomatchModel`, holds the entities:
  - players, requirements (a sum type with the kinds the matchmaker knows of) and seeks, as datatypes;
  - the match, as a class whose host, room and VP setting are set in place;
  - `MatchRecord`, the value of a match.
- `isotropic.dfy`, module `Isotropic`, holds the three operations as the source runs them:
  - `accepts` is a recursive function;
  - `choose_host` is the method `ChooseHost`, which updates `Match.hostname` inside its loop;
  - `generate_matches` is the methods `GenerateMatches`, `MatchTier`, `MatchPair`,
    `MatchTrials` and `TryGroup`, with the VP loop as `AssignVPCounter`.
  - Each method is proved equal to a specification function: `SelectHost`, `Trials`,
    `PairStep`, `RunPairs` and `Generate`.
- `properties.dfy`, modules `IsotropicProperties` and `IsotropicPassProperties`, holds what the source
  promises, proved about those functions:
  - the characterisation of `accepts`;
  - the host rule: the first legal host with the most sets, and the crash when none owns a set;
  - last-write-wins VP reconciliation;
  - the shape of one (tier, N) pair;
  - for a whole pass: every match is valid, matches are pairwise disjoint, they follow the
    priority order, and there are at most 15.
- `scenarios.dfy`, module `IsotropicScenarios`, holds whole passes over particular inputs, for
  every random choice.

The parts that cannot be seen, or are not deterministic, become parameters:

- `is_match_ok` is a function `MatchOk` of the group, the rating system and the tentative host name.
- The random choices are a value `Draws`:
  - `pick(tier, N)`, taken modulo the candidate count, is the index `randrange` returns;
  - `swap(tier, N, trial, i)`, taken modulo i + 1, is the swap target of position i in that
    trial's Fisher-Yates pass.
  - This is the swap-down loop `random.shuffle` runs.
  - The shuffle is repeated on the same list in every trial, as the source does.
- The crash at `isotropic.py:88` is modelled as a failure outcome. It happens when every legal
  host owns zero sets, so `max_host` stays None and `.pname` is read from it. The outcome is
  `NoneHostError` for `choose_host` and `Err(HostIsNone)` for the pass.

Points where the code departs from the algorithm it cites, or may surprise a reader:

- The forum pseudocode quoted at `isotropic.py:18-26` loops `while |S| >= N`; the code does not.
  Each (tier, N) pair pops one seek and emits at most one match (`isotropic.py:99-139`). So when
  the oracle accepts every host and every player owns at least one set, any two or more different
  seeks that each want exactly a casual two-player game give exactly one match, whatever the random
  choices (`CasualPairsOneMatch`). Without those conditions the pass may emit no match, or crash.
- A group whose legal hosts all own no set crashes choose_host at `isotropic.py:88`, and with it
  the whole pass.
- The player-count bounds are compared as integers. The string coercion of the code is left out
  (see below).

## Model

| member | source | states |
|---|---|---|
| Isotropic.SatisfiesAll | gdt/automatch/matchmaker/isotropic.py:45-58 | a seek's requirements admit (N, rsys) iff every NumPlayers requirement has min <= N <= max and every RatingSystem requirement names rsys |
| IsotropicProperties.UnconstrainedAccepted | gdt/automatch/matchmaker/isotropic.py:45-58 | a seek with neither a player-count nor a rating-system requirement is accepted for every N and every tier |
| Isotropic.MostSetsFirstMaximal | gdt/automatch/matchmaker/isotropic.py:80-85 | the running maximum (start 0, strict >) is None iff every host owns no set, otherwise the first host whose set count is the largest and at least one |
| Isotropic.PickMostSets | gdt/automatch/matchmaker/isotropic.py:80-85 | the second loop of choose_host returns that running maximum, with the same characterisation |
| IsotropicProperties.LegalHostsMembers | gdt/automatch/matchmaker/isotropic.py:68-73 | `possible_hosts` holds exactly the players of the seeks that pass `is_match_ok` while set as host |
| IsotropicProperties.ScanFirstLegalMost | gdt/automatch/matchmaker/isotropic.py:68-85 | the maximum over the legal hosts of a scanned prefix is the first legal seek's player with the most sets; None iff every legal host owns no set |
| IsotropicProperties.SelectHostChoosesFirstMost | gdt/automatch/matchmaker/isotropic.py:66-89 | choose_host returns None iff no player of the group is a legal host; it crashes iff legal hosts exist and all own no set; otherwise its host is legal, owns a set, has at least as many sets as every legal host and more than every earlier one |
| Isotropic.ChooseHost | gdt/automatch/matchmaker/isotropic.py:66-89 | the method's outcome is that host rule; on success `hostname` is the host's name, otherwise the name of the last seek scanned; no other field changes |
| Isotropic.AssignVPCounter | gdt/automatch/matchmaker/isotropic.py:127-132 | the nested loops leave `vpcounter` equal to the last non-None VPCounter value over the seeks' requirements in order; nothing else changes |
| IsotropicProperties.LastSetVPIsLastWrite | gdt/automatch/matchmaker/isotropic.py:127-132 | the VP setting is None iff no requirement sets one, otherwise the value of the last requirement that sets one |
| IsotropicProperties.LastSetVPAppend | gdt/automatch/matchmaker/isotropic.py:128-132 | scanning more requirements overrides the earlier setting iff the later ones set one |
| IsotropicProperties.ReconciledVPLastSeekWins | gdt/automatch/matchmaker/isotropic.py:125-132 | the last seek that sets the VP counter decides it, whatever earlier seeks asked for |
| IsotropicProperties.FlattenMembers | gdt/automatch/matchmaker/isotropic.py:128-129 | the requirements scanned are exactly those of the group's seeks |
| IsotropicProperties.ReconciledAgreed | gdt/automatch/matchmaker/isotropic.py:125-132 | when the group's settings all agree on v and there is one, the match gets v |
| IsotropicProperties.OneSeekSetsVP | gdt/automatch/matchmaker/isotropic.py:125-132 | one seek asking for v while no other seek sets the counter gives v |
| IsotropicProperties.ConflictLastWins | gdt/automatch/matchmaker/isotropic.py:125-132 | no agreement check: of two seeks asking for opposite settings the later one wins |
| Isotropic.Dedup | gdt/automatch/matchmaker/isotropic.py:96 | the working set holds exactly the input's seeks, each once, and no more of them |
| Isotropic.Candidates | gdt/automatch/matchmaker/isotropic.py:103 | S holds exactly the working set's seeks that accept (N, rsys); no duplicates if the working set has none |
| Isotropic.Without | gdt/automatch/matchmaker/isotropic.py:138 | the new working set holds exactly the old one's seeks that are not players of the match |
| Isotropic.SwapKeepsElements | gdt/automatch/matchmaker/isotropic.py:113 | exchanging two positions keeps the multiset of elements |
| Isotropic.SwapKeepsDistinct | gdt/automatch/matchmaker/isotropic.py:113 | exchanging two positions keeps a list free of duplicates |
| Isotropic.SwapDownPermutes | gdt/automatch/matchmaker/isotropic.py:113 | the Fisher-Yates swaps keep the multiset of elements and their distinctness |
| Isotropic.TrialShufflePermutes | gdt/automatch/matchmaker/isotropic.py:113 | a trial's shuffle of S is a permutation of S |
| Isotropic.TryGroup | gdt/automatch/matchmaker/isotropic.py:116-132 | one trial's new match gets choose_host's outcome, and when it has a host, that host, room "Outpost" and the reconciled VP setting |
| Isotropic.MatchTrials | gdt/automatch/matchmaker/isotropic.py:110-139 | the five-trial loop ends as `Trials` says: all failed, crashed, or the first trial with a host, whose new match has that host, room "Outpost" and the reconciled VP setting |
| Isotropic.MatchPair | gdt/automatch/matchmaker/isotropic.py:102-139 | one (tier, N) iteration has `PairStep`'s effect on the working set and on the matches found so far |
| Isotropic.MatchTier | gdt/automatch/matchmaker/isotropic.py:100-139 | the loop over N for one tier takes the pass from pair (t, 0) to pair (t + 1, 0) as `RunPairs` does, or fails where it fails |
| Isotropic.GenerateMatches | gdt/automatch/matchmaker/isotropic.py:91-142 | the method fails iff `Generate` does, and otherwise returns matches whose values are `Generate`'s records, in order |
| IsotropicPassProperties.ShuffleMembers | gdt/automatch/matchmaker/isotropic.py:113 | a shuffled S has the same seeks as S and no duplicates if S has none |
| IsotropicPassProperties.PopSeek | gdt/automatch/matchmaker/isotropic.py:108 | after the pop, S no longer holds X, holds only seeks it held before, and has no duplicates |
| IsotropicPassProperties.GroupDrawn | gdt/automatch/matchmaker/isotropic.py:114 | `[X] + S[0:N-1]` is a group of N different seeks, X first |
| IsotropicPassProperties.TrialsShape | gdt/automatch/matchmaker/isotropic.py:110-120 | the trials end with a match only on a group of X and N-1 different others of S that has that host, and crash only on such a group whose legal hosts own no set |
| IsotropicPassProperties.PairStepShape | gdt/automatch/matchmaker/isotropic.py:103-139 | a pair with fewer than N candidates leaves the pass unchanged; any other successful pair leaves it unchanged or appends one match of N distinct accepting seeks of the pool with rating system rsys, its host, room and VP setting, and removes its players; a failing pair met a hostless group of N distinct candidates |
| IsotropicPassProperties.PairStepByTrials | gdt/automatch/matchmaker/isotropic.py:107-139 | with N or more candidates: trials that all fail leave the pass unchanged, a crash fails it, and a trial with a host appends a match of exactly that trial's group, with that host, and removes its players |
| IsotropicPassProperties.PairSlot | gdt/automatch/matchmaker/isotropic.py:99-100 | the match of tier t and size `[6,5,4,3,2][k]` has 2..6 seeks and priority position 5t + k |
| IsotropicPassProperties.MatchEmits | gdt/automatch/matchmaker/isotropic.py:120-138 | the record of a successful trial is an emitted match of the pair and the pool loses its players |
| IsotropicPassProperties.AppendKeepsInv | gdt/automatch/matchmaker/isotropic.py:137-138 | appending a valid match of pool seeks in the next priority slot and removing its seeks from the pool keeps the pass invariant |
| IsotropicPassProperties.EmitKeepsInv | gdt/automatch/matchmaker/isotropic.py:103-138 | appending an emitted match keeps: every match valid, matches disjoint from each other and from the pool, positions increasing |
| IsotropicPassProperties.PairStepKeepsInv | gdt/automatch/matchmaker/isotropic.py:102-139 | one pair that does not fail keeps that invariant, with one more pair processed |
| IsotropicPassProperties.PairStepFails | gdt/automatch/matchmaker/isotropic.py:102-139 | one pair keeps the working set free of duplicates and within the input seeks, and fails only on a group of input seeks whose legal hosts own no set |
| IsotropicPassProperties.RunPairsKeepsInv | gdt/automatch/matchmaker/isotropic.py:99-139 | the remaining pairs, unless the pass fails, keep that invariant up to the end of the pass, with all 15 pairs processed |
| IsotropicPassProperties.NextTierKeepsInv | gdt/automatch/matchmaker/isotropic.py:99-100 | the same, from the end of one tier to the start of the next |
| IsotropicPassProperties.NextPairKeepsInv | gdt/automatch/matchmaker/isotropic.py:100-139 | the same, from one (tier, N) pair to the next |
| IsotropicPassProperties.RunPairsFails | gdt/automatch/matchmaker/isotropic.py:99-139 | the remaining pairs fail only on a group of input seeks whose legal hosts own no set |
| IsotropicPassProperties.NextTierFails | gdt/automatch/matchmaker/isotropic.py:99-100 | the same, from the end of one tier to the start of the next |
| IsotropicPassProperties.NextPairFails | gdt/automatch/matchmaker/isotropic.py:100-139 | the same, from one (tier, N) pair to the next |
| IsotropicPassProperties.GenerateSound | gdt/automatch/matchmaker/isotropic.py:91-142 | a pass returns at most 15 matches, each of 2..6 distinct input seeks that all accept its size and tier, hosted by choose_host's pick, in room "Outpost", with the reconciled VP setting; no seek is in two matches; pro comes before casual before unrated, and within a tier larger games first; the pass fails only on a group of input seeks whose legal hosts own no set |
| IsotropicScenarios.SkipIdle | gdt/automatch/matchmaker/isotropic.py:103-105 | pairs with fewer candidates than N are skipped without changing the pass |
| IsotropicScenarios.CasualPairAccepts | gdt/automatch/matchmaker/isotropic.py:45-58 | a seek asking for exactly a casual two-player game accepts (N, rsys) iff N = 2 and rsys = "casual" |
| IsotropicScenarios.CasualPairIdle | gdt/automatch/matchmaker/isotropic.py:103-105 | for such seeks every pair but (casual, 2) has no candidates, so fewer than N |
| IsotropicScenarios.CasualPairMatch | gdt/automatch/matchmaker/isotropic.py:107-139 | for such seeks, from the start of the pass, the (casual, 2) pair takes the pass to a state holding exactly one match, a casual two-player one, whose working set holds only input seeks; the rest of the pass continues from that state |
| IsotropicScenarios.CasualPairsOneMatch | gdt/automatch/matchmaker/isotropic.py:99-139 | two or more different seeks each asking for exactly a casual two-player game, every host acceptable and every player owning a set: one pass emits exactly one casual two-player match, for every random choice |
| IsotropicScenarios.TooFewForFour | gdt/automatch/matchmaker/isotropic.py:103-105 | at most three seeks that each ask for four to six players: the pass emits no match, for every random choice and every oracle |

## Left out

- Logging and `match.to_dict()` (`isotropic.py:135-136`) only observe; they are not modelled.
- The `int(...)` coercion of the player-count bounds (`isotropic.py:52`) is not modelled; bounds are integers.
- Type dispatch by `isinstance` and by class name (`isotropic.py:48, 54, 130`) becomes the
  constructors of `Requirement`, so subclasses of the requirement classes are not modelled.
- The `random` module is replaced by the `Draws` parameter. Probability and uniformity are not modelled.
- Python set iteration order of the working set is not modelled. The model lists it in
  last-occurrence order (a repeated seek is kept where it last appears), and every pop and swap
  is a free parameter.
- Seek identity: the set operations of `isotropic.py:96, 138` compare seeks by the `Seek` class's
  own equality. That class is not part of this model; two seeks here are the same seek exactly
  when they are equal values.
- ChooseHost: the oracle sees the group, the rating system and the tentative host name, but not
  the room or the VP setting. In generate_matches both are unset while choose_host runs.
- Inputs are Dafny sequences, so leaving the input collection unchanged (`isotropic.py:95-96`)
  holds by construction and is not stated.
- Exceptions other than the `max_host` crash (from the oracle or the model classes) are not
  modelled.
- The `Matchmaker` superclass and the `Match`, `Seek`, `Player` and requirement classes of
  `gdt.automatch.model` and `gdt.automatch.requirement` are not part of this model; the fields
  the matchmaker uses are modelled as datatypes and the `Match` class.
