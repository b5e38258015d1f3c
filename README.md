# Electorium in Dafny

Electorium counts a delegated ("liquid") vote. Each ballot names a voter id and the id it votes
for. It carries a number of votes and says whether the voter is willing to be elected. The votes
of a ballot flow along the chain of `vote_for` links until the chain ends or comes back on
itself. Every willing candidate on that chain counts them. The winner is then picked as follows:

- the willing candidates with the highest total form the best ring;
- among the ring's members, the ones who would hold the most votes without the ring win;
- a single winner hands the win to a "patron", a voter that supplies more than half of its votes;
- a remaining tie is broken by a Blake2b hash.

The project models:

- **`src/lib.rs`, the library version.** This covers `mk_candidates`, `compute_delegated_votes`,
  `order_by_total_indirect`, `get_tenative_winners`, `best_of_ring`, `get_patron`, `solve_winner`,
  `tie_breaker` and `compute_winner`. The candidate table is an `array` of records that the
  methods update in place. Each method is proved equal to a specification function of the old
  table, and lemmas state what those functions mean.
- **`src/main.rs`, the earlier variant.** It has the same steps, a table in input order, the
  two-bucket `get_two_best_rings` and a mark-based patron search.
- **The three fuzz front ends.** These turn raw bytes or records into ballots:
  - `fuzzable/src/lib.rs`, ids looked up in a name list;
  - `fuzz/src/main.rs`, 16-bit ids printed as `voter/xxxx` or `cand/xxxx`;
  - `fuzz/fuzz_targets/fuzz_target_1.rs`, records of two 8-bit ids and 16-bit votes.
- **`fuzz-afl/src/compile.rs`.** This compiles a text description of ballots to 3-byte records,
  numbering names as it meets them. The AFL target itself (`fuzz-afl/src/fuzz.rs`) does not read
  these records: it hands its input to `fuzzable`, which reads 4-byte records.

Shared pieces:

- `DelegationPaths` defines the delegation path of a candidate, the votes that flow into it, and
  the voter lists.
- `TieBreaking` defines the lexicographic byte order and the "first with the least key" pick.
- `HexFormat` defines Rust's zero-padded `{:04x}` / `{:02x}` and its inverse.
- `MachineInts` defines the `u8` and `u16` ranges.
- Panics of the source (`assert!`, `unwrap`, an out-of-range index, an arithmetic underflow)
  become the `Panic` case of `Wrappers.Result`.

Two behaviours of the source are kept as written and shown by example lemmas:

- `ElectoriumCandidates.ReorderedBallotsExample`: `mk_candidates` in `src/lib.rs` moves the willing
  ballots to the front. It then resolves the `vote_for` of entry `i` from ballot `i` of the
  original order, which is not the ballot that entry holds once the order has changed.
- `EarlyWinner.SecondRingIsNotRunnerUp`: the second bucket of `get_two_best_rings` in
  `src/main.rs` is not the set of runners-up. A candidate displaced from the top bucket is
  dropped, not moved down.

Some loops of the source are split into helper methods, each proved against its own slice of the
specification:

- `PushPass` and `ResolveVotes` for `mk_candidates`;
- `Enlist` and `WalkPath` for `compute_delegated_votes`;
- `CollectSortables` for the first loop of `order_by_total_indirect`;
- `ScoreOf`, `RingScores` and `PickBest` for `best_of_ring`;
- `CompileWordsLoop` and `CompileOneLine` for the line loop of `compile.rs`, whose driver
  `RunLines` takes the per-line step as a parameter;
- `MkVotesWith` for the record loop of `mk_votes` in `fuzz/src/main.rs`, which takes the record
  parser as a parameter, so that the loop is proved once for any parser of six-byte records.

## Model

| member | source | states |
|---|---|---|
| ElectoriumCandidates.PlacedIsPermutation | src/lib.rs:57-78 | the two pushing passes place every ballot exactly once (same length, same multiset) |
| ElectoriumCandidates.PlacedWillingFirst | src/lib.rs:57-78 | after placing, willing ballots come first and the others after them, both in input order |
| ElectoriumCandidates.SelectSplit | src/lib.rs:57-78 | the willing and unwilling selections together are the input, as a multiset |
| ElectoriumCandidates.SelectFlags | src/lib.rs:57-78 | each pass only pushes ballots with the flag it looks for |
| ElectoriumCandidates.IndexByNameIsLast | src/lib.rs:75 | an id is indexed iff some placed ballot carries it, and then to the last such position |
| ElectoriumCandidates.ResolveVoteForSpec | src/lib.rs:79-92 | a `vote_for` resolves iff it names a known id other than the voter's own, and then to an entry with that id |
| ElectoriumCandidates.PlacedKnowsSameIds | src/lib.rs:57-78 | reordering keeps the set of known ids |
| ElectoriumCandidates.ReorderedBallotsExample | src/lib.rs:79-92 | the zip resolves entry `i` from input ballot `i` even when entry `i` holds another ballot |
| ElectoriumCandidates.ResolvedIsCandidates | src/lib.rs:79-92 | resolving each fresh entry against its zipped ballot gives the table `Candidates` |
| ElectoriumCandidates.PushPass | src/lib.rs:57-78 | one pass pushes exactly the selected ballots, indexes their ids and counts the willing ones |
| ElectoriumCandidates.ResolveVotes | src/lib.rs:79-92 | the resolving loop sets each entry's link from its zipped ballot |
| ElectoriumCandidates.ResolveDistinct | src/lib.rs:79-92 | when ids are distinct, a `vote_for` naming another ballot's id resolves to that ballot's entry |
| ElectoriumCandidates.SelectWillingFirst | src/lib.rs:57-78 | when the willing ballots already come first, each pass keeps the input order |
| ElectoriumCandidates.PlacedWhenWillingFirst | src/lib.rs:57-78 | then the table holds the ballots in input order and counts the willing prefix |
| ElectoriumCandidates.MkCandidates | src/lib.rs:50-94 | returns a new table equal to `Candidates(votes)` and `total_willing` equal to the number of willing ballots |
| ElectoriumDelegation.ThreadedStep | src/lib.rs:105-108 | threading entry `k` pushes it on the front of the voter list of its target and leaves every other list as it was |
| ElectoriumDelegation.EnlistStep | src/lib.rs:104-108 | handling entry `k` first links it in front of its target's voter list, the target's `voted_for_me` becoming `k`; nothing else changes |
| ElectoriumDelegation.WalkDone | src/lib.rs:112-141 | the walk from entry `k` adds its votes to every other entry on its delegation path, and only there |
| ElectoriumDelegation.Enlist | src/lib.rs:105-108 | the threading step on the array matches `Enlisted` |
| ElectoriumDelegation.WalkPath | src/lib.rs:112-141 | the walk visits exactly the delegation path, stopping at a repeat, and adds the votes to every member but the origin |
| ElectoriumDelegation.ComputeDelegatedVotes | src/lib.rs:96-143 | the table afterwards equals `Delegated` of the table before |
| ElectoriumTally.DelegatedKeepsBallots | src/lib.rs:96-143 | the tally keeps every entry's link, ballot, flag and ranking link |
| ElectoriumTally.DelegatedIsTallied | src/lib.rs:96-143 | the tally threads every voter list, and every total becomes the entry's own votes (if willing) plus what reaches it from the others |
| ElectoriumTally.CandidatesUntallied | src/lib.rs:50-94 | the fresh table has valid links, empty lists, and a total equal to the entry's own votes when willing and zero otherwise |
| ElectoriumTally.PreviousVoterBelow | src/lib.rs:105-108 | a voter-list link always points to a lower index |
| ElectoriumTally.VoterListIsVoters | src/lib.rs:105-108 | following `voted_for_me` then `voting_for_same` lists exactly the voters of the entry, from the highest index down |
| ElectoriumTally.WillingTotalIsInflow | src/lib.rs:112-141 | a willing candidate's total is the votes of every ballot whose path reaches it, its own included |
| ElectoriumTally.UnwillingTotalIsReceived | src/lib.rs:112-141 | an unwilling entry's total is what others send it (its own votes excluded) |
| DelegationPaths.PathIsStoppedWalk | src/lib.rs:112-141 | a path starts at its origin, repeats nothing, follows the links, and stops at a missing link or a repeat |
| DelegationPaths.ExtendIsStoppedWalk | src/lib.rs:112-141 | extending a walk until it stops yields a stopped walk with the old walk as a prefix |
| DelegationPaths.ExtendStep | src/lib.rs:115-122 | the walk follows the link of its last member unless that link leads back onto the walk |
| DelegationPaths.PathClosed | src/lib.rs:115-122 | the link out of any path member leads back into the path |
| DelegationPaths.PathWithin | src/lib.rs:112-141 | reachability is transitive: the path of a path member lies inside the path |
| DelegationPaths.PathUnfold | src/lib.rs:112-141 | a node is on the path of `x` iff it is `x` or on the path of its target |
| DelegationPaths.MutualSameOrigins | src/lib.rs:115-122 | two members of one ring are reached by the same origins |
| DelegationPaths.NoSharedOrigin | src/lib.rs:320-330 | two distinct voters of `t` that `t` cannot reach share no origin |
| DelegationPaths.InflowIsReceivedPlusOwn | src/lib.rs:132 | inflow equals votes received from others plus the entry's own votes |
| DelegationPaths.MutualSameInflow | src/lib.rs:115-122 | members of one ring receive the same inflow |
| DelegationPaths.VotersShareInflow | src/lib.rs:320 | the inflows of two distinct voters of `t` (off its path) together never exceed `t`'s inflow |
| DelegationPaths.LastVoterBelowSpec | src/lib.rs:105-108 | finds the highest voter of `t` below `k`, and there is none when it returns `None` |
| DelegationPaths.VotersBelowSpec | src/lib.rs:105-108 | lists exactly the voters of `t` below `k`, in decreasing order |
| ElectoriumRanking.InsertByScoreKeeps | src/lib.rs:164 | insertion keeps every element and adds the new one |
| ElectoriumRanking.InsertByScoreSorted | src/lib.rs:164 | insertion into a sorted sequence stays sorted |
| ElectoriumRanking.SortByScoreSpec | src/lib.rs:164 | the stable sort by score is a permutation, sorted by (score, original index) |
| ElectoriumRanking.LexSortedPairwise | src/lib.rs:164 | in a sorted sequence every entry comes before every later one |
| ElectoriumRanking.RankingIsRanking | src/lib.rs:155-164 | the ranking lists each of the first `m` indices once, from lowest to highest total, ties by index |
| ElectoriumRanking.LinkChainAt | src/lib.rs:165-173 | linking sets only `next_by_total_indirect_votes`, pointing each entry at the one ranked just below |
| ElectoriumRanking.FollowDownRanking | src/lib.rs:165-173 | following the links from rank `j` visits each lower rank in turn and then ends |
| ElectoriumRanking.RankedBelowChain | src/lib.rs:164 | every entry of a ranking is ranked below every later one |
| ElectoriumRanking.LinkedIsRankLinked | src/lib.rs:165-173 | the linked table is what `get_tenative_winners` reads: ranked, linked and with links in range |
| ElectoriumRanking.CollectSortables | src/lib.rs:155-163 | the first loop collects the index and total of each of the first `m` entries, in table order |
| ElectoriumRanking.OrderByTotalIndirect | src/lib.rs:146-175 | given entries that are willing (see "Left out"), links them in the table from the lowest ranked up and returns the top-ranked one |
| ElectoriumRanking.OrderByTotalIndirectSpec | src/lib.rs:146-175 | the head is `None` iff there is nothing to rank, else the top-ranked entry; the list visits every ranked entry once and nothing else changes |
| ElectoriumWinner.RingWalkEnd | src/lib.rs:221-232 | when the walk down the ranking stops, the walked entries are exactly the willing ones with the top total and the stopper is the runner-up |
| ElectoriumWinner.GetTenativeWinners | src/lib.rs:213-243 | returns the best ring (all willing entries with the top score) and the best-ranked entry below it |
| ElectoriumWinner.SupportFlat | src/lib.rs:253-264 | entries that do not vote for `t` add nothing to its ring score |
| ElectoriumWinner.ScoreOf | src/lib.rs:253-264 | a member's score is its own votes plus the totals of its direct voters outside the ring |
| ElectoriumWinner.RingScores | src/lib.rs:253-264 | scores every ring member exactly once |
| ElectoriumWinner.MaxScoreSpec | src/lib.rs:265-276 | the highest score bounds every score and is attained when there is a score |
| ElectoriumWinner.WinnersSpec | src/lib.rs:265-276 | the kept members are exactly those scoring the given value |
| ElectoriumWinner.WinnersDistinct | src/lib.rs:265-276 | no kept member appears twice |
| ElectoriumWinner.PickBest | src/lib.rs:265-276 | the second loop keeps exactly the members with the highest score, in order |
| ElectoriumWinner.WinnersBelowMax | src/lib.rs:265-276 | nobody scores above the maximum |
| ElectoriumWinner.BestOfScores | src/lib.rs:247-284 | from a full scoring, the kept members are exactly the best of the ring, each once |
| ElectoriumWinner.BestOfRing | src/lib.rs:247-284 | returns exactly the ring members no member outscores, each once; non-empty iff the ring is |
| ElectoriumWinner.QualifiedSpec | src/lib.rs:307-360 | the qualifying voters are exactly the voters of `tw` that pass every test of `get_patron` |
| ElectoriumWinner.QualifiedFlat | src/lib.rs:307-360 | non-voters of `tw` never qualify |
| ElectoriumWinner.QualifiedGrows | src/lib.rs:307-360 | scanning from a lower index finds at least as many qualifying voters |
| ElectoriumWinner.GetPatron | src/lib.rs:307-367 | returns the only qualifying voter, `None` if there is none, and panics when a second one turns up |
| ElectoriumWinner.HalvesExclusive | src/lib.rs:320 | two voters of a willing `tw` that it cannot reach cannot both hold more than half of its total |
| ElectoriumWinner.QualifiedOffPath | src/lib.rs:325 | in a run-off state a qualifying voter lies off the delegation path of `tw` |
| ElectoriumWinner.AtMostOnePatron | src/lib.rs:362 | in the state `solve_winner` calls it in, at most one voter qualifies, so the `assert!` never fires |
| ElectoriumWinner.RunoffWilling | src/lib.rs:369-415 | a run-off that ends without a panic ends at `tw` or a willing patron |
| ElectoriumWinner.PathSetBound | src/lib.rs:369-415 | a path reaches at least its origin and at most every candidate |
| ElectoriumWinner.PathSetGrows | src/lib.rs:369-415 | a patron off its target's path reaches one entry more than the target |
| ElectoriumWinner.PatronStep | src/lib.rs:369-415 | a patron is willing, starts a run-off state itself, and its path is one longer, so the run-off terminates |
| ElectoriumWinner.SolveWinner | src/lib.rs:369-399 | without a runner-up or with a tie the tentative winners stand; otherwise it returns the single winner the run-off reaches within `|cand|` steps, without a panic |
| ElectoriumWinner.RunRunoff | src/lib.rs:401-414 | from a willing entry of the top ring, or a patron found before, the loop never panics, stops within `|cand|` rounds and returns where the run-off function ends |
| ElectoriumWinner.TalliedIgnoresNext | src/lib.rs:146-175 | ranking changes only the list links, so the table stays tallied |
| ElectoriumWinner.TalliedTable | src/lib.rs:449-487 | after `mk_candidates` and `compute_delegated_votes` the table is tallied, willing first and unlinked |
| ElectoriumWinner.RankedTable | src/lib.rs:449-487 | the first three steps of `compute_winner` leave a ranked, linked, tallied table |
| ElectoriumWinner.FinalistsWilling | src/lib.rs:369-415 | what `solve_winner` hands the tie breaker is non-empty and all willing |
| ElectoriumWinner.TopScoreSpec | src/lib.rs:213-243 | the top total of the first `m` entries bounds each of them and is attained when `m > 0` |
| ElectoriumWinner.TopOfRanking | src/lib.rs:213-243 | the last entry of the ranking holds the top total |
| ElectoriumWinner.FinalistsAreSteps | src/lib.rs:369-415 | `best_of_ring` then `solve_winner` return exactly the finalists, each once: the tied best of the ring, or the end of the single best's run-off |
| ElectoriumWinner.TieBreakLeast | src/lib.rs:425-447 | the tie breaker picks a finalist whose key no finalist's key undercuts |
| ElectoriumWinner.SelectWinner | src/lib.rs:467-485 | yields a willing entry that is a finalist for the top ring and its runner-up, and no finalist's key undercuts its key, whatever order the map is visited in |
| ElectoriumWinner.ComputeWinner | src/lib.rs:449-487 | returns `""` when nobody is willing. Otherwise it returns the voter id of a willing entry the steps choose, which can itself be `""`: the willing-first table is tallied, ranked and linked; then the top ring, best of ring, run-off and least key decide |
| TieBreaking.BytesLessIrreflexive | src/lib.rs:439 | the byte-array order used by `sort_by_key` is irreflexive |
| TieBreaking.BytesLessTransitive | src/lib.rs:439 | the byte-array order is transitive |
| TieBreaking.BytesLessTotal | src/lib.rs:439 | any two byte arrays are equal or ordered one way or the other |
| TieBreaking.FirstLeastSpec | src/lib.rs:436-443 | picks an index whose key no key undercuts, every earlier key being greater (the first element after a stable sort) |
| TieBreaking.PickByKeySpec | src/lib.rs:425-447 | `None` iff there is no winner; otherwise the winner at the first position with the least key |
| EarlyCandidates.ResolveSpec | src/main.rs:52-61 | a `vote_for` resolves iff it names an id of the table (the voter's own included), and then to the last entry with that id |
| EarlyCandidates.CandidatesInInputOrder | src/main.rs:39-63 | entry `i` is ballot `i`: its index, direct votes and flag, a zero total and empty lists |
| EarlyCandidates.SelfVoteKept | src/main.rs:52-61 | a ballot naming its own voter keeps the self-vote |
| EarlyCandidates.MkCandidates | src/main.rs:39-63 | returns a new table equal to `Candidates(votes)` |
| EarlyDelegation.ThreadedStep | src/main.rs:72-76 | threading entry `k` pushes it on the front of its target's voter list |
| EarlyDelegation.EnlistStep | src/main.rs:72-76 | handling entry `k` first links it in front of its target's voter list, the target's `voted_for_me` becoming `k`; nothing else changes |
| EarlyDelegation.WalkDone | src/main.rs:77-98 | the walk from entry `k` adds its direct votes to every other entry on its delegation path, and only there |
| EarlyDelegation.Enlist | src/main.rs:72-76 | the threading step on the array matches `Enlisted` |
| EarlyDelegation.WalkPath | src/main.rs:77-98 | the walk visits exactly the delegation path, stopping at a repeat, and adds the votes to every member but the origin |
| EarlyDelegation.ComputeDelegatedVotes | src/main.rs:65-100 | the table afterwards equals `Delegated` of the table before |
| EarlyTally.DelegatedKeepsBallots | src/main.rs:65-100 | the tally keeps every entry's index, link, direct votes and flag |
| EarlyTally.DelegatedIsTallied | src/main.rs:65-100 | the tally threads every voter list, and every total becomes what reaches the entry from the others |
| EarlyTally.CandidatesUntallied | src/main.rs:39-63 | the fresh table has valid links, empty lists and zero totals |
| EarlyTally.VoterListIsVoters | src/main.rs:72-76 | the voter list of an entry lists exactly its voters, from the highest index down |
| EarlyTally.TotalIsInflowLessOwn | src/main.rs:77-98 | an entry's total plus its own direct votes is the inflow along delegation paths, so a self-vote or a ring never counts its own votes |
| EarlyWinner.TopBelowSpec | src/main.rs:112-131 | the top score bounds every willing total and is attained (or zero) |
| EarlyWinner.SecondBelowSpec | src/main.rs:112-131 | the second bucket's score bounds every displaced entry's total and lies below the top score |
| EarlyWinner.BestStep | src/main.rs:116-122 | how one willing entry clears, joins or leaves the first bucket |
| EarlyWinner.SecondStep | src/main.rs:123-129 | how one willing entry clears, joins or leaves the second bucket |
| EarlyWinner.BestRingSpec | src/main.rs:103-133 | the first bucket holds exactly the willing entries with the largest total; empty iff nobody is willing |
| EarlyWinner.SecondRingSpec | src/main.rs:103-133 | second-bucket members are willing, share a total below the top and are disjoint from the first bucket |
| EarlyWinner.SecondRingIsNotRunnerUp | src/main.rs:116-129 | totals 1 then 2 leave the second bucket empty although a willing entry has total 1 |
| EarlyWinner.GetTwoBestRings | src/main.rs:103-133 | returns the two buckets `BestRing` and `SecondRing` |
| EarlyWinner.TalliedHeads | src/main.rs:65-100 | in a tallied table each `voted_for_me` head is the last voter of its entry |
| EarlyWinner.BestOfRing | src/main.rs:137-159 | returns exactly the ring members no member outscores, each once; empty iff the ring is |
| EarlyWinner.PatronFromSpec | src/main.rs:168-195 | no patron iff no eligible voter; otherwise an eligible voter with the strictly greatest total, the first seen on a tie |
| EarlyWinner.PatronFlat | src/main.rs:168-195 | non-voters of `tw` do not change the patron |
| EarlyWinner.GetPatron | src/main.rs:168-195 | the voter-list walk returns `PatronFrom` of the table |
| EarlyWinner.ChainExtends | src/main.rs:219-232 | a patron of the last tentative winner is not already on the chain |
| EarlyWinner.ChainBound | src/main.rs:219-232 | a chain of distinct tentative winners is no longer than the table |
| EarlyWinner.PatronStep | src/main.rs:219-232 | a patron extends the chain, which stays within the table, so the loop ends |
| EarlyWinner.FindPatron | src/main.rs:220-226 | one round computes the mark (second-bucket score or half the total, whichever is larger) and the patron |
| EarlyWinner.SolveWinner | src/main.rs:197-233 | several tentative winners stand; a single one passes to its patron while there is one, and the result is the run-off's end, which has no patron |
| EarlyWinner.RunoffWilling | src/main.rs:219-232 | a run-off from a willing entry ends at a willing entry |
| EarlyWinner.PreparedTable | src/main.rs:260-285 | `mk_candidates` and `compute_delegated_votes` leave an indexed, tallied table flagged as the ballots are |
| EarlyWinner.FinalistsWilling | src/main.rs:197-233 | the finalists are willing, and there are some iff somebody is willing |
| EarlyWinner.FinalistsAreSteps | src/main.rs:197-233 | `best_of_ring` then `solve_winner` return exactly the finalists, each once: the tied best of the first bucket, or the end of the single best's run-off |
| EarlyWinner.TieBreakLeast | src/main.rs:243-258 | the tie breaker picks a finalist whose key no finalist's key undercuts |
| EarlyWinner.SelectWinner | src/main.rs:260-285 | a winner exists iff some ballot is willing. It is a willing entry and a finalist, and no finalist's key undercuts its key, whatever order the map is visited in |
| EarlyWinner.ComputeWinner | src/main.rs:260-285 | returns `""` when nobody is willing. Otherwise it returns the voter id of a willing entry the steps choose on the tallied table, which can itself be `""` |
| Scenarios.NoOne | src/tests.rs:53-58 | a lone ballot naming an unknown candidate yields no winner |
| Scenarios.AliceAlone | src/tests.rs:60-69 | Alice alone wins, whether she votes for nobody or for herself |
| Scenarios.TriangleFinalists | src/lib.rs:307-415 | in the ranked table of the three-candidate tests, Charlie is the only runner-up, Alice the best of the ring, and Charlie, her patron, the only finalist |
| Scenarios.TriangleWinner | src/tests.rs:71-92 | with Alice, Bob and Charlie as in those tests and at most 2 votes for Bob, Charlie is a winner and the only one, whatever the hash |
| Scenarios.CharlieIsPatron | src/tests.rs:83-92 | `charlie_is_patron`: the winner is Charlie |
| Scenarios.AliceBobCharlieExpectsAlice | src/tests.rs:71-81 | `test_alice_bob_charlie` as written: no winner of its ballots is the Alice it expects |
| Scenarios.AliceBobCharlie | src/tests.rs:71-81 | `test_alice_bob_charlie` with the expectation `compute_winner` meets: Charlie |
| Scenarios.ChainFinalists | src/lib.rs:307-415 | in the ranked table of `ernist_is_patron`, the run-off passes from Alice to Charlie, Dave and Ernist, and Ernist is the only finalist |
| Scenarios.ChainWinner | src/tests.rs:94-105 | with the ballots of `ernist_is_patron`, Ernist is a winner and the only one, whatever the hash |
| Scenarios.ErnistIsPatron | src/tests.rs:94-105 | `ernist_is_patron`: the winner is Ernist |
| HexFormat.UnhexHex | fuzz/src/main.rs:13-15 | reading back `{:04x}` output gives the value back for any value that fits |
| HexFormat.HexInjective | fuzz/src/main.rs:13-15 | two values that fit print differently |
| HexFormat.IdNumberOfFuzzId | fuzz/src/main.rs:11-17 | the number can be read back from a printed `voter/` or `cand/` id |
| FuzzableDecoder.DecodeSpec | fuzzable/src/lib.rs:18-39 | decoding succeeds iff every id byte indexes the name list; then it yields one ballot per whole 4-byte record, field by field |
| FuzzableDecoder.PanicPropagates | fuzzable/src/lib.rs:32-39 | a record whose ids fall outside the name list makes the decoding of every longer prefix panic |
| FuzzableDecoder.DecodeReadsPrefix | fuzzable/src/lib.rs:32-39 | decoding `count` records reads only the first `4 * count` bytes |
| FuzzableDecoder.MkVotes | fuzzable/src/lib.rs:32-39 | the loop over whole records returns `Decode` of all whole records |
| FuzzableDecoder.TrailingBytesIgnored | fuzzable/src/lib.rs:33 | appending fewer than 4 bytes does not change the result |
| FuzzDecoder.ParseU16RoundTrip | fuzz/src/main.rs:20-22 | `parse_u16` of the little-endian bytes of `x` is `x`, and the bytes of a parse are the input |
| FuzzDecoder.MkIdInjective | fuzz/src/main.rs:11-17 | ids above `0x8000` are unwilling `voter/` ids, others willing `cand/` ids; the number is recoverable, so distinct inputs give distinct ids |
| FuzzDecoder.RecordLayout | fuzz/src/main.rs:25-36 | a 6-byte record decodes to voter, votes and `vote_for` read from bytes 0-1, 2-3 and 4-5 |
| FuzzDecoder.DecodeLength | fuzz/src/main.rs:39-46 | decoding `count` records with any record parser yields `count` ballots |
| FuzzDecoder.DecodeAt | fuzz/src/main.rs:39-46 | ballot `k` is the record parser applied to bytes `6k .. 6k + 6` |
| FuzzDecoder.DecodeSpec | fuzz/src/main.rs:39-46 | one ballot per whole record, each laid out as `RecordLayout` says |
| FuzzDecoder.RecordRoundTrip | fuzz/src/main.rs:25-36 | encoding a voter number, votes and target and decoding gives those values back |
| FuzzDecoder.MkVotesWith | fuzz/src/main.rs:39-46 | the loop over whole records, with any record parser, returns one parsed ballot per whole record in order, ignoring trailing bytes |
| FuzzDecoder.MkVotes | fuzz/src/main.rs:39-46 | `mk_votes` with `parse_vote` returns `Decode` of all whole records |
| FuzzTargetDecoder.MkIdInjective | fuzz/fuzz_targets/fuzz_target_1.rs:26-32 | ids above `0x80` are unwilling `voter/` ids; the number is recoverable, so the mapping is injective |
| FuzzTargetDecoder.UnparseParseVote | fuzz/fuzz_targets/fuzz_target_1.rs:35-43 | a record can be recovered from its ballot, and the ballot is willing iff `voter_id <= 0x80` |
| FuzzTargetDecoder.MkVotesRoundTrip | fuzz/fuzz_targets/fuzz_target_1.rs:46-48 | the ballots give back every record, in order |
| AflText.TrimSpec | fuzz-afl/src/compile.rs:34 | trimming returns a slice that drops only whitespace at both ends and has none left there |
| AflText.SplitJoin | fuzz-afl/src/compile.rs:40 | joining the pieces of `split(' ')` with spaces gives back the line, and no piece holds a space |
| AflText.ParseU8Decimal | fuzz-afl/src/compile.rs:46 | parsing the decimal form of `n` gives `n` when `n <= 255`, and a `PosOverflow` panic otherwise |
| AflText.AccumulateAppend | fuzz-afl/src/compile.rs:46 | parsing digits in two parts equals parsing them at once |
| AflCompile.LastIndexSpec | fuzz-afl/src/compile.rs:13-18 | the name loop finds the last position of the name in the list, if any |
| AflCompile.ListedNumberSpec | fuzz-afl/src/compile.rs:16 | a listed name's number is its position modulo 256 |
| AflCompile.UnnumberedConsistent | fuzz-afl/src/compile.rs:7-8 | the initial state (`next_num` 255, empty map) is consistent |
| AflCompile.NumberListed | fuzz-afl/src/compile.rs:13-25 | a listed, unseen name gets its position's number, and the state stays consistent |
| AflCompile.NumberUnlisted | fuzz-afl/src/compile.rs:19-25 | an unlisted, unseen name gets `next_num`, which drops by one, and the state stays consistent |
| AflCompile.GetNumSpec | fuzz-afl/src/compile.rs:9-28 | panics iff a new unlisted name arrives after 255 unlisted names have been numbered (`next_num` is 0); listed names never move the counter. Otherwise the number is remembered, earlier numbers are kept, the call is idempotent and unlisted numbers stay distinct |
| AflCompile.NameTable.GetNumber | fuzz-afl/src/compile.rs:9-28 | the closure on its captured state: result and new state are those of `GetNum` |
| AflCompile.SkippedLineWritesNothing | fuzz-afl/src/compile.rs:34-37 | a trimmed line that is empty or starts with `#` writes nothing and changes nothing |
| AflCompile.CompileWordsSpec | fuzz-afl/src/compile.rs:38-60 | a line writes 3 bytes iff it has 3 or more words, the count parses, and both names can be numbered (a new unlisted name after 255 unlisted names have been numbered, `next_num` being 0, panics). The bytes are `[who, vf, votes]`. The line fails iff the count does not parse, a name cannot be numbered, or a fourth word follows a written record |
| AflCompile.SplitExample | fuzz-afl/src/compile.rs:40 | `split(' ')` of `a 7 b` is the three words |
| AflCompile.VoterNumberedFirst | fuzz-afl/src/compile.rs:49-50 | the voter is numbered before the target: `a 7 b` compiles to `[255, 254, 7]` |
| AflCompile.CompileLineSpec | fuzz-afl/src/compile.rs:32-60 | a line writes nothing or one 3-byte record and keeps the numbering consistent |
| AflCompile.CompileWordsLoop | fuzz-afl/src/compile.rs:38-60 | the loop over the words writes and fails exactly as `CompileWords` says |
| AflCompile.CompileOneLine | fuzz-afl/src/compile.rs:33-60 | one line on the name table matches `CompileLine` |
| AflCompile.RunLinesWhole | fuzz-afl/src/compile.rs:32-61 | with a per-line step writing whole records, the run writes whole records |
| AflCompile.CompileWritesRecords | fuzz-afl/src/compile.rs:32-61 | the compiled output is a whole number of 3-byte records |
| AflCompile.PanicEndsRun | fuzz-afl/src/compile.rs:56-58 | a failing line ends the run: later lines write nothing |
| AflCompile.CompileStopsAtPanic | fuzz-afl/src/compile.rs:56-58 | after a failing line the output and failure are those of the prefix up to it |
| AflCompile.RunLinesStep | fuzz-afl/src/compile.rs:32-61 | one more successful line adds its output in front of the rest of the run |
| AflCompile.CompileInput | fuzz-afl/src/compile.rs:5-62 | the line loop on a name table produces `Compile(names, lines)` |

The specification functions that model a source function without a contract of their own have
no row. They are described by the lemma and method rows that cite the same lines:

- `AflCompile.GetNum`, `CompileWords`, `CompileLine` and `Compile`;
- `AflText.Trim`, `Split` and `ParseU8`;
- `Runoff` and `TieBreak` in both winner modules, and `EarlyWinner.PatronFrom` and `MarkToBeat`;
- the decoders' `MkId`, `ParseVote`, `Decode` and `ParseU16`.

## Left out

- `compute_ring_members` (`src/lib.rs:178-207`) only feeds the introspector. It has no effect on
  the winner, so it is not modelled.
- The `Introspector`, `logging_introspector` and every `is.event(..)` call are left out. They
  only observe the count.
- Blake2b (`tie_breaker_hash`) is the parameter `hash: (string, nat) -> seq<bv8>`. Nothing is
  assumed about it, so the tie breaker is proved for any hash.
- `u64` totals are unbounded `nat`. The sums are assumed to fit: a debug build panics on
  overflow and a release build wraps, and neither is modelled.
- `HashMap` iteration order (the best ring, `number_by_name`) is not modelled. Rings are sets,
  and any iteration order is chosen by `:|`, so every result holds for all orders.
- ElectoriumWinner.Runoff: the run-off is a function with a `fuel` bound. `RunRunoff` proves
  that `|cs|` steps always suffice, so the bound hides no behaviour of the reachable states.
- ElectoriumWinner.SolveWinner: requires the state `compute_winner` calls it in (a ranked,
  tallied table and the best ring). Its run-off guarantee is not stated for other inputs.
- EarlyWinner.SolveWinner: requires the buckets of `get_two_best_rings` on a tallied table, as
  `compute_winner` passes them.
- ElectoriumRanking.OrderByTotalIndirect: the `assert!(c.is_willing_candidate)` at
  `src/lib.rs:158` is a precondition, not a panic case. `compute_winner` always meets it, because
  `mk_candidates` puts the willing ballots first (`ElectoriumWinner.RankedTable`).
- ElectoriumWinner.GetPatron: the `voted_for_me` walk is modelled, but `mk_patron_selection`
  (`src/lib.rs:286-305`) is only an introspector record and is not modelled.
- The `VoteCounter` and `Fuzz` wrappers, the C foreign interface, `build.rs`, the fuzzer entry
  points and every `main` are left out. They are I/O around the decoders and `compute_winner`.
- The output of `compile.rs` is not fed to a decoder. Its 3-byte records do not match the
  4-byte records that `fuzzable`, the decoder behind the AFL target, reads.
- `fuzz-afl/src/names.rs` (the built-in name list) is not part of this model. The list is a
  parameter of `Compile`.
- Reading stdin line by line and `line.unwrap()` on invalid UTF-8 are left out. The input is a
  sequence of lines, and a failed write to stdout is not modelled.
- AflCompile.GetNumSpec: models the debug build, where `next_num -= 1` on zero panics. The
  wrap-around of a release build is not modelled.
- AflText.ParseU8: covers the decimal digits, the optional `+` and the empty, sign-only,
  invalid-digit and overflow errors of `u8::from_str`. The panic message is the error kind's
  name, not Rust's full text.
- FuzzableDecoder.MkId: an index outside the name list is modelled as a panic with the message
  `index out of bounds`, not Rust's full text.
- FuzzTargetDecoder.MkVotes: a function with no contract of its own. What it computes is stated
  by `MkVotesRoundTrip`.
- The `arbitrary` derivation that builds `VotesBin` from raw fuzz bytes is left out. The model
  starts from the records.

## Findings

| source | as written | input that shows it | evidently intended | confidence | as-written member | corrected member |
|---|---|---|---|---|---|---|
| src/tests.rs:80 | `test_alice_bob_charlie` expects Alice to win | the test's own ballots: Alice and Bob total 9 each and Charlie 5. Since 5 > 9 / 2, `get_patron` (`src/lib.rs:320-364`) accepts Charlie as Alice's patron, so Charlie wins | the test states what `compute_winner` returns on its ballots, which is Charlie. `charlie_is_patron` relies on the same patron rule, so the model keeps the rule and corrects the expectation | medium; not executed | Scenarios.AliceBobCharlieExpectsAlice | Scenarios.AliceBobCharlie |
