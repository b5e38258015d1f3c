/** One ballot, as `src/types.rs` (and the copy at the top of `src/main.rs`) declares it. */
module ElectionTypes {

  datatype Vote = Vote(
    /** The unique id of the voter (and candidate). */
    voterId: string,
    /** The id of the one they vote for, `""` when they did not vote. */
    voteFor: string,
    /** How many votes they hold (a `u64` in the source; see README, "Left out"). */
    numberOfVotes: nat,
    /** Whether they are willing to be elected. */
    willingCandidate: bool)
}
