/**
 * The client's quorum rule (`has_reached_quorum`): it counts validators, not
 * stake. With fewer than three validators every one must vote; otherwise
 * `floor(2n/3)` votes suffice.
 */
module Quorum {

  /**
   * `has_reached_quorum(total_validators, votes)`: every validator voting is
   * always a quorum, and no votes never are when there is a validator.
   */
  function HasReachedQuorum(total: nat, votes: nat): (r: bool)
    ensures votes == total ==> r
    ensures total > 0 && votes == 0 ==> !r
  {
    if total < 3 then votes == total else votes >= 2 * total / 3
  }

  /** The rule stated without division: for three or more validators, `3v + 2 >= 2n`. */
  lemma QuorumWithoutDivision(total: nat, votes: nat)
    ensures total < 3 ==> (HasReachedQuorum(total, votes) <==> votes == total)
    ensures total >= 3 ==> (HasReachedQuorum(total, votes) <==> 3 * votes + 2 >= 2 * total)
  {
  }

  /** Among counts that do not exceed the validator count, more votes never lose a quorum. */
  lemma QuorumMonotone(total: nat, votes: nat, more: nat)
    requires votes <= more <= total
    requires HasReachedQuorum(total, votes)
    ensures HasReachedQuorum(total, more)
  {
  }

  /** Every validator voting is a quorum, including with no validators at all. */
  lemma UnanimityIsQuorum(total: nat)
    ensures HasReachedQuorum(total, total)
    ensures HasReachedQuorum(0, 0)
  {
  }

  /** With at least one validator, zero votes are never a quorum. */
  lemma NoVotesNoQuorum(total: nat)
    requires total > 0
    ensures !HasReachedQuorum(total, 0)
  {
  }

  lemma Examples()
    ensures HasReachedQuorum(3, 2) && !HasReachedQuorum(3, 1)
    ensures HasReachedQuorum(4, 2) && !HasReachedQuorum(4, 1)
    ensures HasReachedQuorum(6, 4) && !HasReachedQuorum(6, 3)
    ensures HasReachedQuorum(2, 2) && !HasReachedQuorum(2, 1)
  {
  }

  /**
   * Two quorums drawn from disjoint sets of validators can only coexist with
   * four validators (two and two) or with none: for every other count, any
   * two quorums together exceed the validator count and so share a validator.
   */
  lemma QuorumsOverlap(total: nat, a: nat, b: nat)
    requires total != 4 && total != 0
    requires HasReachedQuorum(total, a) && HasReachedQuorum(total, b)
    ensures a + b > total
  {
    QuorumWithoutDivision(total, a);
    QuorumWithoutDivision(total, b);
  }

  /** Four validators split two and two give two disjoint quorums. */
  lemma FourValidatorsSplit()
    ensures HasReachedQuorum(4, 2) && 2 + 2 <= 4
  {
  }
}
