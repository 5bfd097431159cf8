/**
 * The rows of the six relations created by `init_db` in db.py. Times are
 * integer seconds on one clock; text columns are strings.
 */
module Tables {
  import opened Wrappers

  /** A face embedding, as produced by the external face model. */
  type Embedding = seq<real>

  /** `eligible_voters`, keyed by `voter_id` (the key is the map key). */
  datatype EligibleVoter = EligibleVoter(name: string, email: string, phone: string, isRegistered: int)

  /** `voters`: one enrolled face per voter. */
  datatype VoterRow = VoterRow(voterId: string, embedding: Embedding, registeredAt: int)

  /** The three flows an OTP can be issued for. */
  datatype Purpose = Register | Login | Vote

  /** `otp_codes`: an append-only log of issued codes. */
  datatype OtpRow = OtpRow(id: int, voterId: string, purpose: Purpose, code: string, expiresAt: int, createdAt: int)

  /** `elections`, keyed by `id` (the key is the map key). */
  datatype Election = Election(title: string, startAt: int, endAt: int, isActive: int, createdAt: int)

  /** `candidates`. */
  datatype Candidate = Candidate(id: int, electionId: int, name: string)

  /** `votes`: one cast ballot. */
  datatype Ballot = Ballot(id: int, electionId: int, voterId: string, candidateId: int, votedAt: int)

  /** The voter ids present in `voters`. */
  function VoterIds(voters: seq<VoterRow>): set<string> {
    set i | 0 <= i < |voters| :: voters[i].voterId
  }

  /** `voters.voter_id` is a PRIMARY KEY. */
  predicate VoterKeysUnique(voters: seq<VoterRow>) {
    forall i, j :: 0 <= i < j < |voters| ==> voters[i].voterId != voters[j].voterId
  }

  /** An AUTOINCREMENT key on a table that is never deleted from: row i has id i + 1. */
  predicate OtpIdsSequential(rows: seq<OtpRow>) {
    forall i :: 0 <= i < |rows| ==> rows[i].id == i + 1
  }

  predicate CandidateIdsSequential(rows: seq<Candidate>) {
    forall i :: 0 <= i < |rows| ==> rows[i].id == i + 1
  }

  predicate BallotIdsSequential(rows: seq<Ballot>) {
    forall i :: 0 <= i < |rows| ==> rows[i].id == i + 1
  }

  /** `UNIQUE(election_id, voter_id)` on `votes`. */
  predicate OneBallotPerVoter(votes: seq<Ballot>) {
    forall i, j :: 0 <= i < j < |votes| ==>
      (votes[i].electionId, votes[i].voterId) != (votes[j].electionId, votes[j].voterId)
  }

  /** Some ballot of `voterId` in election `electionId` exists. */
  predicate HasVoted(votes: seq<Ballot>, electionId: int, voterId: string) {
    exists i :: 0 <= i < |votes| && votes[i].electionId == electionId && votes[i].voterId == voterId
  }

  /** A candidate row with this id belongs to this election. */
  predicate HasCandidate(candidates: seq<Candidate>, candidateId: int, electionId: int) {
    exists i :: 0 <= i < |candidates| && candidates[i].id == candidateId && candidates[i].electionId == electionId
  }

  /** The indices of the ballots cast by `voterId` in election `electionId`. */
  function BallotsOf(votes: seq<Ballot>, electionId: int, voterId: string): set<nat> {
    set i: nat | i < |votes| && votes[i].electionId == electionId && votes[i].voterId == voterId
  }

  /** Under the uniqueness constraint, a voter holds at most one ballot per election. */
  lemma AtMostOneBallot(votes: seq<Ballot>, electionId: int, voterId: string)
    requires OneBallotPerVoter(votes)
    ensures |BallotsOf(votes, electionId, voterId)| <= 1
  {
    var s := BallotsOf(votes, electionId, voterId);
    if s != {} {
      var i :| i in s;
      assert forall j :: j in s ==> j == i;
      assert s == {i};
    }
  }

  /** Casting a ballot for a pair that has none keeps the pair unique. */
  lemma CastKeepsOneBallot(votes: seq<Ballot>, b: Ballot)
    requires OneBallotPerVoter(votes)
    requires !HasVoted(votes, b.electionId, b.voterId)
    ensures OneBallotPerVoter(votes + [b])
  {
    var vs := votes + [b];
    forall i, j | 0 <= i < j < |vs|
      ensures (vs[i].electionId, vs[i].voterId) != (vs[j].electionId, vs[j].voterId)
    {
      if j == |votes| {
        assert vs[i] == votes[i];
      } else {
        assert vs[i] == votes[i] && vs[j] == votes[j];
      }
    }
  }

  lemma VoterIdsAppend(voters: seq<VoterRow>, v: VoterRow)
    ensures VoterIds(voters + [v]) == VoterIds(voters) + {v.voterId}
  {
    var vs := voters + [v];
    forall id | id in VoterIds(vs) ensures id in VoterIds(voters) + {v.voterId} {
      var i :| 0 <= i < |vs| && vs[i].voterId == id;
      if i < |voters| { assert vs[i] == voters[i]; }
    }
    forall id | id in VoterIds(voters) ensures id in VoterIds(vs) {
      var i :| 0 <= i < |voters| && voters[i].voterId == id;
      assert vs[i] == voters[i];
    }
    assert vs[|voters|] == v;
  }

  /** `voter_row(voter_id)`: the enrolled row of a voter, if any. */
  function FindVoter(voters: seq<VoterRow>, id: string): (r: Option<VoterRow>)
    ensures r.None? <==> id !in VoterIds(voters)
    ensures r.Some? ==> r.value in voters && r.value.voterId == id
  {
    if voters == [] then None
    else if voters[0].voterId == id then Some(voters[0])
    else
      assert VoterIds(voters) == {voters[0].voterId} + VoterIds(voters[1..]) by {
        assert voters == [voters[0]] + voters[1..];
        forall x | x in VoterIds(voters) ensures x in {voters[0].voterId} + VoterIds(voters[1..]) {
          var i :| 0 <= i < |voters| && voters[i].voterId == x;
          if i > 0 { assert voters[1..][i - 1] == voters[i]; }
        }
        forall x | x in VoterIds(voters[1..]) ensures x in VoterIds(voters) {
          var i :| 0 <= i < |voters[1..]| && voters[1..][i].voterId == x;
          assert voters[i + 1] == voters[1..][i];
        }
      }
      FindVoter(voters[1..], id)
  }
}
