/**
 * The identity-verification and ballot state machine of app.py: the route
 * handlers as methods of one object holding the tables of db.py and the
 * Flask session. Each handler is a chain of guards followed by a block of
 * table and session updates; a rejected request changes nothing.
 */
module App {
  import opened Wrappers
  import opened Text
  import opened Tables
  import Otp
  import Face
  import Roster
  import Elections

  /** The session keys the voter flows use. */
  datatype SessionKey =
    | PendingVoterId | PendingEmail | PendingElectionId
    | OtpVerifiedRegister | OtpVerifiedLogin | OtpVerifiedVote | FaceVerifiedVote
    | LoggedInVoter  // "voter_id"

  datatype SessionValue = StrVal(s: string) | IntVal(n: int) | BoolVal(b: bool)

  type Session = map<SessionKey, SessionValue>

  /** Python truthiness of a stored value. */
  predicate Truthy(v: SessionValue) {
    match v
    case StrVal(s) => s != ""
    case IntVal(n) => n != 0
    case BoolVal(b) => b
  }

  /** `session.get(key)` is truthy. */
  predicate IsSet(session: Session, key: SessionKey) {
    key in session && Truthy(session[key])
  }

  /** The kind of value each key holds. */
  predicate SessionTyped(session: Session) {
    && (PendingVoterId in session ==> session[PendingVoterId].StrVal?)
    && (PendingEmail in session ==> session[PendingEmail].StrVal?)
    && (LoggedInVoter in session ==> session[LoggedInVoter].StrVal?)
    && (PendingElectionId in session ==> session[PendingElectionId].IntVal?)
    && (OtpVerifiedRegister in session ==> session[OtpVerifiedRegister].BoolVal?)
    && (OtpVerifiedLogin in session ==> session[OtpVerifiedLogin].BoolVal?)
    && (OtpVerifiedVote in session ==> session[OtpVerifiedVote].BoolVal?)
    && (FaceVerifiedVote in session ==> session[FaceVerifiedVote].BoolVal?)
  }

  /** `otp_verified_<purpose>`. */
  function VerifiedFlag(p: Purpose): SessionKey {
    match p
    case Register => OtpVerifiedRegister
    case Login => OtpVerifiedLogin
    case Vote => OtpVerifiedVote
  }

  /**
   * What a face request yields: no image in the body, an image in which the
   * face model finds no face, or the embedding of the detected face.
   */
  datatype Capture = Missing | Undetected | Detected(embedding: Embedding)

  /** The rejections the handlers report. */
  datatype Failure =
    | MissingInput
    | NotEligible
    | AlreadyRegistered
    | NotRegistered
    | EmailMismatch
    | SmtpNotConfigured
    | DeliveryFailure
    | NotLoggedIn
    | UnknownPurpose
    | SessionExpired
    | OtpNotFound
    | OtpExpired
    | OtpInvalid
    | OtpNotVerified
    | NoImage
    | NoFaceDetected
    | DuplicateFace(matchedVoter: string, distance: real)
    | FaceMismatch(distance: real)
    | VerificationIncomplete
    | ElectionNotActive
    | AlreadyVoted
    | InvalidCandidate
    | ElectionNotFound
    | InvalidDate
    | TooFewCandidates

  datatype Outcome = Ok | Rejected(failure: Failure)

  /**
   * The `candidate_id` form field: missing or empty, text that SQLite's
   * integer affinity cannot turn into a number (so it matches no candidate
   * id), or the id it names.
   */
  datatype CandidateField = NoChoice | NotANumber | Chosen(id: int)

  /** The field names a candidate row of election `electionId`. */
  predicate ChoosesCandidateOf(candidates: seq<Candidate>, field: CandidateField, electionId: int) {
    field.Chosen? && HasCandidate(candidates, field.id, electionId)
  }

  /** A date field of the election form: empty once stripped, not ISO 8601, or the instant it names. */
  datatype DateField = Blank | Malformed | At(t: int)

  /** The message `verify_otp` reports for each verdict of `verify_latest_otp`. */
  function VerdictOutcome(v: Otp.Verdict): Outcome {
    match v
    case Verified => Ok
    case NotFound => Rejected(OtpNotFound)
    case Expired => Rejected(OtpExpired)
    case Invalid => Rejected(OtpInvalid)
  }

  /** The candidate rows `admin_create_election` inserts for `names`, ids continuing after `base`. */
  function NewCandidates(base: int, electionId: int, names: seq<string>): (cs: seq<Candidate>)
    ensures |cs| == |names|
    ensures forall i :: 0 <= i < |names| ==> cs[i] == Candidate(base + i + 1, electionId, names[i])
  {
    if names == [] then []
    else NewCandidates(base, electionId, names[..|names| - 1]) + [Candidate(base + |names|, electionId, names[|names| - 1])]
  }

  /** The insert loop over the parsed names (app.py:791-792), collecting the rows it writes. */
  method CandidateRows(base: int, electionId: int, names: seq<string>) returns (rows: seq<Candidate>)
    ensures rows == NewCandidates(base, electionId, names)
  {
    rows := [];
    var i := 0;
    while i < |names|
      invariant 0 <= i <= |names|
      invariant rows == NewCandidates(base, electionId, names[..i])
    {
      assert names[..i + 1][..i] == names[..i];
      rows := rows + [Candidate(base + |rows| + 1, electionId, names[i])];
      i := i + 1;
    }
    assert names[..i] == names;
  }

  /** A candidate of an election stays one when rows are appended to the table. */
  lemma HasCandidateAppend(cs: seq<Candidate>, more: seq<Candidate>, candidateId: int, electionId: int)
    requires HasCandidate(cs, candidateId, electionId)
    ensures HasCandidate(cs + more, candidateId, electionId)
  {
    var i :| 0 <= i < |cs| && cs[i].id == candidateId && cs[i].electionId == electionId;
    assert (cs + more)[i] == cs[i];
  }

  /**
   * Adding election `lastId + 1` with its candidate rows keeps the election
   * and ballot invariants: ids still come from the counter, every candidate
   * row names an election, and every ballot still names an election and one
   * of its candidates.
   */
  lemma AddElectionKeepsTables(elections: map<int, Election>, lastId: nat, candidates: seq<Candidate>,
                               votes: seq<Ballot>, names: seq<string>,
                               es: map<int, Election>, cs: seq<Candidate>)
    requires forall id :: id in elections ==> 1 <= id <= lastId
    requires CandidateIdsSequential(candidates)
    requires forall i :: 0 <= i < |candidates| ==> candidates[i].electionId in elections
    requires forall i :: 0 <= i < |votes| ==> votes[i].electionId in elections
    requires forall i :: 0 <= i < |votes| ==> HasCandidate(candidates, votes[i].candidateId, votes[i].electionId)
    requires lastId + 1 in es && es.Keys == elections.Keys + {lastId + 1}
    requires cs == candidates + NewCandidates(|candidates|, lastId + 1, names)
    ensures forall id :: id in es ==> 1 <= id <= lastId + 1
    ensures CandidateIdsSequential(cs)
    ensures forall i :: 0 <= i < |cs| ==> cs[i].electionId in es
    ensures forall i :: 0 <= i < |votes| ==> votes[i].electionId in es
    ensures forall i :: 0 <= i < |votes| ==> HasCandidate(cs, votes[i].candidateId, votes[i].electionId)
  {
    var added := NewCandidates(|candidates|, lastId + 1, names);
    forall i | 0 <= i < |cs| ensures cs[i].id == i + 1 && cs[i].electionId in es {
      if i >= |candidates| {
        assert cs[i] == added[i - |candidates|];
      }
    }
    forall j | 0 <= j < |votes| ensures HasCandidate(cs, votes[j].candidateId, votes[j].electionId) {
      HasCandidateAppend(candidates, added, votes[j].candidateId, votes[j].electionId);
    }
  }

  class Portal {
    /** The similarity engine: `cosine_distance` of two embeddings. */
    const dist: (Embedding, Embedding) -> real

    var eligible: map<string, EligibleVoter>
    var voters: seq<VoterRow>
    var otpCodes: seq<OtpRow>
    var elections: map<int, Election>
    var lastElectionId: nat
    var candidates: seq<Candidate>
    var votes: seq<Ballot>
    var session: Session

    /**
     * The keys of db.py and what the handlers keep true of the tables: a
     * voter is enrolled exactly when it is eligible with `is_registered = 1`;
     * no enrolled face lies within the threshold of one enrolled before it;
     * a ballot names an existing election, a candidate of that election and
     * an enrolled voter, and there is at most one per (election, voter); a
     * logged-in session belongs to an enrolled voter.
     */
    ghost predicate Valid()
      reads this
    {
      RosterValid() && OtpLogValid() && ElectionsValid() && BallotsValid() && SessionValid()
    }

    /** Enrolled exactly when eligible with `is_registered = 1`; one row per voter; no two faces alike. */
    ghost predicate RosterValid()
      reads this`voters, this`eligible
    {
      && VoterKeysUnique(voters)
      && (forall id :: id in VoterIds(voters) ==> id in eligible && eligible[id].isRegistered == 1)
      && (forall id :: id in eligible && eligible[id].isRegistered == 1 ==> id in VoterIds(voters))
      && Face.NoDuplicateFaces(voters, dist)
    }

    ghost predicate OtpLogValid()
      reads this`otpCodes
    {
      OtpIdsSequential(otpCodes)
    }

    /** Election ids come from the counter; every candidate belongs to an election. */
    ghost predicate ElectionsValid()
      reads this`elections, this`lastElectionId, this`candidates
    {
      && (forall id :: id in elections ==> 1 <= id <= lastElectionId)
      && CandidateIdsSequential(candidates)
      && (forall i :: 0 <= i < |candidates| ==> candidates[i].electionId in elections)
    }

    /** A ballot names an election, one of its candidates and an enrolled voter; one per voter and election. */
    ghost predicate BallotsValid()
      reads this`votes, this`elections, this`candidates, this`voters
    {
      && BallotIdsSequential(votes)
      && OneBallotPerVoter(votes)
      && (forall i :: 0 <= i < |votes| ==> votes[i].electionId in elections)
      && (forall i :: 0 <= i < |votes| ==> HasCandidate(candidates, votes[i].candidateId, votes[i].electionId))
      && (forall i :: 0 <= i < |votes| ==> votes[i].voterId in VoterIds(voters))
    }

    /** Each session key holds its kind of value; a logged-in voter is enrolled. */
    ghost predicate SessionValid()
      reads this`session, this`voters
    {
      && SessionTyped(session)
      && (LoggedInVoter in session ==> session[LoggedInVoter].s in VoterIds(voters))
    }

    /** An empty database and a fresh session. */
    constructor (dist: (Embedding, Embedding) -> real)
      ensures Valid() && this.dist == dist
      ensures eligible == map[] && voters == [] && otpCodes == [] && elections == map[]
      ensures lastElectionId == 0 && candidates == [] && votes == [] && session == map[]
    {
      this.dist := dist;
      eligible, voters, otpCodes := map[], [], [];
      elections, lastElectionId, candidates, votes := map[], 0, [], [];
      session := map[];
    }

    /**
     * POST /register (app.py:211-258), with the voter id and email as typed
     * (both are stripped first), whether SMTP is configured, the number `generate_otp` drew, whether the
     * mail went out, and the clock. The mail is sent before the row is
     * written, so a failed send changes nothing.
     */
    method Register(voterId: string, email: string, smtpReady: bool, otp: int, delivered: bool, now: int)
      returns (r: Outcome)
      requires Valid()
      requires 100000 <= otp <= 999999
      modifies this`otpCodes, this`session
      ensures Valid()
      ensures AllSpace(voterId) || AllSpace(email) ==> r == Rejected(MissingInput)
      ensures !AllSpace(voterId) && !AllSpace(email) ==>
        (r == if Strip(voterId) !in eligible then Rejected(NotEligible)
              else if eligible[Strip(voterId)].isRegistered == 1 then Rejected(AlreadyRegistered)
              else if Lower(eligible[Strip(voterId)].email) != Lower(Strip(email)) then Rejected(EmailMismatch)
              else if !smtpReady then Rejected(SmtpNotConfigured)
              else if !delivered then Rejected(DeliveryFailure)
              else Ok)
      ensures r.Rejected? ==> otpCodes == old(otpCodes) && session == old(session)
      ensures r == Ok ==>
        (otpCodes == old(otpCodes) + [OtpRow(|old(otpCodes)| + 1, Strip(voterId), Tables.Register, Otp.CodeText(otp), now + Otp.OTP_LIFETIME, now)])
      ensures r == Ok ==> session == old(session)[PendingVoterId := StrVal(Strip(voterId))][PendingEmail := StrVal(Strip(email))]
    {
      StripEmptyIffSpace(voterId);
      StripEmptyIffSpace(email);
      var id, addr := Strip(voterId), Strip(email);
      if id == "" || addr == "" {
        return Rejected(MissingInput);
      }
      if id !in eligible {
        return Rejected(NotEligible);
      }
      var erow := eligible[id];
      if erow.isRegistered == 1 {
        return Rejected(AlreadyRegistered);
      }
      if Lower(erow.email) != Lower(addr) {
        return Rejected(EmailMismatch);
      }
      if !smtpReady {
        return Rejected(SmtpNotConfigured);
      }
      var code := Otp.CodeText(otp);
      if !delivered {
        return Rejected(DeliveryFailure);
      }
      otpCodes := otpCodes + [OtpRow(|otpCodes| + 1, id, Tables.Register, code, now + Otp.OTP_LIFETIME, now)];
      session := session[PendingVoterId := StrVal(id)][PendingEmail := StrVal(addr)];
      r := Ok;
    }

    /**
     * POST /login (app.py:264-306): the voter id as typed is stripped, and the
     * code goes to the email on the eligible list.
     */
    method Login(voterId: string, smtpReady: bool, otp: int, delivered: bool, now: int) returns (r: Outcome)
      requires Valid()
      requires 100000 <= otp <= 999999
      modifies this`otpCodes, this`session
      ensures Valid()
      ensures AllSpace(voterId) ==> r == Rejected(MissingInput)
      ensures !AllSpace(voterId) ==>
        (r == if Strip(voterId) !in eligible then Rejected(NotEligible)
              else if eligible[Strip(voterId)].isRegistered != 1 then Rejected(NotRegistered)
              else if !smtpReady then Rejected(SmtpNotConfigured)
              else if !delivered then Rejected(DeliveryFailure)
              else Ok)
      ensures r.Rejected? ==> otpCodes == old(otpCodes) && session == old(session)
      ensures r == Ok ==>
        (otpCodes == old(otpCodes) + [OtpRow(|old(otpCodes)| + 1, Strip(voterId), Tables.Login, Otp.CodeText(otp), now + Otp.OTP_LIFETIME, now)])
      ensures r == Ok ==> session == old(session)[PendingVoterId := StrVal(Strip(voterId))][PendingEmail := StrVal(eligible[Strip(voterId)].email)]
    {
      StripEmptyIffSpace(voterId);
      var id := Strip(voterId);
      if id == "" {
        return Rejected(MissingInput);
      }
      if id !in eligible {
        return Rejected(NotEligible);
      }
      var erow := eligible[id];
      if erow.isRegistered != 1 {
        return Rejected(NotRegistered);
      }
      if !smtpReady {
        return Rejected(SmtpNotConfigured);
      }
      var code := Otp.CodeText(otp);
      if !delivered {
        return Rejected(DeliveryFailure);
      }
      otpCodes := otpCodes + [OtpRow(|otpCodes| + 1, id, Tables.Login, code, now + Otp.OTP_LIFETIME, now)];
      session := session[PendingVoterId := StrVal(id)][PendingEmail := StrVal(erow.email)];
      r := Ok;
    }

    /**
     * POST /vote-request-otp/<election_id> (app.py:554-588). The election id
     * is stored as given: nothing here checks that the election exists.
     */
    method VoteRequestOtp(electionId: int, smtpReady: bool, otp: int, delivered: bool, now: int) returns (r: Outcome)
      requires Valid()
      requires 100000 <= otp <= 999999
      modifies this`otpCodes, this`session
      ensures Valid()
      ensures LoggedInVoter !in old(session) ==> r == Rejected(NotLoggedIn)
      ensures LoggedInVoter in old(session) ==>
        (r == if old(session)[LoggedInVoter].s !in eligible then Rejected(NotEligible)
              else if !smtpReady then Rejected(SmtpNotConfigured)
              else if !delivered then Rejected(DeliveryFailure)
              else Ok)
      ensures r.Rejected? ==> otpCodes == old(otpCodes) && session == old(session)
      ensures r == Ok ==> var v := old(session)[LoggedInVoter].s;
        && otpCodes == old(otpCodes) + [OtpRow(|old(otpCodes)| + 1, v, Vote, Otp.CodeText(otp), now + Otp.OTP_LIFETIME, now)]
        && session == old(session)[PendingVoterId := StrVal(v)][PendingEmail := StrVal(eligible[v].email)]
                                  [PendingElectionId := IntVal(electionId)]
    {
      if LoggedInVoter !in session {
        return Rejected(NotLoggedIn);
      }
      var voterId := session[LoggedInVoter].s;
      if voterId !in eligible {
        return Rejected(NotEligible);
      }
      var erow := eligible[voterId];
      if !smtpReady {
        return Rejected(SmtpNotConfigured);
      }
      var code := Otp.CodeText(otp);
      if !delivered {
        return Rejected(DeliveryFailure);
      }
      otpCodes := otpCodes + [OtpRow(|otpCodes| + 1, voterId, Vote, code, now + Otp.OTP_LIFETIME, now)];
      session := session[PendingVoterId := StrVal(voterId)][PendingEmail := StrVal(erow.email)]
                        [PendingElectionId := IntVal(electionId)];
      r := Ok;
    }

    /**
     * POST /verify-otp/<purpose> (app.py:312-350). The code as typed is
     * stripped and checked for the pending voter and the purpose in the path; success sets the purpose's
     * flag and nothing else. The OTP log is only read.
     */
    method VerifyOtp(purpose: string, code: string, now: int) returns (r: Outcome)
      requires Valid()
      modifies this`session
      ensures Valid()
      ensures Otp.ParsePurpose(purpose).None? ==> r == Rejected(UnknownPurpose)
      ensures Otp.ParsePurpose(purpose).Some?
        && !(IsSet(old(session), PendingVoterId) && IsSet(old(session), PendingEmail))
        ==> r == Rejected(SessionExpired)
      ensures Otp.ParsePurpose(purpose).Some? && IsSet(old(session), PendingVoterId) && IsSet(old(session), PendingEmail)
        ==> r == VerdictOutcome(Otp.VerifyLatest(otpCodes, old(session)[PendingVoterId].s, Otp.ParsePurpose(purpose).value, Strip(code), now))
      ensures r.Rejected? ==> session == old(session)
      ensures r == Ok ==> session == old(session)[VerifiedFlag(Otp.ParsePurpose(purpose).value) := BoolVal(true)]
    {
      var p := Otp.ParsePurpose(purpose);
      if p.None? {
        return Rejected(UnknownPurpose);
      }
      if !IsSet(session, PendingVoterId) || !IsSet(session, PendingEmail) {
        return Rejected(SessionExpired);
      }
      var voterId := session[PendingVoterId].s;
      var typed := Strip(code);
      var verdict := Otp.VerifyLatest(otpCodes, voterId, p.value, typed, now);
      if verdict != Otp.Verified {
        return VerdictOutcome(verdict);
      }
      RaiseFlag(p.value);
      r := Ok;
    }

    /** Sets the verified flag of one purpose (app.py:334-346). */
    method RaiseFlag(p: Purpose)
      requires Valid()
      modifies this`session
      ensures Valid()
      ensures session == old(session)[VerifiedFlag(p) := BoolVal(true)]
    {
      session := session[VerifiedFlag(p) := BoolVal(true)];
    }

    /**
     * POST /api/register-face (app.py:385-433): enrol the pending voter's face
     * unless it duplicates an enrolled one, mark the voter registered, log
     * the voter in and clear the pending registration.
     */
    method RegisterFace(capture: Capture, now: int) returns (r: Outcome)
      requires Valid()
      modifies this`eligible, this`voters, this`session
      ensures Valid()
      ensures !(IsSet(old(session), PendingVoterId) && IsSet(old(session), OtpVerifiedRegister)) ==> r == Rejected(OtpNotVerified)
      ensures IsSet(old(session), PendingVoterId) && IsSet(old(session), OtpVerifiedRegister) ==>
        var v := old(session)[PendingVoterId].s;
        && (v !in old(eligible) ==> r == Rejected(NotEligible))
        && (v in old(eligible) && old(eligible)[v].isRegistered == 1 ==> r == Rejected(AlreadyRegistered))
        && (v in old(eligible) && old(eligible)[v].isRegistered != 1 ==>
              && (capture.Missing? ==> r == Rejected(NoImage))
              && (capture.Undetected? ==> r == Rejected(NoFaceDetected))
              && (capture.Detected? && Face.AnyWithin(old(voters), capture.embedding, dist) ==>
                    r.Rejected? && r.failure.DuplicateFace?)
              && (capture.Detected? && !Face.AnyWithin(old(voters), capture.embedding, dist) ==> r == Ok))
      ensures r.Rejected? && r.failure.DuplicateFace? ==>
        (capture.Detected? &&
         exists k :: Face.IsFirstNearest(old(voters), capture.embedding, dist, k)
           && r.failure.matchedVoter == old(voters)[k].voterId
           && r.failure.distance == dist(capture.embedding, old(voters)[k].embedding)
           && r.failure.distance <= Face.DUP_FACE_THRESHOLD)
      ensures r.Rejected? ==> unchanged(this)
      ensures r == Ok ==>
        var v := old(session)[PendingVoterId].s;
        && capture.Detected?
        && voters == old(voters) + [VoterRow(v, capture.embedding, now)]
        && eligible == old(eligible)[v := old(eligible)[v].(isRegistered := 1)]
        && session == old(session)[LoggedInVoter := StrVal(v)] - {PendingVoterId, PendingEmail, OtpVerifiedRegister}
    {
      if !IsSet(session, PendingVoterId) || !IsSet(session, OtpVerifiedRegister) {
        return Rejected(OtpNotVerified);
      }
      var voterId := session[PendingVoterId].s;
      if voterId !in eligible {
        return Rejected(NotEligible);
      }
      if eligible[voterId].isRegistered == 1 {
        return Rejected(AlreadyRegistered);
      }
      if capture.Missing? {
        return Rejected(NoImage);
      }
      if capture.Undetected? {
        return Rejected(NoFaceDetected);
      }
      var emb := capture.embedding;
      var dup, matched, d := Face.ScanForDuplicate(voters, emb, dist);
      if dup {
        return Rejected(DuplicateFace(matched.value, d.value));
      }
      Enrol(voterId, emb, now);
      r := Ok;
    }

    /**
     * The writes of a successful enrolment (app.py:416-431): the voter row,
     * `is_registered = 1`, the logged-in voter, and the pending registration
     * cleared.
     */
    method Enrol(voterId: string, emb: Embedding, now: int)
      requires Valid()
      requires voterId in eligible && eligible[voterId].isRegistered != 1
      requires !Face.AnyWithin(voters, emb, dist)
      modifies this`eligible, this`voters, this`session
      ensures Valid()
      ensures voters == old(voters) + [VoterRow(voterId, emb, now)]
      ensures eligible == old(eligible)[voterId := old(eligible)[voterId].(isRegistered := 1)]
      ensures session == old(session)[LoggedInVoter := StrVal(voterId)] - {PendingVoterId, PendingEmail, OtpVerifiedRegister}
    {
      var row := VoterRow(voterId, emb, now);
      assert voterId !in VoterIds(voters);
      VoterIdsAppend(voters, row);
      Face.EnrolKeepsApart(voters, row, dist);
      voters := voters + [row];
      eligible := eligible[voterId := eligible[voterId].(isRegistered := 1)];
      session := session[LoggedInVoter := StrVal(voterId)];
      session := session - {PendingVoterId, PendingEmail, OtpVerifiedRegister};
    }

    /**
     * POST /api/login-face-verify (app.py:435-469): compare the face with the
     * pending voter's enrolled one; equality with the threshold passes.
     */
    method LoginFace(capture: Capture) returns (r: Outcome)
      requires Valid()
      modifies this`session
      ensures Valid()
      ensures !(IsSet(old(session), PendingVoterId) && IsSet(old(session), OtpVerifiedLogin)) ==> r == Rejected(OtpNotVerified)
      ensures IsSet(old(session), PendingVoterId) && IsSet(old(session), OtpVerifiedLogin) ==>
        var v := old(session)[PendingVoterId].s;
        && (v !in VoterIds(voters) ==> r == Rejected(NotRegistered))
        && (v in VoterIds(voters) ==>
              && (capture.Missing? ==> r == Rejected(NoImage))
              && (capture.Undetected? ==> r == Rejected(NoFaceDetected))
              && (capture.Detected? ==>
                    var d := dist(capture.embedding, FindVoter(voters, v).value.embedding);
                    r == if d > Face.DUP_FACE_THRESHOLD then Rejected(FaceMismatch(d)) else Ok))
      ensures r.Rejected? ==> session == old(session)
      ensures r == Ok ==>
        session == old(session)[LoggedInVoter := StrVal(old(session)[PendingVoterId].s)]
                 - {PendingVoterId, PendingEmail, OtpVerifiedLogin}
    {
      if !IsSet(session, PendingVoterId) || !IsSet(session, OtpVerifiedLogin) {
        return Rejected(OtpNotVerified);
      }
      var voterId := session[PendingVoterId].s;
      var vrow := FindVoter(voters, voterId);
      if vrow.None? {
        return Rejected(NotRegistered);
      }
      if capture.Missing? {
        return Rejected(NoImage);
      }
      if capture.Undetected? {
        return Rejected(NoFaceDetected);
      }
      var d := dist(capture.embedding, vrow.value.embedding);
      if d > Face.DUP_FACE_THRESHOLD {
        return Rejected(FaceMismatch(d));
      }
      session := session[LoggedInVoter := StrVal(voterId)];
      session := session - {PendingVoterId, PendingEmail, OtpVerifiedLogin};
      r := Ok;
    }

    /**
     * POST /api/vote-face-verify (app.py:471-501): the same comparison for
     * the pending voter of a vote; success only sets `face_verified_vote`.
     */
    method VoteFace(capture: Capture) returns (r: Outcome)
      requires Valid()
      modifies this`session
      ensures Valid()
      ensures !(IsSet(old(session), PendingVoterId) && IsSet(old(session), PendingElectionId) && IsSet(old(session), OtpVerifiedVote))
        ==> r == Rejected(OtpNotVerified)
      ensures IsSet(old(session), PendingVoterId) && IsSet(old(session), PendingElectionId) && IsSet(old(session), OtpVerifiedVote) ==>
        var v := old(session)[PendingVoterId].s;
        && (v !in VoterIds(voters) ==> r == Rejected(NotRegistered))
        && (v in VoterIds(voters) ==>
              && (capture.Missing? ==> r == Rejected(NoImage))
              && (capture.Undetected? ==> r == Rejected(NoFaceDetected))
              && (capture.Detected? ==>
                    var d := dist(capture.embedding, FindVoter(voters, v).value.embedding);
                    r == if d > Face.DUP_FACE_THRESHOLD then Rejected(FaceMismatch(d)) else Ok))
      ensures r.Rejected? ==> session == old(session)
      ensures r == Ok ==> session == old(session)[FaceVerifiedVote := BoolVal(true)]
    {
      if !IsSet(session, PendingVoterId) || !IsSet(session, PendingElectionId) || !IsSet(session, OtpVerifiedVote) {
        return Rejected(OtpNotVerified);
      }
      var voterId := session[PendingVoterId].s;
      var vrow := FindVoter(voters, voterId);
      if vrow.None? {
        return Rejected(NotRegistered);
      }
      if capture.Missing? {
        return Rejected(NoImage);
      }
      if capture.Undetected? {
        return Rejected(NoFaceDetected);
      }
      var d := dist(capture.embedding, vrow.value.embedding);
      if d > Face.DUP_FACE_THRESHOLD {
        return Rejected(FaceMismatch(d));
      }
      session := session[FaceVerifiedVote := BoolVal(true)];
      r := Ok;
    }

    /**
     * POST /submit-vote/<election_id> (app.py:590-652), with the submitted
     * candidate field. A ballot is
     * written only for the logged-in voter with both vote flags set, in an
     * active election with no ballot of theirs, for a candidate of that
     * election; then the five vote-flow keys are removed. The election is
     * not compared with `pending_election_id`.
     */
    method SubmitVote(electionId: int, candidate: CandidateField, now: int) returns (r: Outcome)
      requires Valid()
      modifies this`votes, this`session
      ensures Valid()
      ensures LoggedInVoter !in old(session) ==> r == Rejected(NotLoggedIn)
      ensures LoggedInVoter in old(session) ==>
        (r == if !IsSet(old(session), OtpVerifiedVote) || !IsSet(old(session), FaceVerifiedVote) then Rejected(VerificationIncomplete)
              else if candidate.NoChoice? then Rejected(MissingInput)
              else if electionId !in elections || !Elections.IsElectionActive(elections[electionId], now) then Rejected(ElectionNotActive)
              else if HasVoted(old(votes), electionId, old(session)[LoggedInVoter].s) then Rejected(AlreadyVoted)
              else if !ChoosesCandidateOf(candidates, candidate, electionId) then Rejected(InvalidCandidate)
              else Ok)
      ensures r == Ok <==>
        && LoggedInVoter in old(session)
        && IsSet(old(session), OtpVerifiedVote) && IsSet(old(session), FaceVerifiedVote)
        && electionId in elections && Elections.IsElectionActive(elections[electionId], now)
        && !HasVoted(old(votes), electionId, old(session)[LoggedInVoter].s)
        && ChoosesCandidateOf(candidates, candidate, electionId)
      ensures r.Rejected? ==> votes == old(votes) && session == old(session)
      ensures r == Ok ==>
        && votes == old(votes) + [Ballot(|old(votes)| + 1, electionId, old(session)[LoggedInVoter].s, candidate.id, now)]
        && session == old(session) - {OtpVerifiedVote, FaceVerifiedVote, PendingElectionId, PendingVoterId, PendingEmail}
    {
      if LoggedInVoter !in session {
        return Rejected(NotLoggedIn);
      }
      var voterId := session[LoggedInVoter].s;
      if !IsSet(session, OtpVerifiedVote) || !IsSet(session, FaceVerifiedVote) {
        return Rejected(VerificationIncomplete);
      }
      if candidate.NoChoice? {
        return Rejected(MissingInput);
      }
      if electionId !in elections || !Elections.IsElectionActive(elections[electionId], now) {
        return Rejected(ElectionNotActive);
      }
      if HasVoted(votes, electionId, voterId) {
        return Rejected(AlreadyVoted);
      }
      if !ChoosesCandidateOf(candidates, candidate, electionId) {
        return Rejected(InvalidCandidate);
      }
      var ballot := Ballot(|votes| + 1, electionId, voterId, candidate.id, now);
      CastKeepsOneBallot(votes, ballot);
      votes := votes + [ballot];
      session := session - {OtpVerifiedVote, FaceVerifiedVote, PendingElectionId, PendingVoterId, PendingEmail};
      r := Ok;
    }

    /** GET /logout (app.py:201-205): the voter is logged out; nothing else changes. */
    method Logout()
      requires Valid()
      modifies this`session
      ensures Valid()
      ensures session == old(session) - {LoggedInVoter}
    {
      session := session - {LoggedInVoter};
    }

    /**
     * The eligible-voter import (app.py:71-96, and the same loop at
     * app.py:726-748), with the counters it reports. Enrolment is untouched,
     * so the table still agrees with the voters table.
     */
    method ImportEligible(rows: seq<Roster.SheetRow>) returns (added: nat, updated: nat)
      requires Valid()
      modifies this`eligible
      ensures Valid()
      ensures eligible == Roster.ImportAll(old(eligible), rows)
      ensures added + updated == Roster.AcceptedCount(rows)
      ensures added == |eligible.Keys - old(eligible).Keys|
    {
      var table;
      table, added, updated := Roster.ImportRows(eligible, rows);
      Roster.CountsCoverAccepted(eligible, rows);
      Roster.AddedCountsNewIds(eligible, rows);
      eligible := table;
      forall id | id in VoterIds(voters) ensures id in eligible && eligible[id].isRegistered == 1 {
        Roster.ImportKeepsRegistration(old(eligible), rows, id);
      }
      forall id | id in eligible && eligible[id].isRegistered == 1 ensures id in VoterIds(voters) {
        if id in old(eligible) {
          Roster.ImportKeepsRegistration(old(eligible), rows, id);
        } else {
          Roster.ImportAddsUnregistered(old(eligible), rows, id);
        }
      }
    }

    /**
     * POST /admin/election/create (app.py:756-798), with the form fields as
     * read and stripped, and each date as the instant `fromisoformat` gives:
     * an election that starts active and one candidate row per name,
     * inserted in order.
     */
    method CreateElection(title: string, startAt: DateField, endAt: DateField, candidatesRaw: string, now: int)
      returns (r: Outcome)
      requires Valid()
      modifies this`elections, this`lastElectionId, this`candidates
      ensures Valid()
      ensures AllSpace(title) || startAt.Blank? || endAt.Blank? || AllSpace(candidatesRaw) ==> r == Rejected(MissingInput)
      ensures !AllSpace(title) && !startAt.Blank? && !endAt.Blank? && !AllSpace(candidatesRaw) ==>
        (r == if startAt.Malformed? || endAt.Malformed? then Rejected(InvalidDate)
              else if |Elections.ParseCandidates(Strip(candidatesRaw))| < 2 then Rejected(TooFewCandidates)
              else Ok)
      ensures r.Rejected? ==> unchanged(this)
      ensures r == Ok ==>
        && startAt.At? && endAt.At?
        && lastElectionId == old(lastElectionId) + 1
        && elections == old(elections)[lastElectionId := Election(Strip(title), startAt.t, endAt.t, 1, now)]
        && candidates == old(candidates) + NewCandidates(|old(candidates)|, lastElectionId, Elections.ParseCandidates(Strip(candidatesRaw)))
    {
      StripEmptyIffSpace(title);
      StripEmptyIffSpace(candidatesRaw);
      var name, raw := Strip(title), Strip(candidatesRaw);
      if name == "" || startAt.Blank? || endAt.Blank? || raw == "" {
        return Rejected(MissingInput);
      }
      if startAt.Malformed? || endAt.Malformed? {
        return Rejected(InvalidDate);
      }
      var names := Elections.ParseCandidates(raw);
      if |names| < 2 {
        return Rejected(TooFewCandidates);
      }
      InsertElection(Election(name, startAt.t, endAt.t, 1, now), names);
      r := Ok;
    }

    /**
     * The inserts of `admin_create_election` once the form is accepted
     * (app.py:782-795): the election row under the next id, then one
     * candidate row per name, in order.
     */
    method InsertElection(e: Election, names: seq<string>)
      requires Valid()
      modifies this`elections, this`lastElectionId, this`candidates
      ensures Valid()
      ensures lastElectionId == old(lastElectionId) + 1
      ensures elections == old(elections)[lastElectionId := e]
      ensures candidates == old(candidates) + NewCandidates(|old(candidates)|, lastElectionId, names)
    {
      var electionId := lastElectionId + 1;
      var rowsAdded := CandidateRows(|candidates|, electionId, names);
      var es, cs := elections[electionId := e], candidates + rowsAdded;
      AddElectionKeepsTables(elections, lastElectionId, candidates, votes, names, es, cs);
      elections, lastElectionId, candidates := es, electionId, cs;
    }

    /** POST /admin/election/<id>/toggle (app.py:824-837). */
    method ToggleElection(electionId: int) returns (r: Outcome)
      requires Valid()
      modifies this`elections
      ensures Valid()
      ensures electionId !in old(elections) ==> r == Rejected(ElectionNotFound) && elections == old(elections)
      ensures electionId in old(elections) ==>
        (r == Ok && elections == old(elections)[electionId := old(elections)[electionId].(isActive := Elections.Toggled(old(elections)[electionId].isActive))])
    {
      if electionId !in elections {
        return Rejected(ElectionNotFound);
      }
      var e := elections[electionId];
      elections := elections[electionId := e.(isActive := Elections.Toggled(e.isActive))];
      r := Ok;
    }

    /**
     * GET /admin/results/<id> (app.py:839-873): the grouped rows in the
     * query's order and the first of them as the winner; None for an unknown
     * election.
     */
    method Results(electionId: int) returns (r: Option<(seq<Elections.ResultRow>, Option<Elections.ResultRow>)>)
      ensures r.None? <==> electionId !in elections
      ensures r.Some? ==> r.value.0 == Elections.Rank(Elections.Tally(candidates, votes, electionId))
      ensures r.Some? ==> r.value.1 == Elections.Winner(r.value.0)
    {
      if electionId !in elections {
        return None;
      }
      var rows := Elections.Rank(Elections.Tally(candidates, votes, electionId));
      r := Some((rows, Elections.Winner(rows)));
    }
  }

  /**
   * The register flag is not tied to a voter: while the flag left by one
   * voter's verified code is still in the session, a register request for
   * another voter `b` only replaces the pending voter, and `b`'s face is then
   * enrolled although no code sent to `b` was checked.
   */
  method RegisterFlagOutlivesSubject(p: Portal, b: string, otp: int, face: Embedding, now: int)
    requires p.Valid()
    requires IsSet(p.session, OtpVerifiedRegister)
    requires 100000 <= otp <= 999999
    requires b != "" && b in p.eligible && p.eligible[b].isRegistered != 1 && p.eligible[b].email != ""
    requires Strip(b) == b && Strip(p.eligible[b].email) == p.eligible[b].email
    requires !Face.AnyWithin(p.voters, face, p.dist)
    modifies p
    ensures p.Valid()
    ensures b in p.eligible && p.eligible[b].isRegistered == 1 && p.voters == old(p.voters) + [VoterRow(b, face, now)]
    ensures LoggedInVoter in p.session && p.session[LoggedInVoter] == StrVal(b)
  {
    StripEmptyIffSpace(b);
    StripEmptyIffSpace(p.eligible[b].email);
    var r := p.Register(b, p.eligible[b].email, true, otp, true, now);
    assert r == Ok;
    assert p.session[PendingVoterId] == StrVal(b) && p.session[OtpVerifiedRegister] == old(p.session)[OtpVerifiedRegister];
    r := p.RegisterFace(Detected(face), now);
    assert r == Ok;
  }

  /**
   * Checking a code consumes nothing: a code that verified once verifies
   * again at any later time up to its row's expiry, and the log is untouched.
   */
  method VerifiedCodeReplays(p: Portal, purpose: string, code: string, now: int, later: int)
    returns (first: Outcome, second: Outcome)
    requires p.Valid()
    requires Otp.ParsePurpose(purpose).Some? && IsSet(p.session, PendingVoterId) && IsSet(p.session, PendingEmail)
    requires now <= later
    modifies p
    ensures p.otpCodes == old(p.otpCodes)
    ensures var row := Otp.NewestRow(p.otpCodes, old(p.session)[PendingVoterId].s, Otp.ParsePurpose(purpose).value);
      first == Ok && row.Some? && later <= row.value.expiresAt ==> second == Ok
  {
    ghost var voterId := p.session[PendingVoterId].s;
    var pur := Otp.ParsePurpose(purpose).value;
    first := p.VerifyOtp(purpose, code, now);
    second := p.VerifyOtp(purpose, code, later);
    var row := Otp.NewestRow(p.otpCodes, voterId, pur);
    if first == Ok && row.Some? && later <= row.value.expiresAt {
      Otp.VerifiedUntilExpiry(p.otpCodes, voterId, pur, Strip(code), now, later);
    }
  }

  /**
   * A second ballot for the same election is refused: after a cast the vote
   * flags are gone, and the stored ballot blocks the pair for good.
   */
  method SecondBallotRefused(p: Portal, electionId: int, c1: CandidateField, c2: CandidateField, now: int, later: int)
    returns (first: Outcome, second: Outcome)
    requires p.Valid()
    modifies p
    ensures first == Ok ==> second.Rejected? && |p.votes| == |old(p.votes)| + 1
    ensures first == Ok ==> LoggedInVoter in old(p.session) && HasVoted(p.votes, electionId, old(p.session)[LoggedInVoter].s)
  {
    first := p.SubmitVote(electionId, c1, now);
    second := p.SubmitVote(electionId, c2, later);
    if first == Ok {
      assert p.votes[|p.votes| - 1].electionId == electionId;
    }
  }

  /**
   * The vote flags are not tied to an election: with both flags set while
   * the pending election is `e1`, the voter casts a ballot in `e2`.
   */
  method VoteFlagsNotBoundToElection(p: Portal, e1: int, e2: int, cand: int, now: int)
    requires p.Valid()
    requires e1 != e2
    requires LoggedInVoter in p.session && PendingElectionId in p.session && p.session[PendingElectionId] == IntVal(e1)
    requires IsSet(p.session, OtpVerifiedVote) && IsSet(p.session, FaceVerifiedVote)
    requires e2 in p.elections && Elections.IsElectionActive(p.elections[e2], now)
    requires HasCandidate(p.candidates, cand, e2)
    requires !HasVoted(p.votes, e2, p.session[LoggedInVoter].s)
    modifies p
    ensures p.Valid()
    ensures p.votes == old(p.votes) + [Ballot(|old(p.votes)| + 1, e2, old(p.session)[LoggedInVoter].s, cand, now)]
  {
    var r := p.SubmitVote(e2, Chosen(cand), now);
    assert r == Ok;
  }
}
