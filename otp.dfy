/**
 * The OTP ledger: six-digit codes drawn by `generate_otp`, the append-only
 * `otp_codes` log, and the decision of `verify_latest_otp` (app.py:144-166).
 */
module Otp {
  import opened Wrappers
  import opened Tables

  /** `otp_expiry(5)`: codes expire five minutes (in seconds) after issue. */
  const OTP_LIFETIME: int := 5 * 60

  /** A code as `generate_otp` prints it: six decimal digits, no leading zero. */
  predicate IsOtpCode(code: string) {
    |code| == 6 && code[0] != '0' && forall i :: 0 <= i < 6 ==> '0' <= code[i] <= '9'
  }

  function DigitChar(d: int): char
    requires 0 <= d <= 9
  {
    ('0' as int + d) as char
  }

  function DigitValue(c: char): int {
    c as int - '0' as int
  }

  /** `f"{n}"` for a number drawn by `random.randint(100000, 999999)`. */
  function CodeText(n: int): (code: string)
    requires 100000 <= n <= 999999
    ensures IsOtpCode(code)
  {
    var q1 := n / 10; var q2 := q1 / 10; var q3 := q2 / 10; var q4 := q3 / 10; var q5 := q4 / 10;
    [DigitChar(q5), DigitChar(q4 % 10), DigitChar(q3 % 10), DigitChar(q2 % 10), DigitChar(q1 % 10), DigitChar(n % 10)]
  }

  /** The number a six-digit code spells. */
  function CodeNumber(code: string): int
    requires |code| == 6
  {
    ((((DigitValue(code[0]) * 10 + DigitValue(code[1])) * 10 + DigitValue(code[2])) * 10
      + DigitValue(code[3])) * 10 + DigitValue(code[4])) * 10 + DigitValue(code[5])
  }

  /** Printing a drawn number and reading it back gives the number: distinct draws give distinct codes. */
  lemma CodeRoundTrip(n: int)
    requires 100000 <= n <= 999999
    ensures CodeNumber(CodeText(n)) == n
  {
    var q1 := n / 10; var q2 := q1 / 10; var q3 := q2 / 10; var q4 := q3 / 10; var q5 := q4 / 10;
    assert n == q1 * 10 + n % 10;
    assert q1 == q2 * 10 + q1 % 10;
    assert q2 == q3 * 10 + q2 % 10;
    assert q3 == q4 * 10 + q3 % 10;
    assert q4 == q5 * 10 + q4 % 10;
    assert 1 <= q5 <= 9;
  }

  /** Every six-digit code is the text of the number it spells. */
  lemma CodeNumberRoundTrip(code: string)
    requires IsOtpCode(code)
    ensures 100000 <= CodeNumber(code) <= 999999 && CodeText(CodeNumber(code)) == code
  {
    var d := seq(6, i requires 0 <= i < 6 => DigitValue(code[i]));
    var q5 := d[0];
    var q4 := q5 * 10 + d[1];
    var q3 := q4 * 10 + d[2];
    var q2 := q3 * 10 + d[3];
    var q1 := q2 * 10 + d[4];
    var n := q1 * 10 + d[5];
    assert n == CodeNumber(code);
    assert n / 10 == q1 && n % 10 == d[5];
    assert q1 / 10 == q2 && q1 % 10 == d[4];
    assert q2 / 10 == q3 && q2 % 10 == d[3];
    assert q3 / 10 == q4 && q3 % 10 == d[2];
    assert q4 / 10 == q5 && q4 % 10 == d[1];
    assert forall i :: 0 <= i < 6 ==> DigitChar(d[i]) == code[i];
  }

  /** The `<purpose>` path segment of `/verify-otp/<purpose>`. */
  function ParsePurpose(s: string): (p: Option<Purpose>)
    ensures p == Some(Register) <==> s == "register"
    ensures p == Some(Login) <==> s == "login"
    ensures p == Some(Vote) <==> s == "vote"
  {
    if s == "register" then Some(Register)
    else if s == "login" then Some(Login)
    else if s == "vote" then Some(Vote)
    else None
  }

  predicate Matches(row: OtpRow, voterId: string, purpose: Purpose) {
    row.voterId == voterId && row.purpose == purpose
  }

  /** Row `j` is the newest row issued for the pair. */
  predicate IsNewest(rows: seq<OtpRow>, voterId: string, purpose: Purpose, j: int) {
    0 <= j < |rows| && Matches(rows[j], voterId, purpose)
    && forall k :: j < k < |rows| ==> !Matches(rows[k], voterId, purpose)
  }

  /**
   * The position of the row that `WHERE voter_id=? AND purpose=? ORDER BY
   * id DESC LIMIT 1` selects in a log whose ids grow with position.
   */
  function NewestIndex(rows: seq<OtpRow>, voterId: string, purpose: Purpose): (k: Option<nat>)
    ensures k.None? <==> forall i :: 0 <= i < |rows| ==> !Matches(rows[i], voterId, purpose)
    ensures k.Some? ==> IsNewest(rows, voterId, purpose, k.value)
  {
    if rows == [] then None
    else if Matches(rows[|rows| - 1], voterId, purpose) then Some(|rows| - 1)
    else NewestIndex(rows[..|rows| - 1], voterId, purpose)
  }

  /** The row `verify_latest_otp` reads: none when the pair was never issued, else the newest row of the pair. */
  function NewestRow(rows: seq<OtpRow>, voterId: string, purpose: Purpose): (r: Option<OtpRow>)
    ensures r.None? <==> forall i :: 0 <= i < |rows| ==> !Matches(rows[i], voterId, purpose)
    ensures r.Some? ==> exists j :: IsNewest(rows, voterId, purpose, j) && r.value == rows[j]
  {
    match NewestIndex(rows, voterId, purpose)
    case None => None
    case Some(k) => Some(rows[k])
  }

  /** Under the AUTOINCREMENT key, the selected row has the highest id of its pair. */
  lemma NewestHasHighestId(rows: seq<OtpRow>, voterId: string, purpose: Purpose, i: int)
    requires OtpIdsSequential(rows)
    requires 0 <= i < |rows| && Matches(rows[i], voterId, purpose)
    ensures NewestRow(rows, voterId, purpose).Some?
    ensures rows[i].id <= NewestRow(rows, voterId, purpose).value.id
  {
  }

  datatype Verdict = Verified | NotFound | Expired | Invalid

  /**
   * The checks of `verify_latest_otp` once its row is read, in the source's
   * order: a code verifies exactly when the row exists, `now` is not past
   * its expiry, and the codes are equal; a missing row wins over every
   * other failure, and expiry wins over a mismatch.
   */
  function Decide(row: Option<OtpRow>, code: string, now: int): (v: Verdict)
    ensures v == Verified <==> row.Some? && now <= row.value.expiresAt && row.value.code == code
    ensures v == NotFound <==> row.None?
    ensures v == Expired <==> row.Some? && now > row.value.expiresAt
  {
    if row.None? then NotFound
    else if now > row.value.expiresAt then Expired
    else if row.value.code != code then Invalid
    else Verified
  }

  /**
   * `verify_latest_otp(voter_id, purpose, code)` at time `now`: verified
   * exactly when the newest row of the pair carries this code and has not
   * expired.
   */
  function VerifyLatest(rows: seq<OtpRow>, voterId: string, purpose: Purpose, code: string, now: int): (v: Verdict)
    ensures v == Verified <==>
      exists j :: IsNewest(rows, voterId, purpose, j) && rows[j].code == code && now <= rows[j].expiresAt
  {
    var row := NewestRow(rows, voterId, purpose);
    NewestUnique(rows, voterId, purpose);
    Decide(row, code, now)
  }

  /** A pair has at most one newest row. */
  lemma NewestUnique(rows: seq<OtpRow>, voterId: string, purpose: Purpose)
    ensures forall j, k :: IsNewest(rows, voterId, purpose, j) && IsNewest(rows, voterId, purpose, k) ==> j == k
  {
  }

  /** No row for the pair reads "not found", whatever the code and the time. */
  lemma NotFoundIffNeverIssued(rows: seq<OtpRow>, voterId: string, purpose: Purpose, code: string, now: int)
    ensures VerifyLatest(rows, voterId, purpose, code, now) == NotFound
        <==> forall i :: 0 <= i < |rows| ==> !Matches(rows[i], voterId, purpose)
  {
  }

  /**
   * Once issued, the newest row alone decides, in this order: expired when
   * `now` is past `expires_at` (a code at exactly `expires_at` is still in
   * time), then invalid when the code differs, else verified.
   */
  lemma {:induction false} NewestRowDecides(rows: seq<OtpRow>, voterId: string, purpose: Purpose, j: int, code: string, now: int)
    requires IsNewest(rows, voterId, purpose, j)
    ensures VerifyLatest(rows, voterId, purpose, code, now) ==
      if now > rows[j].expiresAt then Expired
      else if rows[j].code != code then Invalid
      else Verified
  {
    var k := NewestIndex(rows, voterId, purpose);
    assert k.Some?;
    assert k.value == j;
  }

  /** A code issued earlier for the pair never verifies once a newer, different code exists, expired or not. */
  lemma SupersededCodeRejected(rows: seq<OtpRow>, voterId: string, purpose: Purpose, i: int, j: int, now: int)
    requires 0 <= i < j && IsNewest(rows, voterId, purpose, j) && Matches(rows[i], voterId, purpose)
    requires rows[i].code != rows[j].code
    ensures VerifyLatest(rows, voterId, purpose, rows[i].code, now) != Verified
  {
    NewestRowDecides(rows, voterId, purpose, j, rows[i].code, now);
  }

  /** Appending a row for the pair makes it the one that decides. */
  lemma {:induction false} IssueSupersedes(rows: seq<OtpRow>, row: OtpRow, code: string, now: int)
    ensures VerifyLatest(rows + [row], row.voterId, row.purpose, code, now) == Decide(Some(row), code, now)
  {
    NewestRowDecides(rows + [row], row.voterId, row.purpose, |rows|, code, now);
  }

  /** Appending a row for another pair leaves this pair's verdict as it was. */
  lemma {:induction false} OtherIssueIrrelevant(rows: seq<OtpRow>, row: OtpRow, voterId: string, purpose: Purpose, code: string, now: int)
    requires !Matches(row, voterId, purpose)
    ensures VerifyLatest(rows + [row], voterId, purpose, code, now) == VerifyLatest(rows, voterId, purpose, code, now)
  {
    assert (rows + [row])[..|rows|] == rows;
  }

  /**
   * Verification consumes nothing: a verified code stays verified, against
   * the same log, at every later time up to its expiry.
   */
  lemma VerifiedUntilExpiry(rows: seq<OtpRow>, voterId: string, purpose: Purpose, code: string, now: int, later: int)
    requires VerifyLatest(rows, voterId, purpose, code, now) == Verified
    requires now <= later <= NewestRow(rows, voterId, purpose).value.expiresAt
    ensures VerifyLatest(rows, voterId, purpose, code, later) == Verified
  {
  }

  /** A code just issued at `now` verifies until `now + OTP_LIFETIME` inclusive and is expired after. */
  lemma FreshCodeWindow(rows: seq<OtpRow>, row: OtpRow, now: int, t: int)
    requires row.expiresAt == now + OTP_LIFETIME
    ensures VerifyLatest(rows + [row], row.voterId, row.purpose, row.code, t) ==
      if t <= now + OTP_LIFETIME then Verified else Expired
  {
    IssueSupersedes(rows, row, row.code, t);
  }
}
