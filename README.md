# SecureVote identity verification and ballot casting, in Dafny

SecureVote is a campus voting portal. Registration, login and every vote
are gated by two factors: a six-digit code mailed to the voter, and a face
compared with the face the voter enrolled. This project models the
portal's verification and ballot state machine in `app.py`, together with
the table layout of `db.py`. It then proves what each request handler
does, what it refuses and in which order, and what it leaves unchanged.

Layout:

- `wrappers.dfy`: `Option`.
- `text.dfy`: the Python string operations the handlers use (`strip`, `lower`, `split`).
- `tables.dfy`: the rows of the six relations, and the key and uniqueness constraints of `db.py`.
- `otp.dfy`: code formatting, and the newest-row lookup and decision of `verify_latest_otp`.
- `face.dfy`: the threshold and the linear duplicate-face scan of `check_duplicate_face`.
- `roster.dfy`: the eligible-voter upsert loop, shared by the start-up import and `admin_import`.
- `elections.dfy`: the active-window test, the toggle, candidate parsing, and the results ordering.
- `app.dfy`: class `App.Portal`. It holds the tables and the Flask session, and has one method per route handler.

State. `App.Portal` holds the following fields:

- `eligible`: a map from voter id to name, email, phone and `is_registered`.
- `voters`: a sequence of enrolled rows, in insertion order. Row order matters because the duplicate scan breaks ties by first row.
- `otpCodes`: the append-only log. Row `i` has id `i + 1`.
- `elections`, `candidates` and `votes`.
- `session`: a map from the eight session keys to values.

Its `Valid()` invariant states these constraints:

- the primary keys;
- the `UNIQUE(election_id, voter_id)` constraint on ballots;
- a voter is enrolled exactly when it is eligible with `is_registered = 1`;
- no enrolled face lies within the threshold of a face enrolled before it;
- every ballot names an existing election, a candidate of that election and an enrolled voter;
- a logged-in session belongs to an enrolled voter.

Every handler keeps `Valid()`. Every handler states that a rejected request leaves the tables and the session as they were.

Abstractions:

- Time is an integer clock.
- The face distance is a function `dist` fixed when the portal is built.
- The threshold is 0.35. The scan's starting value is 999.0.
- The OTP number is an input in 100000..999999. Its text is the six digits.
- A code expires 300 seconds after it is issued.
- Whether SMTP is configured and whether the mail went out are boolean inputs.
- A face request brings one of three things: no image, an image with no detectable face, or an embedding.

The verified flags are plain booleans, as in the source. They are not bound to a voter or an election:

- `RegisterFlagOutlivesSubject` shows that a register request for voter `b` reuses a register flag left by an earlier voter's code. Voter `b`'s face is then enrolled although no code sent to `b` was checked.
- `VoteFlagsNotBoundToElection` shows that a ballot can be cast in an election other than the pending one.

Nothing binds a verified flag to the voter or the election it was earned for, so the model claims no such binding.

## Model

| member | source | states |
|---|---|---|
| `Text.TrimStart` | app.py:72 | `lstrip()`: the result is not longer than the input and does not start with white space |
| `Text.TrimStartDrops` | app.py:72 | `lstrip()` removes a leading run of white space and nothing else |
| `Text.TrimEnd` | app.py:72 | `rstrip()`: the result is not longer than the input and does not end with white space |
| `Text.TrimEndDrops` | app.py:72 | `rstrip()` removes a trailing run of white space and nothing else |
| `Text.Strip` | app.py:72-74 | `str.strip()`: the result is a slice `s[a..b]` of the input; everything cut off before `a` and after `b` is white space; neither end of the result is white space |
| `Text.Lower` | app.py:232 | `lower()` on ASCII: same length, each capital `A`-`Z` becomes the letter 32 code points above it, every other character is kept, so no capital is left |
| `Text.LowerEqIff` | app.py:232 | two strings lower-case to the same string exactly when they have the same length and agree at each position up to the case of an ASCII letter |
| `Text.StripIdempotent` | app.py:778 | stripping a stripped string changes nothing |
| `Text.StripEmptyIffSpace` | app.py:778 | a line strips to the empty string exactly when it is all white space |
| `Text.Split` | app.py:778 | `split("\n")` returns at least one piece |
| `Text.SplitJoin` | app.py:778 | no piece of a split holds the separator, and joining the pieces with it gives back the input |
| `Text.SplitAppend` | app.py:778 | splitting text joined at a separator gives the pieces of the first part followed by those of the second |
| `Tables.FindVoter` | app.py:118-122 | the `voters` lookup finds nothing exactly when the id is not enrolled; otherwise it returns a row of that voter |
| `Tables.AtMostOneBallot` | db.py:72 | under the uniqueness constraint, a voter holds at most one ballot per election |
| `Tables.CastKeepsOneBallot` | app.py:613-636 | inserting a ballot for a pair that has none keeps the pair unique |
| `Otp.CodeText` | otp_utils.py:6-7 | a drawn number prints as six decimal digits with no leading zero |
| `Otp.CodeRoundTrip` | otp_utils.py:7 | reading back the printed code gives the drawn number, so distinct draws give distinct codes |
| `Otp.CodeNumberRoundTrip` | otp_utils.py:7 | every six-digit code is the printed form of a number in 100000..999999 |
| `Otp.ParsePurpose` | app.py:317-318 | exactly the three path segments `register`, `login`, `vote` name a purpose |
| `Otp.NewestIndex` | app.py:146-150 | the query selects nothing exactly when no row exists for (voter, purpose); otherwise it selects the last such row |
| `Otp.NewestRow` | app.py:146-150 | the row read is None exactly when the pair was never issued; otherwise it is the newest row of the pair |
| `Otp.Decide` | app.py:152-166 | verified exactly when the row exists, now <= expires_at and the codes are equal; "not found" exactly when there is no row; "expired" exactly when now > expires_at; so a missing row is reported before expiry, and expiry before a mismatch |
| `Otp.VerifyLatest` | app.py:144-166 | verified exactly when the newest row of (voter, purpose) carries the submitted code and has not expired |
| `Otp.NewestHasHighestId` | app.py:146-150 | under the AUTOINCREMENT key, the selected row has the highest id of its pair |
| `Otp.NotFoundIffNeverIssued` | app.py:152-154 | the verdict is "not found" exactly when no code was ever issued for the pair |
| `Otp.NewestRowDecides` | app.py:152-166 | once a row exists, the checks run in order: expired when now > expires_at (equality is still in time), then invalid on a code mismatch, else verified |
| `Otp.SupersededCodeRejected` | app.py:144-166 | an older code of the pair never verifies once a newer, different code exists, whether or not it has expired |
| `Otp.IssueSupersedes` | app.py:247-251 | a newly appended row is the one that decides for its pair |
| `Otp.OtherIssueIrrelevant` | app.py:294-298 | issuing a code for another pair leaves this pair's verdict unchanged |
| `Otp.VerifiedUntilExpiry` | app.py:156-166 | verification consumes nothing: a verified code stays verified at every later time up to its expiry |
| `Otp.FreshCodeWindow` | otp_utils.py:9-10 | a code issued at `now` verifies up to `now + 300` inclusive and is expired after that |
| `Face.ScanForDuplicate` | app.py:168-187 | duplicate exactly when some enrolled face is within the threshold, so never for an empty table; the match is the first row at the least distance (strict `<`, start value 999.0); a non-duplicate carries no voter and no distance |
| `Face.EnrolKeepsApart` | app.py:409-420 | enrolling a face that the scan let through keeps every enrolled face farther than the threshold from those enrolled before it |
| `Roster.Skipped` | app.py:79-80 | every blank voter id is skipped, and a row that is kept has a non-empty key |
| `Roster.Upsert` | app.py:79-95 | a skipped row leaves the keys unchanged; otherwise the row's key is added, or it was already present |
| `Roster.ImportAll` | app.py:71-96 | the import never removes a voter |
| `Roster.UpsertFacts` | app.py:79-95 | a skipped row changes nothing; an accepted row updates name, email and phone, or inserts the voter with `is_registered = 0`; `is_registered` of an existing voter is kept; other voters are untouched |
| `Roster.ImportKeepsRegistration` | app.py:82-89 | re-import never removes a voter and never changes its `is_registered` |
| `Roster.ImportAddsUnregistered` | app.py:90-95 | a voter added by the import starts unregistered |
| `Roster.ImportKeys` | app.py:71-96 | after the import, the table holds the old voters plus the id of every accepted row |
| `Roster.LastRowWins` | app.py:71-96 | a voter's name, email and phone come from the last accepted row with its id |
| `Roster.CountsCoverAccepted` | app.py:79-95 | added + updated equals the number of rows not skipped |
| `Roster.AddedCountsNewIds` | app.py:90-95 | `added` equals the number of ids the import adds to the table |
| `Roster.ImportRows` | app.py:726-748 | the loop computes the table and both counters of the specification functions |
| `Elections.IsElectionActive` | app.py:124-136 | an election is open only when its flag is 1 and its window is not empty |
| `Elections.WindowInclusive` | app.py:124-136 | both ends of the voting window belong to it; the instants just outside do not |
| `Elections.Toggled` | app.py:832 | the new flag is 0 or 1, and it is 1 exactly when the old flag was not 1 |
| `Elections.ToggleTwice` | app.py:832-833 | toggling a 0/1 flag twice restores it; toggling an open election closes it |
| `Elections.StrippedNonBlank` | app.py:778 | it never returns more names than lines, and no name is empty |
| `Elections.StrippedNonBlankClean` | app.py:778 | each kept name is non-blank and already stripped |
| `Elections.StrippedNonBlankAppend` | app.py:778 | filtering two lists of lines, one after the other, filters their concatenation in order, duplicates kept |
| `Elections.StrippedNonBlankSingle` | app.py:778 | one line gives nothing when it is all white space, and otherwise its stripped form |
| `Elections.ParseCandidates` | app.py:778 | there are at most as many names as lines, and no name is empty |
| `Elections.ParseCandidatesClean` | app.py:778 | each parsed name is non-blank, stripped and holds no line break |
| `Elections.ParseCandidatesLines` | app.py:778 | the names of text joined at a line break are the names of the first part followed by those of the second, so order and duplicates are kept |
| `Elections.ParseCandidatesOneLine` | app.py:778 | a single line gives no name when it is blank, and otherwise its stripped form |
| `Elections.DuplicateNamesKept` | app.py:778-779 | `"A\nA"` gives two candidates, so repeated names count toward the minimum of two |
| `Elections.NonBlankLineKept` | app.py:778 | each line that is not all white space contributes its stripped form |
| `Elections.KeptNameFromLine` | app.py:778 | each kept name is the stripped form of some line |
| `Elections.CountFor` | app.py:853-856 | a candidate's count never exceeds the number of ballots |
| `Elections.Tally` | app.py:852-858 | at most one grouped row per candidate row |
| `Elections.CandidatesOf` | app.py:852-858 | the candidate rows of one election, in order: no more than the table holds, each of that election |
| `Elections.TallyOnePerCandidate` | app.py:852-858 | exactly one grouped row per candidate of the election, in candidate order, the i-th carrying the i-th candidate's id, name and ballot count |
| `Elections.CountForCountsBallots` | app.py:853-856 | a candidate's count is the number of ballots cast for it in its own election |
| `Elections.TallyRows` | app.py:852-858 | a grouped row is exactly a candidate of the election with its id, name and count; candidates with no ballots still appear |
| `Elections.Insert` | app.py:859 | inserting into an ordered list keeps it ordered and adds exactly that row |
| `Elections.Rank` | app.py:859 | the result rows are ordered by votes descending, then name ascending, and are a permutation of the grouped rows |
| `Elections.Winner` | app.py:862 | a winner exists exactly when there is a row; it is one of the rows, and in an ordered list it ranks before every later row |
| `Elections.WinnerLeads` | app.py:862 | a winner exists exactly when the election has a candidate; the winner has the most votes and the least name among those tied with it |
| `App.NewCandidates` | app.py:791-792 | one candidate row per parsed name, in order, with consecutive ids |
| `App.CandidateRows` | app.py:791-792 | the insert loop produces those rows |
| `App.Portal.constructor` | db.py:11-77 | an empty database and an empty session satisfy every table invariant |
| `App.Portal.Register` | app.py:211-258 | both fields are stripped first; refusal order: missing input (a field that is empty or all white space), not eligible, already registered, email mismatch (case-insensitive), SMTP not set up, send failure; any refusal changes nothing; success appends exactly one `register` row that expires in 5 minutes and sets `pending_voter_id` and `pending_email` |
| `App.Portal.Login` | app.py:264-306 | the voter id is stripped first; refusal order: missing (empty or all white space), not eligible, not registered, SMTP, send failure; success appends one `login` row and sets the pending voter and its listed email |
| `App.Portal.VoteRequestOtp` | app.py:554-588 | requires a logged-in voter; success appends one `vote` row and sets the pending voter, email and election id without checking that the election exists |
| `App.Portal.VerifyOtp` | app.py:312-350 | unknown purpose, then missing pending keys, then the `verify_latest_otp` verdict on the stripped code; only a verified code sets `otp_verified_<purpose>`, and nothing else changes; the log is only read |
| `App.Portal.RegisterFace` | app.py:385-433 | refusal order: flag, eligibility, registration, image, face, duplicate (the duplicate names the first nearest voter and its distance); every refusal changes nothing; success enrols exactly one row, sets `is_registered = 1`, logs the voter in and drops the pending keys and the register flag |
| `App.Portal.RaiseFlag` | app.py:334-346 | only `otp_verified_<purpose>` changes, and every table invariant holds |
| `App.Portal.Enrol` | app.py:416-431 | the writes of a successful enrolment, keeping every table invariant |
| `App.Portal.LoginFace` | app.py:435-469 | refused exactly when the distance exceeds the threshold, so equality passes; success sets `voter_id` and drops the pending keys and the login flag |
| `App.Portal.VoteFace` | app.py:471-501 | the same comparison for the pending vote; success only sets `face_verified_vote` and writes no ballot |
| `App.Portal.SubmitVote` | app.py:590-652 | a ballot is written exactly when the voter is logged in, both vote flags are set, a candidate of that election is chosen, the election is active with start <= now <= end, and the pair has no ballot; success pops the five vote-flow keys; a refusal changes nothing |
| `App.Portal.Logout` | app.py:201-205 | only `voter_id` leaves the session |
| `App.Portal.ImportEligible` | app.py:71-96 | the table becomes the import of the rows; added + updated is the number of accepted rows; `added` is the number of new ids; enrolment stays consistent |
| `App.Portal.CreateElection` | app.py:756-798 | fields are stripped first; refused on a field that is empty or all white space, a bad date, or fewer than two names parsed from the stripped text; success adds one active election under the stripped title and its candidates in order |
| `App.Portal.InsertElection` | app.py:782-795 | the election row goes under the next id, then one candidate row per name in order, keeping every table invariant |
| `App.AddElectionKeepsTables` | app.py:782-795 | a new election with its candidate rows keeps ids from the counter, every candidate in an election, and every ballot on a candidate of its election |
| `App.Portal.ToggleElection` | app.py:824-837 | an unknown election is refused; otherwise only its active flag flips |
| `App.Portal.Results` | app.py:839-873 | no result for an unknown election; otherwise the ranked grouped rows and their first row as the winner |
| `App.RegisterFlagOutlivesSubject` | app.py:385-389 | a register flag left by one voter's code lets a later register request enrol another voter whose code was never checked |
| `App.VoteFlagsNotBoundToElection` | app.py:590-608 | with both vote flags set for pending election e1, a ballot is cast in e2 |
| `App.VerifiedCodeReplays` | app.py:327-335 | checking the same code twice before its expiry verifies both times, and the log is unchanged |
| `App.SecondBallotRefused` | app.py:613-649 | after a successful cast, a second cast in the same election is refused and the stored ballot blocks the pair |

## Left out

- Flask plumbing is not modelled: request parsing, `render_template`, `flash`, `redirect`, HTTP status codes, and the GET pages that only render after a guard (app.py:196-199, 356-379, 507-552). `abort(403)` in `vote_request_otp` and `submit_vote` becomes a `NotLoggedIn` or `NotEligible` outcome.
- Face embedding extraction, base64 decoding and `cosine_distance` are foreign numeric code. The distance is the parameter `dist`. A decoding error and a missing face are both `Undetected`. Embeddings are assumed to round-trip through their JSON text.
- The `DUP_FACE_THRESHOLD` environment override is not modelled. The threshold is the default 0.35.
- `random.randint`, the clock and SMTP delivery are not modelled. The code, the time, `smtp_ready()` and the delivery outcome are inputs.
- Time zones and ISO-8601 text are not modelled. Election times (stored as IST) and OTP expiry (naive UTC) are integers on one clock. In `CreateElection`, a date field is already parsed.
- Turnout percentages are floating point and are not modelled. The dashboard counts and admin authentication (app.py:658-697) are not modelled either.
- Concurrency is not modelled: the enrolment race and two simultaneous ballots. Sequential runs are modelled, and the uniqueness constraint is a state invariant. Because of this, the insert failure branch of `submit_vote` (app.py:637-640) is unreachable and is not modelled.
- SQLite does not enforce foreign keys by default. The model's invariant about ballots and candidates holds because of the handlers' own guards, not the schema.
- Reading the spreadsheet and finding its columns (pandas) is not modelled. A row is its cells' text. `phone` is `None` for a missing column or an empty cell.
- Text.Lower: only ASCII letters are lower-cased. Python's `str.lower()` also folds other Unicode letters, so the email comparison at app.py:232 is modelled for ASCII addresses only.
- Text.IsSpace: only white space in the Latin-1 range is stripped. Python's `str.strip()` also strips other Unicode white space.
- Face.ScanForDuplicate: the scan reads `voters` in insertion order. The query at app.py:173 has no ORDER BY, so the order SQLite returns (in practice rowid order) is taken to be insertion order, and that is the order the first-row tie-break refers to.
- Elections.Rank: SQL leaves the order of rows with equal votes and equal names unspecified. `Rank` fixes one such order.
