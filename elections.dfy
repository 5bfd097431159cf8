/**
 * Elections: the active-window test (app.py:124-136), the active-flag
 * flip of `admin_toggle_election` (app.py:832-833), candidate-list parsing
 * in `admin_create_election` (app.py:778-781) and the ordering of the
 * results query (app.py:852-862).
 */
module Elections {
  import opened Wrappers
  import opened Text
  import opened Tables

  /**
   * `is_election_active(e)` at time `now`: the flag is 1 and `start <= now <= end`.
   * An election is only ever open when its flag is set and its window is not empty.
   */
  predicate IsElectionActive(e: Election, now: int)
    ensures IsElectionActive(e, now) ==> e.isActive == 1 && e.startAt <= e.endAt
  {
    e.isActive == 1 && e.startAt <= now <= e.endAt
  }

  /** Both ends of the voting window belong to it; the instants just outside do not. */
  lemma WindowInclusive(e: Election)
    requires e.isActive == 1 && e.startAt <= e.endAt
    ensures IsElectionActive(e, e.startAt) && IsElectionActive(e, e.endAt)
    ensures !IsElectionActive(e, e.startAt - 1) && !IsElectionActive(e, e.endAt + 1)
  {
  }

  /** `new_state = 0 if e["is_active"] == 1 else 1`. */
  function Toggled(isActive: int): (r: int)
    ensures r == 0 || r == 1
    ensures r == 1 <==> isActive != 1
  {
    if isActive == 1 then 0 else 1
  }

  /** Toggling twice restores a 0/1 flag; toggling an active election closes it at every instant. */
  lemma ToggleTwice(e: Election, now: int)
    requires e.isActive == 0 || e.isActive == 1
    ensures Toggled(Toggled(e.isActive)) == e.isActive
    ensures IsElectionActive(e, now) ==> !IsElectionActive(e.(isActive := Toggled(e.isActive)), now)
  {
  }

  /** Non-blank, with no white space at either end. */
  predicate IsCleanName(n: string) {
    n != [] && Strip(n) == n
  }

  /**
   * `[c.strip() for c in lines if c.strip()]`: at most one name per line,
   * and no name is empty.
   */
  function StrippedNonBlank(lines: seq<string>): (names: seq<string>)
    ensures |names| <= |lines|
    ensures forall k :: 0 <= k < |names| ==> names[k] != []
  {
    if lines == [] then []
    else
      var rest := StrippedNonBlank(lines[1..]);
      var s := Strip(lines[0]);
      if s == [] then rest else [s] + rest
  }

  /** Every name kept is non-blank and already stripped. */
  lemma {:induction false} StrippedNonBlankClean(lines: seq<string>)
    ensures forall k :: 0 <= k < |StrippedNonBlank(lines)| ==> IsCleanName(StrippedNonBlank(lines)[k])
  {
    if lines != [] {
      StrippedNonBlankClean(lines[1..]);
      var rest := StrippedNonBlank(lines[1..]);
      var s := Strip(lines[0]);
      if s != [] {
        StripIdempotent(lines[0]);
        assert StrippedNonBlank(lines) == [s] + rest;
        assert forall k :: 1 <= k < |[s] + rest| ==> ([s] + rest)[k] == rest[k - 1];
      }
    }
  }

  /** Every non-blank line contributes its stripped form. */
  lemma {:induction false} NonBlankLineKept(lines: seq<string>, i: int)
    requires 0 <= i < |lines| && !AllSpace(lines[i])
    ensures Strip(lines[i]) in StrippedNonBlank(lines)
  {
    if i == 0 {
      StripEmptyIffSpace(lines[0]);
    } else {
      assert lines[1..][i - 1] == lines[i];
      NonBlankLineKept(lines[1..], i - 1);
    }
  }

  /** Every name kept is the stripped form of one of the lines. */
  lemma {:induction false} KeptNameFromLine(lines: seq<string>, k: int) returns (i: int)
    requires 0 <= k < |StrippedNonBlank(lines)|
    ensures 0 <= i < |lines| && StrippedNonBlank(lines)[k] == Strip(lines[i])
  {
    var rest := StrippedNonBlank(lines[1..]);
    var s := Strip(lines[0]);
    if s == [] {
      assert StrippedNonBlank(lines) == rest;
      var i' := KeptNameFromLine(lines[1..], k);
      assert lines[1..][i'] == lines[i' + 1];
      i := i' + 1;
    } else {
      assert StrippedNonBlank(lines) == [s] + rest;
      if k == 0 {
        i := 0;
      } else {
        var i' := KeptNameFromLine(lines[1..], k - 1);
        assert lines[1..][i'] == lines[i' + 1];
        i := i' + 1;
      }
    }
  }

  /** Filtering two lists of lines one after the other filters their concatenation, in order. */
  lemma {:induction false} StrippedNonBlankAppend(a: seq<string>, b: seq<string>)
    ensures StrippedNonBlank(a + b) == StrippedNonBlank(a) + StrippedNonBlank(b)
  {
    if a != [] {
      assert (a + b)[0] == a[0] && (a + b)[1..] == a[1..] + b;
      StrippedNonBlankAppend(a[1..], b);
    } else {
      assert a + b == b;
    }
  }

  /** One line contributes nothing when it is all white space, and else its stripped form. */
  lemma StrippedNonBlankSingle(line: string)
    ensures StrippedNonBlank([line]) == if AllSpace(line) then [] else [Strip(line)]
  {
    StripEmptyIffSpace(line);
    assert [line][1..] == [];
  }

  /**
   * The candidate names typed one per line into the election form, blank
   * lines dropped; `ParseCandidatesClean` says what each name looks like.
   */
  function ParseCandidates(raw: string): (names: seq<string>)
    ensures |names| <= |Split(raw, '\n')|
    ensures forall k :: 0 <= k < |names| ==> names[k] != []
  {
    StrippedNonBlank(Split(raw, '\n'))
  }

  /** Each parsed name is non-blank, stripped and holds no line break. */
  lemma ParseCandidatesClean(raw: string)
    ensures forall k :: 0 <= k < |ParseCandidates(raw)| ==>
      IsCleanName(ParseCandidates(raw)[k]) && '\n' !in ParseCandidates(raw)[k]
  {
    var lines := Split(raw, '\n');
    SplitJoin(raw, '\n');
    StrippedNonBlankClean(lines);
    var names := StrippedNonBlank(lines);
    forall k | 0 <= k < |names| ensures '\n' !in names[k] {
      var i := KeptNameFromLine(lines, k);
      StripIsSlice(lines[i]);
    }
  }

  /** What `strip` keeps is a slice of its input, so it holds no character the input lacks. */
  lemma StripIsSlice(s: string)
    ensures forall c :: c in Strip(s) ==> c in s
  {
    var a, b :| 0 <= a <= b <= |s| && Strip(s) == s[a..b] && AllSpace(s[..a]) && AllSpace(s[b..]);
    forall c | c in Strip(s) ensures c in s {
      var k :| 0 <= k < b - a && s[a..b][k] == c;
      assert s[a + k] == c;
    }
  }

  /**
   * Parsing is line by line and in order: the names of text joined at a line
   * break are the names of the first part followed by those of the second,
   * duplicates kept.
   */
  lemma ParseCandidatesLines(a: string, b: string)
    ensures ParseCandidates(a + "\n" + b) == ParseCandidates(a) + ParseCandidates(b)
  {
    SplitAppend(a, b, '\n');
    StrippedNonBlankAppend(Split(a, '\n'), Split(b, '\n'));
  }

  /** A single line gives no name when it is blank, and else its stripped form. */
  lemma ParseCandidatesOneLine(line: string)
    requires '\n' !in line
    ensures ParseCandidates(line) == if AllSpace(line) then [] else [Strip(line)]
  {
    SplitOneLine(line, '\n');
    StrippedNonBlankSingle(line);
  }

  /** A string without the separator splits into itself. */
  lemma {:induction false} SplitOneLine(s: string, sep: char)
    requires sep !in s
    ensures Split(s, sep) == [s]
  {
    if s != [] {
      assert s == [s[0]] + s[1..];
      SplitCharCons(s[0], s[1..], sep);
      SplitOneLine(s[1..], sep);
    }
  }

  /** Two lines with the same name give two candidates: the form does not deduplicate. */
  lemma DuplicateNamesKept()
    ensures ParseCandidates("A\nA") == ["A", "A"]
  {
    ParseCandidatesLines("A", "A");
    ParseCandidatesOneLine("A");
    assert !AllSpace("A") by { assert !IsSpace("A"[0]); }
    assert Strip("A") == "A" by {
      assert TrimStart("A") == "A";
      assert TrimEnd("A") == "A";
    }
  }

  /** One row of the results query: a candidate and the number of ballots cast for it. */
  datatype ResultRow = ResultRow(candidateId: int, name: string, votes: nat)

  /** `COUNT(v.id)` over `votes v` joined on `candidate_id = c.id AND election_id = c.election_id`. */
  function CountFor(votes: seq<Ballot>, c: Candidate): (n: nat)
    ensures n <= |votes|
  {
    if votes == [] then 0
    else
      var b := votes[|votes| - 1];
      CountFor(votes[..|votes| - 1], c) + if b.candidateId == c.id && b.electionId == c.electionId then 1 else 0
  }

  /** The positions of the ballots cast for candidate `c` in its own election. */
  function BallotsFor(votes: seq<Ballot>, c: Candidate): set<nat> {
    set i: nat | i < |votes| && votes[i].candidateId == c.id && votes[i].electionId == c.electionId
  }

  /** The count the join produces is the number of ballots cast for the candidate in its election. */
  lemma {:induction false} CountForCountsBallots(votes: seq<Ballot>, c: Candidate)
    ensures CountFor(votes, c) == |BallotsFor(votes, c)|
  {
    if votes != [] {
      var n := |votes| - 1;
      var init := votes[..n];
      CountForCountsBallots(init, c);
      assert forall i :: 0 <= i < n ==> init[i] == votes[i];
      if votes[n].candidateId == c.id && votes[n].electionId == c.electionId {
        assert BallotsFor(votes, c) == BallotsFor(init, c) + {n};
        assert n !in BallotsFor(init, c);
      } else {
        assert BallotsFor(votes, c) == BallotsFor(init, c);
      }
    }
  }

  /** The grouped rows, one per candidate of the election, before ordering. */
  function Tally(candidates: seq<Candidate>, votes: seq<Ballot>, electionId: int): (rows: seq<ResultRow>)
    ensures |rows| <= |candidates|
  {
    if candidates == [] then []
    else
      var c := candidates[0];
      var rest := Tally(candidates[1..], votes, electionId);
      if c.electionId == electionId then [ResultRow(c.id, c.name, CountFor(votes, c))] + rest else rest
  }

  /**
   * A row of the grouped result is exactly a candidate of the election with
   * its id, its name and its ballot count: candidates of other elections
   * never appear, and a candidate without ballots still does (the LEFT JOIN).
   */
  lemma {:induction false} TallyRows(candidates: seq<Candidate>, votes: seq<Ballot>, electionId: int, x: ResultRow)
    ensures x in Tally(candidates, votes, electionId) <==>
      exists c :: c in candidates && c.electionId == electionId && x == ResultRow(c.id, c.name, CountFor(votes, c))
  {
    if candidates != [] {
      TallyRows(candidates[1..], votes, electionId, x);
      assert candidates == [candidates[0]] + candidates[1..];
      assert forall c :: c in candidates <==> c == candidates[0] || c in candidates[1..];
    }
  }

  /** The candidate rows of one election, in the order they were stored. */
  function CandidatesOf(candidates: seq<Candidate>, electionId: int): (cs: seq<Candidate>)
    ensures |cs| <= |candidates|
    ensures forall k :: 0 <= k < |cs| ==> cs[k].electionId == electionId
  {
    if candidates == [] then []
    else
      var rest := CandidatesOf(candidates[1..], electionId);
      if candidates[0].electionId == electionId then [candidates[0]] + rest else rest
  }

  /**
   * The grouped result has exactly one row per candidate of the election,
   * in candidate order, each carrying that candidate's id, name and count.
   */
  lemma {:induction false} TallyOnePerCandidate(candidates: seq<Candidate>, votes: seq<Ballot>, electionId: int)
    ensures |Tally(candidates, votes, electionId)| == |CandidatesOf(candidates, electionId)|
    ensures forall i :: 0 <= i < |Tally(candidates, votes, electionId)| ==>
      var c := CandidatesOf(candidates, electionId)[i];
      Tally(candidates, votes, electionId)[i] == ResultRow(c.id, c.name, CountFor(votes, c))
  {
    if candidates != [] {
      TallyOnePerCandidate(candidates[1..], votes, electionId);
      var c := candidates[0];
      var rows, rest := Tally(candidates, votes, electionId), Tally(candidates[1..], votes, electionId);
      var cs, csRest := CandidatesOf(candidates, electionId), CandidatesOf(candidates[1..], electionId);
      if c.electionId == electionId {
        assert rows == [ResultRow(c.id, c.name, CountFor(votes, c))] + rest;
        assert cs == [c] + csRest;
        assert forall i :: 1 <= i < |rows| ==> rows[i] == rest[i - 1] && cs[i] == csRest[i - 1];
      } else {
        assert rows == rest && cs == csRest;
      }
    }
  }

  /** SQLite's BINARY collation: lexicographic order of the characters. */
  predicate NameLe(a: string, b: string) {
    a == [] || (b != [] && (a[0] < b[0] || (a[0] == b[0] && NameLe(a[1..], b[1..]))))
  }

  lemma {:induction false} NameLeTotal(a: string, b: string)
    ensures NameLe(a, b) || NameLe(b, a)
  {
    if a != [] && b != [] && a[0] == b[0] {
      NameLeTotal(a[1..], b[1..]);
    }
  }

  lemma {:induction false} NameLeTransitive(a: string, b: string, c: string)
    requires NameLe(a, b) && NameLe(b, c)
    ensures NameLe(a, c)
  {
    if a != [] && b != [] && c != [] && a[0] == b[0] && b[0] == c[0] {
      NameLeTransitive(a[1..], b[1..], c[1..]);
    }
  }

  /** `ORDER BY votes DESC, c.name ASC`. */
  predicate RanksBefore(x: ResultRow, y: ResultRow) {
    x.votes > y.votes || (x.votes == y.votes && NameLe(x.name, y.name))
  }

  lemma RanksBeforeTotal(x: ResultRow, y: ResultRow)
    ensures RanksBefore(x, y) || RanksBefore(y, x)
  {
    NameLeTotal(x.name, y.name);
  }

  lemma RanksBeforeTransitive(x: ResultRow, y: ResultRow, z: ResultRow)
    requires RanksBefore(x, y) && RanksBefore(y, z)
    ensures RanksBefore(x, z)
  {
    if x.votes == y.votes && y.votes == z.votes {
      NameLeTransitive(x.name, y.name, z.name);
    }
  }

  predicate Ordered(rows: seq<ResultRow>) {
    forall i, j :: 0 <= i < j < |rows| ==> RanksBefore(rows[i], rows[j])
  }

  function Insert(x: ResultRow, rows: seq<ResultRow>): (r: seq<ResultRow>)
    requires Ordered(rows)
    ensures Ordered(r) && multiset(r) == multiset(rows) + multiset{x}
    ensures r[0] == x || (rows != [] && r[0] == rows[0])
  {
    if rows == [] then [x]
    else if RanksBefore(x, rows[0]) then
      var r := [x] + rows;
      assert Ordered(r) by {
        forall i, j | 0 <= i < j < |r| ensures RanksBefore(r[i], r[j]) {
          if i == 0 && j > 1 { RanksBeforeTransitive(x, rows[0], rows[j - 1]); }
        }
      }
      r
    else
      RanksBeforeTotal(x, rows[0]);
      var tail := Insert(x, rows[1..]);
      var r := [rows[0]] + tail;
      assert RanksBefore(rows[0], tail[0]);
      assert Ordered(r) by {
        forall i, j | 0 <= i < j < |r| ensures RanksBefore(r[i], r[j]) {
          if i == 0 && j > 1 { RanksBeforeTransitive(rows[0], tail[0], tail[j - 1]); }
        }
      }
      assert rows == [rows[0]] + rows[1..];
      r
  }

  /** The result rows in the query's order: ordered, and a permutation of the grouped rows. */
  function Rank(rows: seq<ResultRow>): (r: seq<ResultRow>)
    ensures Ordered(r) && multiset(r) == multiset(rows)
  {
    if rows == [] then []
    else
      assert rows == rows[..|rows| - 1] + [rows[|rows| - 1]];
      Insert(rows[|rows| - 1], Rank(rows[..|rows| - 1]))
  }

  /**
   * `winner = rows[0] if rows else None`: a winner exists exactly when there
   * is a row; it is one of the rows, and in an ordered list it ranks before
   * every other row.
   */
  function Winner(ranked: seq<ResultRow>): (w: Option<ResultRow>)
    ensures w.Some? <==> ranked != []
    ensures w.Some? ==> w.value in ranked
    ensures w.Some? && Ordered(ranked) ==> forall k :: 0 < k < |ranked| ==> RanksBefore(w.value, ranked[k])
  {
    if ranked == [] then None else Some(ranked[0])
  }

  /**
   * The winner exists exactly when the election has a candidate; it has the
   * most votes, and among those with as many votes it has the least name.
   */
  lemma WinnerLeads(rows: seq<ResultRow>)
    ensures Winner(Rank(rows)).Some? <==> rows != []
    ensures Winner(Rank(rows)).Some? ==> Winner(Rank(rows)).value in rows
    ensures forall y :: y in rows ==> Winner(Rank(rows)).Some? && Winner(Rank(rows)).value.votes >= y.votes
    ensures forall y :: y in rows && y.votes == Winner(Rank(rows)).value.votes ==> NameLe(Winner(Rank(rows)).value.name, y.name)
  {
    var r := Rank(rows);
    if rows != [] {
      assert r[0] in multiset(r);
      assert |r| == |multiset(r)| == |rows|;
      forall y | y in rows ensures RanksBefore(r[0], y) || r[0] == y {
        assert y in multiset(r);
        var j :| 0 <= j < |r| && r[j] == y;
      }
      forall y | y in rows ensures NameLe(r[0].name, y.name) || r[0].votes != y.votes {
        if r[0] == y { NameLeTotal(y.name, y.name); }
      }
    } else {
      assert |r| == |multiset(r)| == 0;
    }
  }
}
