/**
 * The eligible-voter import: the upsert loop that runs over the rows of
 * students.xlsx at start-up (app.py:71-96) and over an uploaded sheet in
 * `admin_import` (app.py:726-748). Both loops have the same effect; this
 * module gives it as a function of the table and the rows.
 */
module Roster {
  import opened Wrappers
  import opened Text
  import opened Tables

  /**
   * One sheet row as its cells print with `str(...)`; `phone` is None when
   * the sheet has no phone column or the cell is empty (NaN).
   */
  datatype SheetRow = SheetRow(voterId: string, name: string, email: string, phone: Option<string>)

  /**
   * A row whose stripped voter id is empty or reads "nan" in any case is
   * skipped; in particular every blank id is, and a row that is kept has a
   * non-empty key.
   */
  predicate Skipped(row: SheetRow)
    ensures AllSpace(row.voterId) ==> Skipped(row)
    ensures !Skipped(row) ==> KeyOf(row) != ""
  {
    StripEmptyIffSpace(row.voterId);
    var id := Strip(row.voterId);
    id == "" || Lower(id) == "nan"
  }

  function KeyOf(row: SheetRow): string {
    Strip(row.voterId)
  }

  function PhoneOf(row: SheetRow): string {
    if row.phone.Some? then Strip(row.phone.value) else ""
  }

  /** The effect of one row: update name, email and phone of a known voter, or insert an unregistered one. */
  function Upsert(m: map<string, EligibleVoter>, row: SheetRow): (r: map<string, EligibleVoter>)
    ensures r.Keys == if Skipped(row) then m.Keys else m.Keys + {KeyOf(row)}
  {
    if Skipped(row) then m
    else
      var id := KeyOf(row);
      if id in m then m[id := m[id].(name := Strip(row.name), email := Strip(row.email), phone := PhoneOf(row))]
      else m[id := EligibleVoter(Strip(row.name), Strip(row.email), PhoneOf(row), 0)]
  }

  /** What one row does to the table. */
  lemma UpsertFacts(m: map<string, EligibleVoter>, row: SheetRow)
    ensures Skipped(row) ==> Upsert(m, row) == m
    ensures !Skipped(row) ==> Upsert(m, row).Keys == m.Keys + {KeyOf(row)}
    ensures forall id :: id in m ==> id in Upsert(m, row) && Upsert(m, row)[id].isRegistered == m[id].isRegistered
    ensures forall id :: id in Upsert(m, row) && id !in m ==> Upsert(m, row)[id].isRegistered == 0
    ensures forall id :: id in m && id != KeyOf(row) ==> Upsert(m, row)[id] == m[id]
    ensures !Skipped(row) ==> var v := Upsert(m, row)[KeyOf(row)];
      v.name == Strip(row.name) && v.email == Strip(row.email) && v.phone == PhoneOf(row)
  {
  }

  /** The table after the loop has processed `rows` in order. */
  function ImportAll(m: map<string, EligibleVoter>, rows: seq<SheetRow>): (r: map<string, EligibleVoter>)
    ensures m.Keys <= r.Keys
  {
    if rows == [] then m else Upsert(ImportAll(m, rows[..|rows| - 1]), rows[|rows| - 1])
  }

  /** The number of rows that are not skipped. */
  function AcceptedCount(rows: seq<SheetRow>): nat {
    if rows == [] then 0
    else AcceptedCount(rows[..|rows| - 1]) + if Skipped(rows[|rows| - 1]) then 0 else 1
  }

  /** The voter ids the rows that are not skipped carry. */
  function AcceptedIds(rows: seq<SheetRow>): set<string> {
    if rows == [] then {}
    else AcceptedIds(rows[..|rows| - 1]) + if Skipped(rows[|rows| - 1]) then {} else {KeyOf(rows[|rows| - 1])}
  }

  /** Import never touches `is_registered` of a voter already in the table, and never removes one. */
  lemma {:induction false} ImportKeepsRegistration(m: map<string, EligibleVoter>, rows: seq<SheetRow>, id: string)
    requires id in m
    ensures id in ImportAll(m, rows) && ImportAll(m, rows)[id].isRegistered == m[id].isRegistered
  {
    if rows != [] {
      ImportKeepsRegistration(m, rows[..|rows| - 1], id);
    }
  }

  /** A voter the import adds starts unregistered. */
  lemma {:induction false} ImportAddsUnregistered(m: map<string, EligibleVoter>, rows: seq<SheetRow>, id: string)
    requires id in ImportAll(m, rows) && id !in m
    ensures ImportAll(m, rows)[id].isRegistered == 0
  {
    if rows != [] {
      var before := ImportAll(m, rows[..|rows| - 1]);
      UpsertFacts(before, rows[|rows| - 1]);
      if id in before {
        ImportAddsUnregistered(m, rows[..|rows| - 1], id);
      }
    }
  }

  /** After the import the table holds the old voters and one voter per accepted id. */
  lemma {:induction false} ImportKeys(m: map<string, EligibleVoter>, rows: seq<SheetRow>)
    ensures ImportAll(m, rows).Keys == m.Keys + AcceptedIds(rows)
  {
    if rows != [] {
      var init := rows[..|rows| - 1];
      var last := rows[|rows| - 1];
      ImportKeys(m, init);
      UpsertFacts(ImportAll(m, init), last);
    }
  }

  /**
   * The name, email and phone a voter ends up with come from the last
   * accepted row that carries its id.
   */
  lemma {:induction false} LastRowWins(m: map<string, EligibleVoter>, rows: seq<SheetRow>, i: int)
    requires 0 <= i < |rows| && !Skipped(rows[i])
    requires forall j :: i < j < |rows| ==> Skipped(rows[j]) || KeyOf(rows[j]) != KeyOf(rows[i])
    ensures KeyOf(rows[i]) in ImportAll(m, rows)
    ensures var v := ImportAll(m, rows)[KeyOf(rows[i])];
      v.name == Strip(rows[i].name) && v.email == Strip(rows[i].email) && v.phone == PhoneOf(rows[i])
  {
    var init := rows[..|rows| - 1];
    UpsertFacts(ImportAll(m, init), rows[|rows| - 1]);
    if i < |rows| - 1 {
      forall j | i < j < |init| ensures Skipped(init[j]) || KeyOf(init[j]) != KeyOf(init[i]) {
        assert init[j] == rows[j];
      }
      LastRowWins(m, init, i);
      assert init[i] == rows[i];
    }
  }

  /** The number of accepted rows whose id was not yet in the table when the row was read. */
  function AddedCount(m: map<string, EligibleVoter>, rows: seq<SheetRow>): nat {
    if rows == [] then 0
    else
      var init, last := rows[..|rows| - 1], rows[|rows| - 1];
      AddedCount(m, init) + if !Skipped(last) && KeyOf(last) !in ImportAll(m, init) then 1 else 0
  }

  /** The number of accepted rows whose id was already in the table when the row was read. */
  function UpdatedCount(m: map<string, EligibleVoter>, rows: seq<SheetRow>): nat {
    if rows == [] then 0
    else
      var init, last := rows[..|rows| - 1], rows[|rows| - 1];
      UpdatedCount(m, init) + if !Skipped(last) && KeyOf(last) in ImportAll(m, init) then 1 else 0
  }

  /** Every accepted row is counted once, as an insert or as an update. */
  lemma {:induction false} CountsCoverAccepted(m: map<string, EligibleVoter>, rows: seq<SheetRow>)
    ensures AddedCount(m, rows) + UpdatedCount(m, rows) == AcceptedCount(rows)
  {
    if rows != [] {
      CountsCoverAccepted(m, rows[..|rows| - 1]);
    }
  }

  /** The insert count is the number of ids the import adds to the table. */
  lemma {:induction false} AddedCountsNewIds(m: map<string, EligibleVoter>, rows: seq<SheetRow>)
    ensures m.Keys <= ImportAll(m, rows).Keys
    ensures AddedCount(m, rows) == |ImportAll(m, rows).Keys - m.Keys|
  {
    if rows != [] {
      var init, last := rows[..|rows| - 1], rows[|rows| - 1];
      AddedCountsNewIds(m, init);
      var before := ImportAll(m, init);
      UpsertFacts(before, last);
      NewKeysStep(m.Keys, before.Keys, ImportAll(m, rows).Keys, KeyOf(last));
    }
  }

  /** Inserting one key adds one to the keys that are new, unless it was already there. */
  lemma NewKeysStep(old0: set<string>, before: set<string>, after: set<string>, k: string)
    requires old0 <= before && (after == before || after == before + {k})
    ensures old0 <= after
    ensures after == before + {k} && k !in before ==> |after - old0| == |before - old0| + 1
    ensures after == before || k in before ==> |after - old0| == |before - old0|
  {
    if after == before + {k} && k !in before {
      assert after - old0 == (before - old0) + {k};
    } else if after == before + {k} {
      assert after == before;
    }
  }

  /** Reading one more row of `rows` is one more `Upsert`, counted as an insert or an update. */
  lemma ImportPrefixStep(m: map<string, EligibleVoter>, rows: seq<SheetRow>, i: int)
    requires 0 <= i < |rows|
    ensures var before, row := ImportAll(m, rows[..i]), rows[i];
      && ImportAll(m, rows[..i + 1]) == Upsert(before, row)
      && AddedCount(m, rows[..i + 1]) == AddedCount(m, rows[..i]) + (if !Skipped(row) && KeyOf(row) !in before then 1 else 0)
      && UpdatedCount(m, rows[..i + 1]) == UpdatedCount(m, rows[..i]) + (if !Skipped(row) && KeyOf(row) in before then 1 else 0)
  {
    assert rows[..i + 1][..i] == rows[..i] && rows[..i + 1][i] == rows[i];
  }

  /**
   * The loop itself, on a copy of the table: each accepted row is stripped
   * and upserted, counting the ids it inserts and the ones it updates.
   */
  method ImportRows(m: map<string, EligibleVoter>, rows: seq<SheetRow>)
    returns (table: map<string, EligibleVoter>, added: nat, updated: nat)
    ensures table == ImportAll(m, rows)
    ensures added == AddedCount(m, rows) && updated == UpdatedCount(m, rows)
  {
    table, added, updated := m, 0, 0;
    var i := 0;
    while i < |rows|
      invariant 0 <= i <= |rows|
      invariant table == ImportAll(m, rows[..i])
      invariant added == AddedCount(m, rows[..i]) && updated == UpdatedCount(m, rows[..i])
    {
      var row := rows[i];
      ImportPrefixStep(m, rows, i);
      ghost var next := Upsert(table, row);
      var voterId := Strip(row.voterId);
      if voterId != "" && Lower(voterId) != "nan" {
        var name, email := Strip(row.name), Strip(row.email);
        var phone := if row.phone.Some? then Strip(row.phone.value) else "";
        if voterId in table {
          table := table[voterId := table[voterId].(name := name, email := email, phone := phone)];
          updated := updated + 1;
        } else {
          table := table[voterId := EligibleVoter(name, email, phone, 0)];
          added := added + 1;
        }
        assert table == next;
      }
      i := i + 1;
    }
    assert rows[..i] == rows;
  }
}
