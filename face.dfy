/**
 * The similarity policy: one global threshold, and the linear duplicate
 * scan of `check_duplicate_face` (app.py:168-187). The distance function
 * itself is a parameter: the embedding model and its float arithmetic are
 * outside the model.
 */
module Face {
  import opened Wrappers
  import opened Tables

  /** `DUP_FACE_THRESHOLD`, its default value. */
  const DUP_FACE_THRESHOLD: real := 0.35

  /** The start value of `best_d` in the scan. */
  const SCAN_SENTINEL: real := 999.0

  /** Row `k` is the first row at the least distance from `emb`. */
  ghost predicate IsFirstNearest(rows: seq<VoterRow>, emb: Embedding, dist: (Embedding, Embedding) -> real, k: int) {
    0 <= k < |rows|
    && (forall j :: 0 <= j < |rows| ==> dist(emb, rows[k].embedding) <= dist(emb, rows[j].embedding))
    && (forall j :: 0 <= j < k ==> dist(emb, rows[k].embedding) < dist(emb, rows[j].embedding))
  }

  /** Some enrolled face lies within the threshold of `emb`. */
  ghost predicate AnyWithin(rows: seq<VoterRow>, emb: Embedding, dist: (Embedding, Embedding) -> real) {
    exists i :: 0 <= i < |rows| && dist(emb, rows[i].embedding) <= DUP_FACE_THRESHOLD
  }

  /**
   * The guard's invariant over the enrolled faces: each face, compared with
   * every face enrolled before it, was farther than the threshold.
   */
  ghost predicate NoDuplicateFaces(rows: seq<VoterRow>, dist: (Embedding, Embedding) -> real) {
    forall i, j :: 0 <= i < j < |rows| ==> dist(rows[j].embedding, rows[i].embedding) > DUP_FACE_THRESHOLD
  }

  /**
   * `check_duplicate_face(new_emb)`: a duplicate exactly when some enrolled
   * face is within the threshold (so never on an empty table); the match
   * reported is the first row at the least distance, because `best_d` only
   * moves on a strictly smaller distance; a non-duplicate carries no voter
   * and no distance.
   */
  method ScanForDuplicate(rows: seq<VoterRow>, emb: Embedding, dist: (Embedding, Embedding) -> real)
    returns (dup: bool, matched: Option<string>, distance: Option<real>)
    ensures dup <==> AnyWithin(rows, emb, dist)
    ensures |rows| == 0 ==> !dup
    ensures !dup ==> matched == None && distance == None
    ensures dup ==> (exists k :: IsFirstNearest(rows, emb, dist, k)
                              && matched == Some(rows[k].voterId) && distance == Some(dist(emb, rows[k].embedding))
                              && dist(emb, rows[k].embedding) <= DUP_FACE_THRESHOLD)
  {
    var bestVoter: Option<string> := None;
    var bestD := SCAN_SENTINEL;
    ghost var bestIdx := -1;
    for i := 0 to |rows|
      invariant bestVoter.None? <==> bestIdx == -1
      invariant bestIdx == -1 ==> bestD == SCAN_SENTINEL
      invariant bestIdx == -1 ==> forall j :: 0 <= j < i ==> dist(emb, rows[j].embedding) >= SCAN_SENTINEL
      invariant bestIdx != -1 ==> 0 <= bestIdx < i && bestVoter == Some(rows[bestIdx].voterId)
      invariant bestIdx != -1 ==> bestD == dist(emb, rows[bestIdx].embedding) && bestD < SCAN_SENTINEL
      invariant bestIdx != -1 ==> forall j :: 0 <= j < i ==> bestD <= dist(emb, rows[j].embedding)
      invariant bestIdx != -1 ==> forall j :: 0 <= j < bestIdx ==> bestD < dist(emb, rows[j].embedding)
    {
      var d := dist(emb, rows[i].embedding);
      if d < bestD {
        bestD := d;
        bestVoter := Some(rows[i].voterId);
        bestIdx := i;
      }
    }
    if bestVoter.Some? && bestD <= DUP_FACE_THRESHOLD {
      dup, matched, distance := true, bestVoter, Some(bestD);
      assert IsFirstNearest(rows, emb, dist, bestIdx);
    } else {
      dup, matched, distance := false, None, None;
    }
  }

  /** Enrolling a face the scan let through keeps the enrolled faces apart. */
  lemma EnrolKeepsApart(rows: seq<VoterRow>, row: VoterRow, dist: (Embedding, Embedding) -> real)
    requires NoDuplicateFaces(rows, dist) && !AnyWithin(rows, row.embedding, dist)
    ensures NoDuplicateFaces(rows + [row], dist)
  {
    var grown := rows + [row];
    forall i, j | 0 <= i < j < |grown| ensures dist(grown[j].embedding, grown[i].embedding) > DUP_FACE_THRESHOLD {
      assert grown[i] == rows[i];
      if j < |rows| {
        assert grown[j] == rows[j];
      }
    }
  }
}
