/**
 * `check_plagiarism`: compare every pair of embeddings, each unordered pair
 * once, in the dictionary's key order, and report the pairs whose cosine
 * similarity exceeds 0.80 with the two students' names and the similarity
 * as a percentage.
 */
module Plagiarism {
  import opened Rounding
  import opened Scoring

  /** One item of the `student_embeddings` dictionary, in insertion order. */
  datatype Entry = Entry(id: nat, embedding: Vector)

  /** One reported tuple `(student1_name, student2_name, round(sim * 100, 2))`. */
  datatype Flag = Flag(first: string, second: string, percent: real)

  /** The name reported for a submission id missing from the name map. */
  const Unknown: string := "Unknown"

  /** `submission_id_to_student.get(id, "Unknown")`. */
  function NameOf(names: map<nat, string>, id: nat): (name: string)
    ensures id in names ==> name == names[id]
    ensures id !in names ==> name == Unknown
  {
    if id in names then names[id] else Unknown
  }

  predicate DistinctIds(entries: seq<Entry>)
  {
    forall a, b :: 0 <= a < b < |entries| ==> entries[a].id != entries[b].id
  }

  /** Are the embeddings at positions `a` and `b` close enough to report? */
  predicate Similar(entries: seq<Entry>, cos: (Vector, Vector) -> real, a: nat, b: nat)
    requires a < |entries| && b < |entries|
  {
    cos(entries[a].embedding, entries[b].embedding) > CopyThreshold
  }

  /** The reported position pairs `(a, b)` with `b` from `j` on, in order. */
  function RowPairs(entries: seq<Entry>, cos: (Vector, Vector) -> real, a: nat, j: nat): (ps: seq<(nat, nat)>)
    requires a < j <= |entries|
    ensures forall k :: 0 <= k < |ps| ==>
      ps[k].0 == a && j <= ps[k].1 < |entries| && Similar(entries, cos, ps[k].0, ps[k].1)
    decreases |entries| - j
  {
    if j == |entries| then []
    else (if Similar(entries, cos, a, j) then [(a, j)] else []) + RowPairs(entries, cos, a, j + 1)
  }

  /** The reported position pairs whose first position is `i` or later, in loop order. */
  function PairsFrom(entries: seq<Entry>, cos: (Vector, Vector) -> real, i: nat): (ps: seq<(nat, nat)>)
    requires i <= |entries|
    ensures forall k :: 0 <= k < |ps| ==>
      i <= ps[k].0 < ps[k].1 < |entries| && Similar(entries, cos, ps[k].0, ps[k].1)
    decreases |entries| - i
  {
    if i == |entries| then [] else RowPairs(entries, cos, i, i + 1) + PairsFrom(entries, cos, i + 1)
  }

  /** All reported position pairs. */
  function FlaggedPairs(entries: seq<Entry>, cos: (Vector, Vector) -> real): seq<(nat, nat)>
  {
    PairsFrom(entries, cos, 0)
  }

  predicate InRange(entries: seq<Entry>, ps: seq<(nat, nat)>)
  {
    forall k :: 0 <= k < |ps| ==> ps[k].0 < |entries| && ps[k].1 < |entries|
  }

  /** The tuple reported for the positions `p`. */
  function ToFlag(entries: seq<Entry>, names: map<nat, string>, cos: (Vector, Vector) -> real, p: (nat, nat)): Flag
    requires p.0 < |entries| && p.1 < |entries|
  {
    var e1, e2 := entries[p.0], entries[p.1];
    Flag(NameOf(names, e1.id), NameOf(names, e2.id), Round2(cos(e1.embedding, e2.embedding) * 100.0))
  }

  /** The tuples reported for a sequence of position pairs. */
  function ToFlags(entries: seq<Entry>, names: map<nat, string>, cos: (Vector, Vector) -> real,
                   ps: seq<(nat, nat)>): (flags: seq<Flag>)
    requires InRange(entries, ps)
    ensures |flags| == |ps|
  {
    if ps == [] then []
    else ToFlags(entries, names, cos, ps[..|ps| - 1]) + [ToFlag(entries, names, cos, ps[|ps| - 1])]
  }

  /** The `k`-th tuple is the one reported for the `k`-th position pair. */
  lemma {:induction false} ToFlagsAt(entries: seq<Entry>, names: map<nat, string>, cos: (Vector, Vector) -> real,
                                     ps: seq<(nat, nat)>, k: nat)
    requires InRange(entries, ps) && k < |ps|
    ensures ToFlags(entries, names, cos, ps)[k] == ToFlag(entries, names, cos, ps[k])
  {
    if k < |ps| - 1 {
      ToFlagsAt(entries, names, cos, ps[..|ps| - 1], k);
    }
  }

  /** What `check_plagiarism(student_embeddings, submission_id_to_student)` returns. */
  function Detect(entries: seq<Entry>, names: map<nat, string>, cos: (Vector, Vector) -> real): seq<Flag>
  {
    ToFlags(entries, names, cos, FlaggedPairs(entries, cos))
  }

  /** Reporting one more pair appends its tuple. */
  lemma ToFlagsAppend(entries: seq<Entry>, names: map<nat, string>, cos: (Vector, Vector) -> real,
                      ps: seq<(nat, nat)>, p: (nat, nat))
    requires InRange(entries, ps) && p.0 < |entries| && p.1 < |entries|
    ensures InRange(entries, ps + [p])
    ensures ToFlags(entries, names, cos, ps + [p]) == ToFlags(entries, names, cos, ps) + [ToFlag(entries, names, cos, p)]
  {
    assert (ps + [p])[..|ps|] == ps;
  }

  /** `check_plagiarism`: the outer loop over the keys. */
  method CheckPlagiarism(entries: seq<Entry>, names: map<nat, string>, cos: (Vector, Vector) -> real)
    returns (results: seq<Flag>)
    ensures results == Detect(entries, names, cos)
  {
    results := [];
    ghost var done: seq<(nat, nat)> := [];
    var i := 0;
    while i < |entries|
      invariant 0 <= i <= |entries|
      invariant InRange(entries, done)
      invariant done + PairsFrom(entries, cos, i) == FlaggedPairs(entries, cos)
      invariant results == ToFlags(entries, names, cos, done)
    {
      var row := CompareWithLater(entries, names, cos, i);
      OuterStep(entries, names, cos, done, i);
      results := results + row;
      done := done + RowPairs(entries, cos, i, i + 1);
      i := i + 1;
    }
    assert done + [] == done;
  }

  /** `check_plagiarism`'s inner loop: compare the `i`-th key with every later one. */
  method CompareWithLater(entries: seq<Entry>, names: map<nat, string>, cos: (Vector, Vector) -> real, i: nat)
    returns (row: seq<Flag>)
    requires i < |entries|
    ensures row == ToFlags(entries, names, cos, RowPairs(entries, cos, i, i + 1))
  {
    row := [];
    ghost var done: seq<(nat, nat)> := [];
    var j := i + 1;
    while j < |entries|
      invariant i + 1 <= j <= |entries|
      invariant InRange(entries, done)
      invariant done + RowPairs(entries, cos, i, j) == RowPairs(entries, cos, i, i + 1)
      invariant row == ToFlags(entries, names, cos, done)
    {
      var sim := cos(entries[i].embedding, entries[j].embedding);
      if sim > CopyThreshold {
        var name1 := NameOf(names, entries[i].id);
        var name2 := NameOf(names, entries[j].id);
        ReportStep(entries, names, cos, done, i, j);
        row := row + [Flag(name1, name2, Round2(sim * 100.0))];
        done := done + [(i, j)];
      } else {
        SkipStep(entries, cos, done, i, j);
      }
      j := j + 1;
    }
    assert done + [] == done;
  }

  /** Outer-loop step: the `i`-th row of pairs is appended to those already reported. */
  lemma OuterStep(entries: seq<Entry>, names: map<nat, string>, cos: (Vector, Vector) -> real,
                  done: seq<(nat, nat)>, i: nat)
    requires i < |entries| && InRange(entries, done)
    requires done + PairsFrom(entries, cos, i) == FlaggedPairs(entries, cos)
    ensures InRange(entries, done + RowPairs(entries, cos, i, i + 1))
    ensures (done + RowPairs(entries, cos, i, i + 1)) + PairsFrom(entries, cos, i + 1) == FlaggedPairs(entries, cos)
    ensures ToFlags(entries, names, cos, done + RowPairs(entries, cos, i, i + 1))
         == ToFlags(entries, names, cos, done) + ToFlags(entries, names, cos, RowPairs(entries, cos, i, i + 1))
  {
    ToFlagsConcat(entries, names, cos, done, RowPairs(entries, cos, i, i + 1));
  }

  /** The tuples of two runs of position pairs, one after the other. */
  lemma {:induction false} ToFlagsConcat(entries: seq<Entry>, names: map<nat, string>, cos: (Vector, Vector) -> real,
                                         ps: seq<(nat, nat)>, qs: seq<(nat, nat)>)
    requires InRange(entries, ps) && InRange(entries, qs)
    ensures InRange(entries, ps + qs)
    ensures ToFlags(entries, names, cos, ps + qs) == ToFlags(entries, names, cos, ps) + ToFlags(entries, names, cos, qs)
    decreases |qs|
  {
    if qs != [] {
      var init := qs[..|qs| - 1];
      assert (ps + qs)[..|ps + qs| - 1] == ps + init;
      ToFlagsConcat(entries, names, cos, ps, init);
    } else {
      assert ps + qs == ps;
    }
  }

  /** Inner-loop step that reports the pair `(i, j)`. */
  lemma ReportStep(entries: seq<Entry>, names: map<nat, string>, cos: (Vector, Vector) -> real,
                   done: seq<(nat, nat)>, i: nat, j: nat)
    requires i < j < |entries| && InRange(entries, done) && Similar(entries, cos, i, j)
    ensures InRange(entries, done + [(i, j)])
    ensures done + RowPairs(entries, cos, i, j) == done + [(i, j)] + RowPairs(entries, cos, i, j + 1)
    ensures ToFlags(entries, names, cos, done + [(i, j)])
         == ToFlags(entries, names, cos, done) + [Flag(NameOf(names, entries[i].id), NameOf(names, entries[j].id),
                                                      Round2(cos(entries[i].embedding, entries[j].embedding) * 100.0))]
  {
    assert (done + [(i, j)])[..|done|] == done;
    assert RowPairs(entries, cos, i, j) == [(i, j)] + RowPairs(entries, cos, i, j + 1);
  }

  /** Inner-loop step that passes over the pair `(i, j)`. */
  lemma SkipStep(entries: seq<Entry>, cos: (Vector, Vector) -> real, done: seq<(nat, nat)>, i: nat, j: nat)
    requires i < j < |entries| && !Similar(entries, cos, i, j)
    ensures RowPairs(entries, cos, i, j) == RowPairs(entries, cos, i, j + 1)
  {
  }

  // ---------------------------------------------------------------------
  // Properties of the reported pairs
  // ---------------------------------------------------------------------

  lemma {:induction false} RowPairsComplete(entries: seq<Entry>, cos: (Vector, Vector) -> real, a: nat, j: nat, b: nat)
    requires a < j <= b < |entries| && Similar(entries, cos, a, b)
    ensures (a, b) in RowPairs(entries, cos, a, j)
    decreases |entries| - j
  {
    if j < b {
      RowPairsComplete(entries, cos, a, j + 1, b);
    }
  }

  lemma {:induction false} PairsFromComplete(entries: seq<Entry>, cos: (Vector, Vector) -> real, i: nat, a: nat, b: nat)
    requires i <= a < b < |entries| && Similar(entries, cos, a, b)
    ensures (a, b) in PairsFrom(entries, cos, i)
    decreases |entries| - i
  {
    if i == a {
      RowPairsComplete(entries, cos, a, a + 1, b);
    } else {
      PairsFromComplete(entries, cos, i + 1, a, b);
    }
  }

  /** A pair of positions is reported if and only if it is ordered and its similarity exceeds 0.80. */
  lemma FlaggedPairsExactly(entries: seq<Entry>, cos: (Vector, Vector) -> real, a: nat, b: nat)
    ensures (a, b) in FlaggedPairs(entries, cos) <==> a < b < |entries| && Similar(entries, cos, a, b)
  {
    if a < b < |entries| && Similar(entries, cos, a, b) {
      PairsFromComplete(entries, cos, 0, a, b);
    }
  }

  /** Lexicographic order on position pairs: the order in which the loops visit them. */
  predicate Before(p: (nat, nat), q: (nat, nat))
  {
    p.0 < q.0 || (p.0 == q.0 && p.1 < q.1)
  }

  predicate Ascending(ps: seq<(nat, nat)>)
  {
    forall k, l :: 0 <= k < l < |ps| ==> Before(ps[k], ps[l])
  }

  lemma {:induction false} RowPairsAscending(entries: seq<Entry>, cos: (Vector, Vector) -> real, a: nat, j: nat)
    requires a < j <= |entries|
    ensures Ascending(RowPairs(entries, cos, a, j))
    decreases |entries| - j
  {
    if j < |entries| {
      RowPairsAscending(entries, cos, a, j + 1);
    }
  }

  lemma {:induction false} PairsFromAscending(entries: seq<Entry>, cos: (Vector, Vector) -> real, i: nat)
    requires i <= |entries|
    ensures Ascending(PairsFrom(entries, cos, i))
    decreases |entries| - i
  {
    if i < |entries| {
      var row, rest := RowPairs(entries, cos, i, i + 1), PairsFrom(entries, cos, i + 1);
      RowPairsAscending(entries, cos, i, i + 1);
      PairsFromAscending(entries, cos, i + 1);
      var ps := row + rest;
      forall k, l | 0 <= k < l < |ps| ensures Before(ps[k], ps[l]) {
        if l < |row| {
          assert ps[k] == row[k] && ps[l] == row[l];
        } else if k < |row| {
          assert ps[k] == row[k] && ps[l] == rest[l - |row|];
        } else {
          assert ps[k] == rest[k - |row|] && ps[l] == rest[l - |row|];
        }
      }
    }
  }

  /**
   * The reported pairs come in the loops' visiting order, strictly, so no
   * unordered pair is reported twice and no position is paired with itself.
   */
  lemma FlaggedPairsAscending(entries: seq<Entry>, cos: (Vector, Vector) -> real)
    ensures Ascending(FlaggedPairs(entries, cos))
    ensures forall k :: 0 <= k < |FlaggedPairs(entries, cos)| ==> FlaggedPairs(entries, cos)[k].0 < FlaggedPairs(entries, cos)[k].1
  {
    PairsFromAscending(entries, cos, 0);
  }

  lemma {:induction false} RowPairsCount(entries: seq<Entry>, cos: (Vector, Vector) -> real, a: nat, j: nat)
    requires a < j <= |entries|
    ensures |RowPairs(entries, cos, a, j)| <= |entries| - j
    decreases |entries| - j
  {
    if j < |entries| {
      RowPairsCount(entries, cos, a, j + 1);
    }
  }

  lemma {:induction false} PairsFromCount(entries: seq<Entry>, cos: (Vector, Vector) -> real, i: nat)
    requires i <= |entries|
    ensures 2 * |PairsFrom(entries, cos, i)| <= (|entries| - i) * (|entries| - i - 1)
    decreases |entries| - i
  {
    if i < |entries| {
      var m := |entries| - i;
      RowPairsCount(entries, cos, i, i + 1);
      PairsFromCount(entries, cos, i + 1);
      assert (m - 1) * (m - 2) + 2 * (m - 1) == m * (m - 1);
    }
  }

  /** At most n(n-1)/2 pairs are reported for n submissions. */
  lemma FlaggedPairsCount(entries: seq<Entry>, cos: (Vector, Vector) -> real)
    ensures 2 * |FlaggedPairs(entries, cos)| <= |entries| * (|entries| - 1)
  {
    PairsFromCount(entries, cos, 0);
  }

  /**
   * Every reported tuple names two different submissions (when the ids are
   * distinct), each by its name or "Unknown", with a percentage of at least 80.
   */
  lemma DetectSound(entries: seq<Entry>, names: map<nat, string>, cos: (Vector, Vector) -> real, k: nat)
    requires DistinctIds(entries)
    requires k < |Detect(entries, names, cos)|
    ensures var p := FlaggedPairs(entries, cos)[k];
      var f := Detect(entries, names, cos)[k];
      p.0 < p.1 < |entries|
      && entries[p.0].id != entries[p.1].id
      && f.first == NameOf(names, entries[p.0].id)
      && f.second == NameOf(names, entries[p.1].id)
      && f.percent >= 80.0
  {
    var p := FlaggedPairs(entries, cos)[k];
    ToFlagsAt(entries, names, cos, FlaggedPairs(entries, cos), k);
    var sim := cos(entries[p.0].embedding, entries[p.1].embedding);
    Round2Monotone(80.0, sim * 100.0);
    assert Hundredths(80.0) == 8000;
  }
}
