/** The read side of `GET /programs`: the rows of a left outer join of programs
    with their exercises, ordered by program id, are folded into one nested view
    per program. */
module ListPrograms {
  import opened JsValues
  import opened ObjectKeys

  /** The exercise columns of a joined row; all null (None) on the outer join's
      row for a program that has no exercise. */
  datatype ExerciseColumns = ExerciseColumns(exerciseId: int, name: JsValue, reps: JsValue, exerciseType: JsValue)

  /** One row of the join: `program_id`, `title`, `goal` and the exercise columns. */
  datatype Row = Row(programId: Index, title: JsValue, goal: JsValue, exercise: Option<ExerciseColumns>)

  /** An exercise inside a program view: it has no `program_id` field. */
  datatype ExerciseView = ExerciseView(id: int, name: JsValue, reps: JsValue, exerciseType: JsValue)

  /** A program with its exercises inlined. */
  datatype ProgramView = ProgramView(id: Index, title: JsValue, goal: JsValue, exercises: seq<ExerciseView>)

  /** The row's `exercise_id` is truthy: present and not 0. */
  predicate HasExercise(r: Row) {
    r.exercise.Some? && r.exercise.value.exerciseId != 0
  }

  /** The exercise entry built from a row's exercise columns. */
  function ToExercise(r: Row): ExerciseView
    requires r.exercise.Some?
  {
    var e := r.exercise.value;
    ExerciseView(e.exerciseId, e.name, e.reps, e.exerciseType)
  }

  /** The program ids that occur in the rows. */
  function ProgramIds(rows: seq<Row>): set<Index> {
    set i | 0 <= i < |rows| :: rows[i].programId
  }

  lemma ProgramIdsCons(rows: seq<Row>)
    requires rows != []
    ensures ProgramIds(rows) == {rows[0].programId} + ProgramIds(rows[1..])
  {
  }

  lemma ProgramIdsAppend(rows: seq<Row>, r: Row)
    ensures ProgramIds(rows + [r]) == ProgramIds(rows) + {r.programId}
  {
    var both := rows + [r];
    forall k | k in ProgramIds(rows) ensures k in ProgramIds(both) {
      var i :| 0 <= i < |rows| && rows[i].programId == k;
      assert both[i].programId == k;
    }
    assert both[|rows|].programId == r.programId;
  }

  /** The first row that carries program id `k`. */
  function FirstRowOf(rows: seq<Row>, k: Index): (r: Row)
    requires k in ProgramIds(rows)
    ensures exists j :: 0 <= j < |rows| && rows[j] == r && r.programId == k &&
                        forall i :: 0 <= i < j ==> rows[i].programId != k
  {
    if rows[0].programId == k then rows[0]
    else
      ProgramIdsCons(rows);
      var r := FirstRowOf(rows[1..], k);
      var j :| 0 <= j < |rows[1..]| && rows[1..][j] == r && r.programId == k &&
               forall i :: 0 <= i < j ==> rows[1..][i].programId != k;
      assert rows[j + 1] == r;
      r
  }

  /** The exercises of program `k`: one per row of `k` with a truthy exercise id,
      in row order. */
  function ExercisesOf(rows: seq<Row>, k: Index): seq<ExerciseView> {
    if rows == [] then []
    else
      (if rows[0].programId == k && HasExercise(rows[0]) then [ToExercise(rows[0])] else [])
      + ExercisesOf(rows[1..], k)
  }

  /** The view of program `k`: id, title and goal of its first row, then its exercises. */
  function ViewOf(rows: seq<Row>, k: Index): ProgramView
    requires k in ProgramIds(rows)
  {
    var first := FirstRowOf(rows, k);
    ProgramView(k, first.title, first.goal, ExercisesOf(rows, k))
  }

  /** The response of `GET /programs`: one view per program id, in ascending id order. */
  function ProgramViews(rows: seq<Row>): (views: seq<ProgramView>)
    ensures |views| == |ProgramIds(rows)|
    ensures forall i, j :: 0 <= i < j < |views| ==> views[i].id < views[j].id
    ensures forall k :: k in ProgramIds(rows) <==> exists i :: 0 <= i < |views| && views[i].id == k
    ensures forall i :: 0 <= i < |views| ==> views[i].id in ProgramIds(rows) && views[i] == ViewOf(rows, views[i].id)
  {
    var ks := SortedKeys(ProgramIds(rows));
    var views := seq(|ks|, i requires 0 <= i < |ks| => ViewOf(rows, ks[i]));
    forall i | 0 <= i < |views|
      ensures views[i].id == ks[i] && ks[i] in ProgramIds(rows) && views[i] == ViewOf(rows, views[i].id)
    {
    }
    views
  }

  /** A later row never replaces the title or goal of a program already seen. */
  lemma {:induction false} FirstRowAppend(rows: seq<Row>, r: Row, k: Index)
    requires k in ProgramIds(rows + [r])
    ensures FirstRowOf(rows + [r], k) == if k in ProgramIds(rows) then FirstRowOf(rows, k) else r
  {
    ProgramIdsAppend(rows, r);
    if rows == [] {
      assert rows + [r] == [r];
    } else {
      var both := rows + [r];
      assert both[1..] == rows[1..] + [r];
      ProgramIdsCons(rows);
      ProgramIdsCons(both);
      if rows[0].programId != k {
        ProgramIdsAppend(rows[1..], r);
        FirstRowAppend(rows[1..], r, k);
      }
    }
  }

  /** A row appends at most one exercise, to its own program, at the end. */
  lemma {:induction false} ExercisesAppend(rows: seq<Row>, r: Row, k: Index)
    ensures ExercisesOf(rows + [r], k) ==
            ExercisesOf(rows, k) + (if r.programId == k && HasExercise(r) then [ToExercise(r)] else [])
  {
    if rows == [] {
      assert ExercisesOf([r][1..], k) == [];
      assert rows + [r] == [r];
    } else {
      assert (rows + [r])[1..] == rows[1..] + [r];
      ExercisesAppend(rows[1..], r, k);
    }
  }

  /** A program none of whose rows has a truthy exercise id gets an empty exercise list. */
  lemma {:induction false} NoExerciseRows(rows: seq<Row>, k: Index)
    requires forall j :: 0 <= j < |rows| && rows[j].programId == k ==> !HasExercise(rows[j])
    ensures ExercisesOf(rows, k) == []
  {
    if rows != [] {
      NoExerciseRows(rows[1..], k);
    }
  }

  /** The exercise entries of program `k` are exactly the field-by-field copies of
      the exercise columns of its rows with a truthy exercise id. */
  lemma {:induction false} ExerciseMembership(rows: seq<Row>, k: Index, e: ExerciseView)
    ensures e in ExercisesOf(rows, k) <==>
            exists j :: 0 <= j < |rows| && rows[j].programId == k && HasExercise(rows[j]) &&
                        var c := rows[j].exercise.value;
                        e == ExerciseView(c.exerciseId, c.name, c.reps, c.exerciseType)
  {
    if rows != [] {
      ExerciseMembership(rows[1..], k, e);
      if e in ExercisesOf(rows[1..], k) {
        var j :| 0 <= j < |rows[1..]| && rows[1..][j].programId == k && HasExercise(rows[1..][j]) &&
                 var c := rows[1..][j].exercise.value;
                 e == ExerciseView(c.exerciseId, c.name, c.reps, c.exerciseType);
        assert rows[j + 1] == rows[1..][j];
      }
      forall j | 1 <= j < |rows| && rows[j].programId == k && HasExercise(rows[j])
        ensures ToExercise(rows[j]) in ExercisesOf(rows[1..], k)
      {
        assert rows[1..][j - 1] == rows[j];
        ExerciseMembership(rows[1..], k, ToExercise(rows[j]));
      }
    }
  }

  /** One more row leaves the view of every other program already seen unchanged. */
  lemma ViewAppendOther(rows: seq<Row>, r: Row, k: Index)
    requires k in ProgramIds(rows) && k != r.programId
    ensures k in ProgramIds(rows + [r])
    ensures ViewOf(rows + [r], k) == ViewOf(rows, k)
  {
    ProgramIdsAppend(rows, r);
    FirstRowAppend(rows, r, k);
    ExercisesAppend(rows, r, k);
    assert ExercisesOf(rows, k) + [] == ExercisesOf(rows, k);
  }

  /** One more row changes the view of its own program: a new id gets a fresh
      view from this row, a known id keeps its title and goal, and either way
      the row's exercise, if any, goes at the end. */
  lemma ViewAppendOwn(rows: seq<Row>, r: Row)
    ensures r.programId in ProgramIds(rows + [r])
    ensures var k := r.programId;
            var base := if k in ProgramIds(rows) then ViewOf(rows, k) else ProgramView(k, r.title, r.goal, []);
            ViewOf(rows + [r], k) ==
              if HasExercise(r) then base.(exercises := base.exercises + [ToExercise(r)]) else base
  {
    var k := r.programId;
    ProgramIdsAppend(rows, r);
    FirstRowAppend(rows, r, k);
    ExercisesAppend(rows, r, k);
    if k !in ProgramIds(rows) {
      NoExerciseRows(rows, k);
    }
    if !HasExercise(r) {
      assert ExercisesOf(rows, k) + [] == ExercisesOf(rows, k);
    }
  }

  /** The dictionary holds exactly the views of the programs met in `seen`. */
  ghost predicate GroupedAs(grouped: map<Index, ProgramView>, seen: seq<Row>) {
    && grouped.Keys == ProgramIds(seen)
    && forall k :: k in grouped ==> grouped[k] == ViewOf(seen, k)
  }

  /** One iteration of the fold keeps the dictionary in step with the rows seen. */
  lemma GroupStep(seen: seq<Row>, row: Row, before: map<Index, ProgramView>, after: map<Index, ProgramView>)
    requires GroupedAs(before, seen)
    requires after.Keys == before.Keys + {row.programId}
    requires forall k :: k in before && k != row.programId ==> after[k] == before[k]
    requires var base := if row.programId in before then before[row.programId]
                         else ProgramView(row.programId, row.title, row.goal, []);
             after[row.programId] ==
               if HasExercise(row) then base.(exercises := base.exercises + [ToExercise(row)]) else base
    ensures GroupedAs(after, seen + [row])
  {
    ProgramIdsAppend(seen, row);
    ViewAppendOwn(seen, row);
    forall k | k in after && k != row.programId
      ensures after[k] == ViewOf(seen + [row], k)
    {
      ViewAppendOther(seen, row, k);
    }
  }

  /** A dictionary holding exactly the views of the programs in `rows` lists,
      through `Object.values`, as the response. */
  lemma ValuesOfGrouped(rows: seq<Row>, grouped: map<Index, ProgramView>)
    requires GroupedAs(grouped, rows)
    ensures ObjectValues(grouped) == ProgramViews(rows)
  {
  }

  /** The fold of `GET /programs`: a dictionary keyed by program id gets an entry
      on the first row of each id and one exercise per row with a truthy exercise
      id; its values, listed as `Object.values` lists them, are the response. */
  method GroupRows(rows: seq<Row>) returns (views: seq<ProgramView>)
    ensures views == ProgramViews(rows)
  {
    var grouped: map<Index, ProgramView> := map[];
    for i := 0 to |rows|
      invariant GroupedAs(grouped, rows[..i])
    {
      var row := rows[i];
      ghost var before := grouped;
      if row.programId !in grouped {
        grouped := grouped[row.programId := ProgramView(row.programId, row.title, row.goal, [])];
      }
      if HasExercise(row) {
        var entry := grouped[row.programId];
        grouped := grouped[row.programId := entry.(exercises := entry.exercises + [ToExercise(row)])];
      }
      GroupStep(rows[..i], row, before, grouped);
      assert rows[..i + 1] == rows[..i] + [row];
    }
    assert rows[..|rows|] == rows;
    views := ObjectValues(grouped);
    ValuesOfGrouped(rows, grouped);
  }

  // Counting: the response holds one exercise per row with a truthy exercise id.

  /** The number of rows with a truthy exercise id. */
  function CountExerciseRows(rows: seq<Row>): nat {
    if rows == [] then 0
    else (if HasExercise(rows[0]) then 1 else 0) + CountExerciseRows(rows[1..])
  }

  /** The number of exercise entries over all views. */
  function TotalExercises(views: seq<ProgramView>): nat {
    if views == [] then 0 else |views[0].exercises| + TotalExercises(views[1..])
  }

  /** The exercise entries the programs `ks` receive from `rows`. */
  function ExercisesOver(rows: seq<Row>, ks: seq<Index>): nat {
    if ks == [] then 0 else |ExercisesOf(rows, ks[0])| + ExercisesOver(rows, ks[1..])
  }

  /** The exercise entries the programs `ks` receive from the single row `r`. */
  function FromRowOver(r: Row, ks: seq<Index>): nat {
    if ks == [] then 0
    else (if ks[0] == r.programId && HasExercise(r) then 1 else 0) + FromRowOver(r, ks[1..])
  }

  predicate Distinct(ks: seq<Index>) {
    forall i, j :: 0 <= i < j < |ks| ==> ks[i] != ks[j]
  }

  lemma {:induction false} ExercisesOverCons(rows: seq<Row>, ks: seq<Index>)
    requires rows != []
    ensures ExercisesOver(rows, ks) == FromRowOver(rows[0], ks) + ExercisesOver(rows[1..], ks)
  {
    if ks != [] {
      ExercisesOverCons(rows, ks[1..]);
    }
  }

  /** Among distinct program ids, a row's exercise is counted for at most one: its own. */
  lemma {:induction false} FromRowOverOnce(r: Row, ks: seq<Index>)
    requires Distinct(ks)
    ensures FromRowOver(r, ks) == if r.programId in ks && HasExercise(r) then 1 else 0
  {
    if ks != [] {
      assert Distinct(ks[1..]);
      FromRowOverOnce(r, ks[1..]);
      if ks[0] == r.programId {
        assert r.programId !in ks[1..];
      }
    }
  }

  lemma {:induction false} ExercisesOverNoRows(ks: seq<Index>)
    ensures ExercisesOver([], ks) == 0
  {
    if ks != [] {
      ExercisesOverNoRows(ks[1..]);
    }
  }

  lemma {:induction false} ExercisesOverRows(rows: seq<Row>, ks: seq<Index>)
    requires Distinct(ks)
    requires forall j :: 0 <= j < |rows| ==> rows[j].programId in ks
    ensures ExercisesOver(rows, ks) == CountExerciseRows(rows)
  {
    if rows != [] {
      assert rows[0].programId in ks;
      ExercisesOverCons(rows, ks);
      FromRowOverOnce(rows[0], ks);
      assert forall j :: 0 <= j < |rows[1..]| ==> rows[1..][j] == rows[j + 1];
      ExercisesOverRows(rows[1..], ks);
    } else {
      ExercisesOverNoRows(ks);
    }
  }

  lemma {:induction false} TotalOfViews(rows: seq<Row>, views: seq<ProgramView>, ks: seq<Index>)
    requires |views| == |ks|
    requires forall i :: 0 <= i < |ks| ==> views[i].exercises == ExercisesOf(rows, ks[i])
    ensures TotalExercises(views) == ExercisesOver(rows, ks)
  {
    if ks != [] {
      TotalOfViews(rows, views[1..], ks[1..]);
    }
  }

  /** Every row with a truthy exercise id contributes exactly one exercise entry
      to the response, and no other row contributes any. */
  lemma {:induction false} ExerciseCountMatchesRows(rows: seq<Row>)
    ensures TotalExercises(ProgramViews(rows)) == CountExerciseRows(rows)
  {
    var ks := SortedKeys(ProgramIds(rows));
    TotalOfViews(rows, ProgramViews(rows), ks);
    forall j | 0 <= j < |rows| ensures rows[j].programId in ks {
      assert rows[j].programId in ProgramIds(rows);
    }
    ExercisesOverRows(rows, ks);
  }

  // Order: rows come `ORDER BY wp.id`, so first-seen order is ascending id order.

  /** The rows are ordered by program id. */
  predicate SortedById(rows: seq<Row>) {
    forall i, j :: 0 <= i < j < |rows| ==> rows[i].programId <= rows[j].programId
  }

  /** The program ids in the order the fold first meets them. */
  function FirstSeenIds(rows: seq<Row>): seq<Index> {
    if rows == [] then []
    else
      var seen := FirstSeenIds(rows[..|rows| - 1]);
      var k := rows[|rows| - 1].programId;
      if k in seen then seen else seen + [k]
  }

  lemma {:induction false} FirstSeenElements(rows: seq<Row>)
    ensures forall k :: k in FirstSeenIds(rows) <==> k in ProgramIds(rows)
  {
    if rows != [] {
      var init := rows[..|rows| - 1];
      assert init + [rows[|rows| - 1]] == rows;
      ProgramIdsAppend(init, rows[|rows| - 1]);
      FirstSeenElements(init);
    }
  }

  lemma {:induction false} FirstSeenAscending(rows: seq<Row>)
    requires SortedById(rows)
    ensures StrictlyAscending(FirstSeenIds(rows))
  {
    if rows != [] {
      var init := rows[..|rows| - 1];
      var k := rows[|rows| - 1].programId;
      FirstSeenAscending(init);
      FirstSeenElements(init);
      var seen := FirstSeenIds(init);
      forall x | x in seen ensures x <= k {
        var i :| 0 <= i < |init| && init[i].programId == x;
        assert rows[i] == init[i];
      }
      if k !in seen {
        var grown := seen + [k];
        forall i, j | 0 <= i < j < |grown| ensures grown[i] < grown[j] {
          if j == |seen| {
            assert grown[i] in seen;
          }
        }
      }
    }
  }

  /** For rows ordered by program id, the views come out in the order the fold
      first meets each id, so insertion order and ascending order coincide. */
  lemma SortedRowsKeepFirstSeenOrder(rows: seq<Row>)
    requires SortedById(rows)
    ensures |ProgramViews(rows)| == |FirstSeenIds(rows)|
    ensures forall i :: 0 <= i < |ProgramViews(rows)| ==> ProgramViews(rows)[i].id == FirstSeenIds(rows)[i]
  {
    FirstSeenAscending(rows);
    FirstSeenElements(rows);
    AscendingUnique(FirstSeenIds(rows), SortedKeys(ProgramIds(rows)));
  }
}
