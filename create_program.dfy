/** The create path of `POST /programs`: the shape check on the request body and
    the inserts it then issues, as an abstract list of commands. The store is not
    modelled: the id the program insert returns is a parameter. */
module CreateProgram {
  import opened JsValues

  /** An insert issued to the store, with its parameters. */
  datatype Command =
    | InsertProgram(title: JsValue, goal: JsValue)
    | InsertExercise(programId: int, name: JsValue, reps: JsValue, exerciseType: JsValue)

  /** How the handler ends: 400 on a bad shape, 500 when the insert loop throws,
      201 when every insert was issued. */
  datatype Outcome = InvalidInput | Failed | Created

  /** A field of the parsed request body; a missing field reads as undefined. */
  function Field(body: map<string, JsValue>, key: string): JsValue {
    if key in body then body[key] else Undefined
  }

  /** The shape check: a truthy title, a truthy goal and an array of exercises. */
  predicate ValidInput(title: JsValue, goal: JsValue, exercises: JsValue) {
    Truthy(title) && Truthy(goal) && exercises.Arr?
  }

  /** The exercise insert for element `ex`, read as `ex.name`, `ex.reps`, `ex.type`. */
  function ExerciseInsert(programId: int, ex: JsValue): (c: Command)
    requires !Nullish(ex)
    ensures c.InsertExercise? && c.programId == programId
    ensures c.name == (if ex.Obj? && "name" in ex.fields then ex.fields["name"] else Undefined)
    ensures c.reps == (if ex.Obj? && "reps" in ex.fields then ex.fields["reps"] else Undefined)
    ensures c.exerciseType == (if ex.Obj? && "type" in ex.fields then ex.fields["type"] else Undefined)
  {
    InsertExercise(programId, Member(ex, "name").value, Member(ex, "reps").value, Member(ex, "type").value)
  }

  /** Runs the create path on `body`, with `programId` the id the store returns
      for the program insert, and gives the inserts issued, in order. */
  method CreatePath(body: map<string, JsValue>, programId: int) returns (outcome: Outcome, issued: seq<Command>)
    ensures outcome.InvalidInput? <==> !ValidInput(Field(body, "title"), Field(body, "goal"), Field(body, "exercises"))
    ensures outcome.InvalidInput? ==> issued == []
    ensures !outcome.InvalidInput? ==>
              var exercises := Field(body, "exercises").items;
              && 1 <= |issued| <= |exercises| + 1
              && issued[0] == InsertProgram(Field(body, "title"), Field(body, "goal"))
              && (forall i :: 1 <= i < |issued| ==>
                    !Nullish(exercises[i - 1]) && issued[i] == ExerciseInsert(programId, exercises[i - 1]))
              && (outcome.Created? <==> |issued| == |exercises| + 1)
              && (outcome.Failed? ==> Nullish(exercises[|issued| - 1]))
    ensures outcome.Created? <==>
              && ValidInput(Field(body, "title"), Field(body, "goal"), Field(body, "exercises"))
              && forall i :: 0 <= i < |Field(body, "exercises").items| ==> !Nullish(Field(body, "exercises").items[i])
  {
    var title, goal, exercises := Field(body, "title"), Field(body, "goal"), Field(body, "exercises");
    if !Truthy(title) || !Truthy(goal) || !exercises.Arr? {
      return InvalidInput, [];
    }
    issued := [InsertProgram(title, goal)];
    var items := exercises.items;
    for i := 0 to |items|
      invariant |issued| == i + 1
      invariant forall j :: 0 <= j < i ==> !Nullish(items[j])
      invariant issued[0] == InsertProgram(title, goal)
      invariant forall j :: 1 <= j < |issued| ==>
                  !Nullish(items[j - 1]) && issued[j] == ExerciseInsert(programId, items[j - 1])
    {
      var ex := items[i];
      var name, reps, kind := Member(ex, "name"), Member(ex, "reps"), Member(ex, "type");
      if name.None? {
        // reading a property of null throws; the catch answers 500
        return Failed, issued;
      }
      assert ExerciseInsert(programId, ex) == InsertExercise(programId, name.value, reps.value, kind.value);
      issued := issued + [InsertExercise(programId, name.value, reps.value, kind.value)];
    }
    outcome := Created;
  }
}
