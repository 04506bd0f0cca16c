# MentzerTrack programs backend — model of the program/exercise aggregate

This project models, in Dafny, the logic of the workout-program backend in `index.js`:

- the read side of `GET /programs`: the rows of a left outer join of
  `workout_programs` with `exercises`, ordered by program id, are folded into a
  dictionary keyed by program id, and the dictionary's values, in
  `Object.values` order, form the response — one view per program with its
  exercises inlined (module `ListPrograms`, file `list_programs.dfy`);
- the create side of `POST /programs`: the shape check on the request body and
  the inserts issued after it, one program insert followed by one exercise insert
  per element of `exercises`, as an abstract command list (module
  `CreateProgram`, file `create_program.dfy`);
- the JavaScript semantics these depend on: truthiness, property reads that
  throw on `null`, and the ascending order in which `Object.values` lists an
  object whose keys are array indices (modules `JsValues` and `ObjectKeys`).

The fold is a method, `ListPrograms.GroupRows`, that updates a `map` in a loop
exactly as the handler updates `grouped`; it is proved equal to a declarative
reference, `ListPrograms.ProgramViews`, which builds each program's view from
its first row (title, goal) and from a filter of its rows (exercises). The
lemmas state what the response means: one view per distinct program id and none
for an absent one, ascending ids, first row wins, an outer join's null row adds
no exercise, each exercise row lands in its own program's list, in row order,
copied field by field, and the total number of exercise entries equals the
number of rows with a truthy exercise id.

Three behaviours of the code that the model keeps as they are:

- The response order comes from the key order of `Object.values`, which lists
  array-index keys ascending, not from the order in which the dictionary's
  entries were created. `SortedKeys` models that order, and
  `SortedRowsKeepFirstSeenOrder` shows that the two orders agree on rows ordered
  by program id, which the query's `ORDER BY wp.id` provides.
- The input check only tests the truthiness of `title` and `goal` and
  `Array.isArray(exercises)`. Titles and goals need not be strings, the
  elements of `exercises` are not checked, and a `null` element makes the
  insert loop throw after the program insert.
- The code leaves atomicity to the store's transaction. Its error path issues
  no `ROLLBACK` and never releases the connection, so the client leaks with its
  transaction open. The model claims neither atomicity nor release.

Program ids are modelled as array indices (`ObjectKeys.Index`, below
2^32 - 1), the only keys `Object.values` lists in ascending numeric order.

## Model

| member | source | states |
|---|---|---|
| `JsValues.Member` | index.js:87-90 | reading `ex.name` (and `reps`, `type`) throws exactly when the element is `null` or `undefined`; otherwise it reads the object's own property, or `undefined` when the value is not an object or lacks the key |
| `ObjectKeys.SortedKeys` | index.js:61 | `Object.values` visits every key of the dictionary exactly once, in strictly ascending order |
| `ObjectKeys.AscendingUnique` | index.js:61 | the ascending listing of a key set is unique: two strictly ascending sequences with the same elements are equal |
| `ListPrograms.FirstRowOf` | index.js:42-48 | the row a view takes its title and goal from is the first row with that program id: no earlier row has that id |
| `ListPrograms.ProgramViews` | index.js:40-61 | the response has one view per distinct program id of the rows, none for an id absent from them, in strictly ascending id order, and each view is that program's reference view `ViewOf` (first row's title and goal, its exercise rows in order) |
| `ListPrograms.FirstRowAppend` | index.js:42-48 | a later row never overwrites a program already seen; the first row of a new id creates its entry |
| `ListPrograms.ExercisesAppend` | index.js:51-58 | a row appends at most one exercise, only to its own program's list and at its end, and only when its exercise id is truthy |
| `ListPrograms.NoExerciseRows` | index.js:47-51 | a program none of whose rows has a truthy exercise id (the outer join's null row) ends with an empty exercise list |
| `ListPrograms.ExerciseMembership` | index.js:51-57 | an exercise entry of program k is exactly `{id: exercise_id, name: exercise_name, reps, type}` of some row of k with a truthy exercise id, with no program id field |
| `ListPrograms.ViewAppendOwn` | index.js:42-58 | one loop iteration on a row's own program: a new id gets a fresh view from this row with an empty list, a known id keeps its title and goal, and the row's exercise, if any, is appended |
| `ListPrograms.ViewAppendOther` | index.js:41-58 | one loop iteration leaves the view of every other program already seen unchanged |
| `ListPrograms.GroupStep` | index.js:41-59 | each iteration keeps the dictionary holding exactly the views of the programs met so far |
| `ListPrograms.GroupRows` | index.js:40-61 | the dictionary fold followed by `Object.values` returns exactly the reference response `ProgramViews` |
| `ListPrograms.ExerciseCountMatchesRows` | index.js:41-58 | the total number of exercise entries in the response equals the number of rows with a truthy exercise id |
| `ListPrograms.FirstSeenElements` | index.js:42-48 | the ids the fold creates entries for are exactly the program ids of the rows |
| `ListPrograms.FirstSeenAscending` | index.js:37 | on rows ordered by program id, the order in which the fold first meets ids is strictly ascending |
| `ListPrograms.SortedRowsKeepFirstSeenOrder` | index.js:37-61 | on rows ordered by program id, the response lists programs in the order the fold first met them |
| `CreateProgram.ExerciseInsert` | index.js:86-90 | an exercise insert carries the program id returned by the program insert and the element's `name`, `reps` and `type`, each `undefined` when the element is not an object or lacks that key |
| `CreateProgram.CreatePath` | index.js:70-91 | the body is rejected, with no insert issued, exactly when `title` or `goal` is falsy or `exercises` is not an array; otherwise the program insert comes first, then one exercise insert per element in input order, all with the returned id; the path completes exactly when no element is `null` or `undefined`, and otherwise stops at the first such element |

## Left out

- Express setup, CORS, JSON body parsing, route registration, `app.listen` and the mapping of outcomes to HTTP status codes and JSON bodies: framework plumbing with no logic of its own. The request body is taken as a map of its fields (an array body reads `undefined` for every field, as an empty map does).
- The `pg` pool, its SSL flag, SQL execution, the join query itself and `BEGIN`/`COMMIT`: I/O. The rows of the join are an input of the read side, and the id the program insert returns is an input of the create side.
- Store failures: a query that throws ends the handler with 500; the model's command list is the sequence of inserts issued when the store answers each of them.
- Transactional atomicity and connection release: the code's error path issues no rollback and never releases the connection, so the model claims neither all-or-nothing creation nor release on all paths.
- Program deletion, adding a single exercise, user registration and login, password hashing and token checks: none of these exist in `index.js`.
- Concurrency between requests: it is the store's concern and is not expressed in the code.
- JavaScript property reads of built-in prototype properties (`length` of a string or array, for example): the handlers only read `title`, `goal`, `exercises`, `name`, `reps` and `type`, which no prototype of a value JSON can produce defines.
- A create followed by a list: the join orders rows by program id only, so the order of one program's exercises in the response is whatever order the store returns their rows in; relating it to the order of the exercise inserts would be a property of the store, which is not modelled.
- Negative program ids and program ids of 2^32 - 1 and above: such keys are not array indices, and `Object.values` would list them after all array-index ids, in insertion order. The model assumes the store's ids are array indices (positive ids from a 32-bit serial column are); `index.js` itself does not state the column type.
- Number values are reals; floating-point rounding is not modelled.
