# Gym workout log: the App component's state machine

The gym tracker is a single React component, `App`, that keeps a log of workouts. Its state has four parts:

- `workouts`: the list of records, newest first.
- `formData`: the staging record behind the form's four inputs (date, exercise, sets, reps).
- `isEditing`: whether the form creates a new record or edits an existing one.
- `currentId`: the id of the record being edited, or `null`.

Four event handlers change that state:

- `handleChange` writes one form field.
- `handleEdit` enters edit mode on a record and copies the record into the form.
- `handleSubmit` works by mode. In create mode it prepends a new record, whose id is the clock reading. In edit mode it replaces every record that carries the target id. Either way it then returns to create mode with a blank form.
- `handleDelete` filters out the records that carry an id.

The model has two modules:

- `WorkoutLog` (`workout_log.dfy`) is the pure part. It holds the `Workout` and `FormData` records and the list computations `AddEntry`, `UpdateById` and `DeleteById`, which are the array spread, `map` and `filter` of the handlers. The lemmas about those computations are there too.
- `AppComponent` (`app.dfy`) holds the class `App`. Its four fields are the component's state. Its constructor is the first render. One method per handler assigns the fields, and says in its contract what the new state is.

The class invariant `Valid()` says that edit mode and a target id are set together. Every handler keeps it. `ExampleSession` replays a short session using only the handlers' contracts: add an entry, edit its reps, delete it.

Ids come from `Date.now()`. Two submits in the same millisecond therefore give two records the same id. The model never assumes ids are distinct. Each lemma that needs distinct ids says so with the `UniqueIds` predicate. `SharedIdEditOverwritesBoth` shows what happens otherwise: when two records share an id, editing one overwrites both.

The model follows the code as written:

- The records have no `weight` field.
- Ids are not guaranteed to be unique.
- Deleting an id removes every record that carries it. When ids are unique and the id is present, this is exactly one record (`DeleteUniqueRemovesOne`).

The create-mode record is written `{ id: Date.now(), ...formData }`. The form's spread comes after the id, yet the id survives, because the form never carries an `id` key. Its keys are only the four input names.

## Model

| member | source | states |
|---|---|---|
| WorkoutLog.SetField | src/App.js:28-30 | the named field takes the new value; every other field keeps its old value |
| WorkoutLog.WithId | src/App.js:38-39 | the record built from a form and an id carries that id, and its form fields are exactly the form |
| WorkoutLog.AddEntry | src/App.js:47-52 | the list grows by one; its head has the new id and the form's fields; its tail is the old list unchanged |
| WorkoutLog.UpdateById | src/App.js:36-41 | the length is kept; every record with the target id becomes the form under that id; every other record stays the same at its position |
| WorkoutLog.DeleteById | src/App.js:72-75 | the list never grows; a record is kept if and only if it was in the list and its id differs from the deleted id |
| WorkoutLog.SetFieldOverwrites | src/App.js:28-30 | writing the same field twice keeps only the second value |
| WorkoutLog.SetFieldCommutes | src/App.js:28-30 | writes to two different fields give the same form in either order |
| WorkoutLog.RecordRoundTrip | src/App.js:60-70 | copying a record into the form and putting its id back gives back the record |
| WorkoutLog.AddEntryKeepsUniqueIds | src/App.js:47-52 | adding with an id no record carries keeps the ids distinct |
| WorkoutLog.AddThenDelete | src/App.js:47-52 | deleting the id just assigned gives the same list as deleting it before the add; when that id was fresh, it gives back the old list |
| WorkoutLog.UpdateAbsentIsIdentity | src/App.js:38-40 | updating with an id that no record carries leaves the list unchanged |
| WorkoutLog.UpdateKeepsIds | src/App.js:38-40 | an update keeps the id at every position, so both the ids and the count are kept |
| WorkoutLog.UpdateKeepsUniqueIds | src/App.js:38-40 | an update keeps the ids distinct |
| WorkoutLog.EditUnchangedIsIdentity | src/App.js:36-41 | with distinct ids, editing a record and submitting the form unchanged leaves the list as it was |
| WorkoutLog.SharedIdEditOverwritesBoth | src/App.js:38-40 | when two different records share an id, editing one and submitting the form unchanged overwrites the other with it, so the list changes; the previous lemma therefore needs distinct ids |
| WorkoutLog.DeleteAbsentIsIdentity | src/App.js:72-75 | deleting leaves the list unchanged if and only if no record carries the id |
| WorkoutLog.DeleteShrinksIffPresent | src/App.js:72-75 | the list gets shorter if and only if some record carries the id |
| WorkoutLog.DeleteSameLengthIsIdentity | src/App.js:72-75 | a delete that keeps the length keeps the list |
| WorkoutLog.DeleteIdempotent | src/App.js:72-75 | deleting twice is the same as deleting once |
| WorkoutLog.DeleteKeepsOrder | src/App.js:72-75 | the result is the old list read at a strictly increasing list of positions, and those positions are exactly the ones whose id differs |
| WorkoutLog.DeleteUniqueRemovesOne | src/App.js:72-75 | with distinct ids, deleting an id that is present removes exactly one record |
| WorkoutLog.DeleteKeepsUniqueIds | src/App.js:72-75 | deleting keeps the ids distinct |
| WorkoutLog.DeleteAfterUpdate | src/App.js:36-41 | deleting an id after editing it gives the same list as deleting it straight away |
| AppComponent.App.constructor | src/App.js:6-21 | with no saved list the log starts empty, otherwise it is the saved list; the form is blank; the mode is create, with no target id |
| AppComponent.App.HandleChange | src/App.js:28-30 | the form becomes the old form with one field written; the list, the mode and the target id are unchanged |
| AppComponent.App.HandleSubmit | src/App.js:33-57 | in edit mode the list becomes the old list updated by the target id; in create mode it becomes the old list with the new record added; afterwards the mode is create, there is no target id and the form is blank; the invariant is kept |
| AppComponent.App.HandleEdit | src/App.js:60-70 | the mode becomes edit, the target id becomes the record's id, and the form holds the record's four fields (`FormOf`, the object literal at lines 64-69); the list is unchanged |
| AppComponent.App.HandleDelete | src/App.js:72-75 | the list becomes the old list with every record of that id deleted; the form, the mode and the target id are unchanged |

## Left out

- Rendering (the form and table markup, and the button label that depends on `isEditing`): it is UI, and nothing in it changes state.
- Reading and writing `localStorage`, with `JSON.parse` and `JSON.stringify` (the initial load and the effect that saves the list after every change): these are browser I/O and a serialisation library. The constructor takes the already-parsed saved list as an `Option`. `None` covers both a missing slot and an empty one, since `''` is falsy in the source. A slot that fails to parse makes the source throw, and that case is not modelled.
- `Date.now()`: a clock read. It becomes the `newId` parameter of `HandleSubmit`. No assumption is made about that parameter.
- React's scheduling: batched `setState` and the timing of `useEffect`. Each handler is modelled as one atomic transition.
- `e.preventDefault()` stops the browser's default submit, which would reload the page. The model has no page reload, so nothing is lost.
- The HTML `required` and `type="number"` checks: the browser enforces these, not the code. The values stay strings.
- AppComponent.App.HandleChange: the field name is limited to the four input names the form renders. The source would accept any `e.target.name` and add it as a new key.
