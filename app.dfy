/**
  The App component's state and its four event handlers. Each handler is one
  atomic transition of the four state variables; the list computations are
  those of module WorkoutLog.
 */
module AppComponent {
  import opened WorkoutLog

  class App {
    var workouts: seq<Workout>
    var formData: FormData
    var isEditing: bool
    /** The id of the record being edited; `None` stands for `null`. */
    var currentId: Option<int>

    /** Edit mode and a target id go together: both set or both cleared. */
    ghost predicate Valid()
      reads this
    {
      isEditing <==> currentId.Some?
    }

    /**
      The first render: the saved list when there is one (`None` when the
      storage slot is absent or empty), a blank form, and create mode.
     */
    constructor (saved: Option<seq<Workout>>)
      ensures Valid()
      ensures saved == None ==> workouts == []
      ensures saved.Some? ==> workouts == saved.value
      ensures formData == BlankForm && !isEditing && currentId == None
    {
      workouts := if saved.Some? then saved.value else [];
      formData := BlankForm;
      isEditing := false;
      currentId := None;
    }

    /** `handleChange`: one form input changed. */
    method HandleChange(field: Field, value: string)
      requires Valid()
      modifies this
      ensures Valid()
      ensures formData == SetField(old(formData), field, value)
      ensures workouts == old(workouts) && isEditing == old(isEditing) && currentId == old(currentId)
    {
      formData := SetField(formData, field, value);
    }

    /**
      `handleSubmit`: in edit mode every record carrying the target id takes
      the form's fields, otherwise a new record with id `newId` (the clock
      reading) is prepended; either way the component returns to create mode
      with a blank form.
     */
    method HandleSubmit(newId: int)
      requires Valid()
      modifies this
      ensures Valid()
      ensures old(isEditing) ==> workouts == UpdateById(old(workouts), old(currentId).value, old(formData))
      ensures !old(isEditing) ==> workouts == AddEntry(old(workouts), newId, old(formData))
      ensures !isEditing && currentId == None && formData == BlankForm
    {
      if isEditing {
        workouts := UpdateById(workouts, currentId.value, formData);
        isEditing := false;
        currentId := None;
      } else {
        workouts := AddEntry(workouts, newId, formData);
      }
      formData := BlankForm;
    }

    /** `handleEdit`: enter edit mode on `w` and copy its fields into the form. */
    method HandleEdit(w: Workout)
      modifies this
      ensures Valid()
      ensures isEditing && currentId == Some(w.id) && formData == FormOf(w)
      ensures workouts == old(workouts)
    {
      isEditing := true;
      currentId := Some(w.id);
      formData := FormOf(w);
    }

    /** `handleDelete`: drop every record carrying `id`. */
    method HandleDelete(id: int)
      requires Valid()
      modifies this
      ensures Valid()
      ensures workouts == DeleteById(old(workouts), id)
      ensures formData == old(formData) && isEditing == old(isEditing) && currentId == old(currentId)
    {
      workouts := DeleteById(workouts, id);
    }
  }

  /**
    A session from an empty log: add one squat entry, edit its reps, then
    delete it. Only the handlers' contracts are used.
   */
  method ExampleSession()
  {
    var app := new App(None);
    assert app.workouts == [];
    app.HandleChange(Date, "2024-01-01");
    app.HandleChange(Exercise, "Squat");
    app.HandleChange(Sets, "5");
    app.HandleChange(Reps, "5");
    var squat := FormData("2024-01-01", "Squat", "5", "5");
    assert FieldValue(app.formData, Date) == "2024-01-01";
    assert app.formData == squat;

    app.HandleSubmit(1000);
    assert app.workouts == [WithId(squat, 1000)];
    assert !app.isEditing && app.formData == BlankForm;

    var entry := app.workouts[0];
    app.HandleEdit(entry);
    assert app.formData == squat;
    app.HandleChange(Reps, "3");
    app.HandleSubmit(2000);
    assert |app.workouts| == 1;
    assert app.workouts[0] == Workout(1000, "2024-01-01", "Squat", "5", "3");

    app.HandleDelete(1000);
    assert app.workouts == [];
  }
}
