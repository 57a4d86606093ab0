/**
  The pure part of the workout log: the records, the staging form, and the
  three list computations the App component applies to its list of workouts
  (prepend a new record, replace records by id, filter records out by id).
  Ids come from `Date.now()` in the `handleSubmit` handler, so nothing here assumes
  that the ids of a list are distinct; the lemmas that need it say so.
 */
module WorkoutLog {

  datatype Option<T> = None | Some(value: T)

  /** One logged workout. Sets and reps stay strings, as the form produces them. */
  datatype Workout = Workout(id: int, date: string, exercise: string, sets: string, reps: string)

  /** The staging record behind the four form inputs. */
  datatype FormData = FormData(date: string, exercise: string, sets: string, reps: string)

  /** The names of the four form inputs, the only values `e.target.name` takes. */
  datatype Field = Date | Exercise | Sets | Reps

  /** The form with every field empty: the initial form and the form after a submit. */
  const BlankForm: FormData := FormData("", "", "", "")

  function FieldValue(f: FormData, field: Field): string {
    match field
    case Date => f.date
    case Exercise => f.exercise
    case Sets => f.sets
    case Reps => f.reps
  }

  /** `{ ...formData, [name]: value }`: the form with one field replaced. */
  function SetField(f: FormData, field: Field, value: string): (r: FormData)
    ensures FieldValue(r, field) == value
    ensures forall g :: g != field ==> FieldValue(r, g) == FieldValue(f, g)
  {
    match field
    case Date => f.(date := value)
    case Exercise => f.(exercise := value)
    case Sets => f.(sets := value)
    case Reps => f.(reps := value)
  }

  /** The four form fields of a record, as the edit handler copies them. */
  function FormOf(w: Workout): FormData {
    FormData(w.date, w.exercise, w.sets, w.reps)
  }

  /** The record made of a form and an id (`{ ...formData, id }`). */
  function WithId(f: FormData, id: int): (w: Workout)
    ensures w.id == id && FormOf(w) == f
  {
    Workout(id, f.date, f.exercise, f.sets, f.reps)
  }

  /** True when some record of `ws` carries `id`. */
  predicate HasId(ws: seq<Workout>, id: int) {
    exists w :: w in ws && w.id == id
  }

  /** No two positions of `ws` carry the same id. */
  predicate UniqueIds(ws: seq<Workout>) {
    forall i, j :: 0 <= i < j < |ws| ==> ws[i].id != ws[j].id
  }

  /** The ids of `ws`, position by position. */
  function Ids(ws: seq<Workout>): seq<int> {
    seq(|ws|, i requires 0 <= i < |ws| => ws[i].id)
  }

  /** Create mode: the new record, made of the form and a new id, goes in front. */
  function AddEntry(ws: seq<Workout>, newId: int, f: FormData): (r: seq<Workout>)
    ensures |r| == |ws| + 1
    ensures r[0].id == newId && FormOf(r[0]) == f
    ensures r[1..] == ws
  {
    [WithId(f, newId)] + ws
  }

  /** Edit mode: every record carrying `id` becomes the form under that id. */
  function UpdateById(ws: seq<Workout>, id: int, f: FormData): (r: seq<Workout>)
    ensures |r| == |ws|
    ensures forall i :: 0 <= i < |ws| && ws[i].id == id ==> r[i] == WithId(f, id)
    ensures forall i :: 0 <= i < |ws| && ws[i].id != id ==> r[i] == ws[i]
  {
    if ws == [] then []
    else [if ws[0].id == id then WithId(f, id) else ws[0]] + UpdateById(ws[1..], id, f)
  }

  /** Delete: the records whose id differs from `id`, in their order. */
  function DeleteById(ws: seq<Workout>, id: int): (r: seq<Workout>)
    ensures |r| <= |ws|
    ensures forall w :: w in r <==> w in ws && w.id != id
  {
    if ws == [] then []
    else if ws[0].id == id then DeleteById(ws[1..], id)
    else [ws[0]] + DeleteById(ws[1..], id)
  }

  // ---------------------------------------------------------------------------
  // The form

  /** Writing a field twice keeps only the second value. */
  lemma SetFieldOverwrites(f: FormData, field: Field, a: string, b: string)
    ensures SetField(SetField(f, field, a), field, b) == SetField(f, field, b)
  {
  }

  /** Writing two different fields gives the same form in either order. */
  lemma SetFieldCommutes(f: FormData, g1: Field, g2: Field, a: string, b: string)
    requires g1 != g2
    ensures SetField(SetField(f, g1, a), g2, b) == SetField(SetField(f, g2, b), g1, a)
  {
  }

  /** The form of a record together with its id gives back the record. */
  lemma RecordRoundTrip(w: Workout)
    ensures WithId(FormOf(w), w.id) == w
  {
  }

  // ---------------------------------------------------------------------------
  // Add

  /** A fresh id keeps the ids of the list distinct. */
  lemma AddEntryKeepsUniqueIds(ws: seq<Workout>, newId: int, f: FormData)
    requires UniqueIds(ws) && !HasId(ws, newId)
    ensures UniqueIds(AddEntry(ws, newId, f))
  {
  }

  /** Deleting the id a submit has just assigned undoes the submit when the id was fresh. */
  lemma {:induction false} AddThenDelete(ws: seq<Workout>, newId: int, f: FormData)
    ensures DeleteById(AddEntry(ws, newId, f), newId) == DeleteById(ws, newId)
    ensures !HasId(ws, newId) ==> DeleteById(AddEntry(ws, newId, f), newId) == ws
  {
    var r := AddEntry(ws, newId, f);
    assert r[1..] == ws;
    if !HasId(ws, newId) {
      DeleteAbsentIsIdentity(ws, newId);
    }
  }

  // ---------------------------------------------------------------------------
  // Update

  /** An id carried by no record leaves the list unchanged. */
  lemma UpdateAbsentIsIdentity(ws: seq<Workout>, id: int, f: FormData)
    requires !HasId(ws, id)
    ensures UpdateById(ws, id, f) == ws
  {
  }

  /** An update keeps the length and the id at every position. */
  lemma UpdateKeepsIds(ws: seq<Workout>, id: int, f: FormData)
    ensures Ids(UpdateById(ws, id, f)) == Ids(ws)
  {
  }

  /** Hence an update keeps the ids of the list distinct. */
  lemma UpdateKeepsUniqueIds(ws: seq<Workout>, id: int, f: FormData)
    requires UniqueIds(ws)
    ensures UniqueIds(UpdateById(ws, id, f))
  {
  }

  /**
    Entering edit mode on a record and submitting the form untouched leaves
    the list as it was, provided the ids are distinct.
   */
  lemma EditUnchangedIsIdentity(ws: seq<Workout>, w: Workout)
    requires UniqueIds(ws) && w in ws
    ensures UpdateById(ws, w.id, FormOf(w)) == ws
  {
    var r := UpdateById(ws, w.id, FormOf(w));
    var k :| 0 <= k < |ws| && ws[k] == w;
    forall i | 0 <= i < |ws| ensures r[i] == ws[i] {
      if ws[i].id == w.id {
        assert i == k;
        RecordRoundTrip(w);
      }
    }
  }

  /**
    Without distinct ids the previous lemma fails: when two different records
    share an id (two adds within the same millisecond), editing either one and
    submitting the form unchanged overwrites the other with it.
   */
  lemma SharedIdEditOverwritesBoth(ws: seq<Workout>, i: int, j: int)
    requires 0 <= i < |ws| && 0 <= j < |ws| && ws[i].id == ws[j].id && ws[i] != ws[j]
    ensures UpdateById(ws, ws[i].id, FormOf(ws[i]))[j] == ws[i]
    ensures UpdateById(ws, ws[i].id, FormOf(ws[i])) != ws
  {
    RecordRoundTrip(ws[i]);
  }

  // ---------------------------------------------------------------------------
  // Delete

  /** Deleting leaves the list unchanged exactly when no record carries the id. */
  lemma {:induction false} DeleteAbsentIsIdentity(ws: seq<Workout>, id: int)
    ensures DeleteById(ws, id) == ws <==> !HasId(ws, id)
  {
    if ws != [] {
      DeleteAbsentIsIdentity(ws[1..], id);
      assert ws == [ws[0]] + ws[1..];
      if ws[0].id == id {
        assert |DeleteById(ws, id)| < |ws|;
      } else {
        assert HasId(ws, id) <==> HasId(ws[1..], id) by {
          forall v | v in ws ensures v == ws[0] || v in ws[1..] { }
        }
      }
    }
  }

  /** The list shrinks exactly when some record carries the id. */
  lemma DeleteShrinksIffPresent(ws: seq<Workout>, id: int)
    ensures |DeleteById(ws, id)| < |ws| <==> HasId(ws, id)
  {
    DeleteAbsentIsIdentity(ws, id);
    var r := DeleteById(ws, id);
    if |r| == |ws| {
      DeleteSameLengthIsIdentity(ws, id);
    }
  }

  lemma {:induction false} DeleteSameLengthIsIdentity(ws: seq<Workout>, id: int)
    requires |DeleteById(ws, id)| == |ws|
    ensures DeleteById(ws, id) == ws
  {
    if ws != [] && ws[0].id != id {
      DeleteSameLengthIsIdentity(ws[1..], id);
      assert ws == [ws[0]] + ws[1..];
    }
  }

  /** Deleting twice is deleting once. */
  lemma DeleteIdempotent(ws: seq<Workout>, id: int)
    ensures DeleteById(DeleteById(ws, id), id) == DeleteById(ws, id)
  {
    DeleteAbsentIsIdentity(DeleteById(ws, id), id);
  }

  /** The positions of `s`, each moved one place to the right. */
  function Shift(s: seq<int>): seq<int>
  {
    seq(|s|, k requires 0 <= k < |s| => s[k] + 1)
  }

  lemma ShiftMembership(s: seq<int>, i: int)
    ensures i + 1 in Shift(s) <==> i in s
  {
    if i in s {
      var k :| 0 <= k < |s| && s[k] == i;
      assert Shift(s)[k] == i + 1;
    }
  }

  /** `r` is `ws` read at the strictly increasing positions `idx`. */
  ghost predicate ReadAt(ws: seq<Workout>, idx: seq<int>, r: seq<Workout>) {
    && |idx| == |r|
    && (forall k :: 0 <= k < |idx| ==> 0 <= idx[k] < |ws| && r[k] == ws[idx[k]])
    && (forall k, l :: 0 <= k < l < |idx| ==> idx[k] < idx[l])
  }

  /** `idx` holds exactly the positions of `ws` that do not carry `id`. */
  ghost predicate OtherPositions(ws: seq<Workout>, id: int, idx: seq<int>) {
    forall i :: 0 <= i < |ws| ==> (i in idx <==> ws[i].id != id)
  }

  /**
    The kept records are the records of `ws` whose id differs, in their
    original order: `idx` lists, increasing, exactly the positions of `ws`
    that do not carry `id`, and the result is `ws` read at those positions.
   */
  lemma {:induction false} DeleteKeepsOrder(ws: seq<Workout>, id: int) returns (idx: seq<int>)
    ensures ReadAt(ws, idx, DeleteById(ws, id))
    ensures OtherPositions(ws, id, idx)
  {
    if ws == [] {
      idx := [];
    } else {
      var tail := DeleteKeepsOrder(ws[1..], id);
      if ws[0].id == id {
        idx := Shift(tail);
        DropStep(ws, id, tail);
      } else {
        idx := [0] + Shift(tail);
        KeepStep(ws, id, tail);
      }
    }
  }

  lemma DropStep(ws: seq<Workout>, id: int, tail: seq<int>)
    requires ws != [] && ws[0].id == id
    requires ReadAt(ws[1..], tail, DeleteById(ws[1..], id)) && OtherPositions(ws[1..], id, tail)
    ensures ReadAt(ws, Shift(tail), DeleteById(ws, id)) && OtherPositions(ws, id, Shift(tail))
  {
    var idx := Shift(tail);
    forall i | 0 <= i < |ws| ensures i in idx <==> ws[i].id != id {
      if i > 0 {
        ShiftMembership(tail, i - 1);
      } else {
        assert forall k :: 0 <= k < |idx| ==> idx[k] > 0;
      }
    }
  }

  lemma KeepStep(ws: seq<Workout>, id: int, tail: seq<int>)
    requires ws != [] && ws[0].id != id
    requires ReadAt(ws[1..], tail, DeleteById(ws[1..], id)) && OtherPositions(ws[1..], id, tail)
    ensures ReadAt(ws, [0] + Shift(tail), DeleteById(ws, id)) && OtherPositions(ws, id, [0] + Shift(tail))
  {
    assert DeleteById(ws, id) == [ws[0]] + DeleteById(ws[1..], id);
    ConsReadAt(ws, tail, DeleteById(ws[1..], id));
    ConsPositions(ws, id, tail);
  }

  lemma ConsReadAt(ws: seq<Workout>, tail: seq<int>, rt: seq<Workout>)
    requires ws != [] && ReadAt(ws[1..], tail, rt)
    ensures ReadAt(ws, [0] + Shift(tail), [ws[0]] + rt)
  {
    var shifted := Shift(tail);
    var idx, r := [0] + shifted, [ws[0]] + rt;
    forall k | 0 <= k < |idx| ensures 0 <= idx[k] < |ws| && r[k] == ws[idx[k]] {
      if k > 0 {
        assert idx[k] == shifted[k - 1] && r[k] == rt[k - 1];
      }
    }
    forall k, l | 0 <= k < l < |idx| ensures idx[k] < idx[l] {
      assert idx[l] == shifted[l - 1];
      if k > 0 {
        assert idx[k] == shifted[k - 1];
      }
    }
  }

  lemma ConsPositions(ws: seq<Workout>, id: int, tail: seq<int>)
    requires ws != [] && ws[0].id != id && OtherPositions(ws[1..], id, tail)
    ensures OtherPositions(ws, id, [0] + Shift(tail))
  {
    var shifted := Shift(tail);
    var idx := [0] + shifted;
    forall i | 0 <= i < |ws| ensures i in idx <==> ws[i].id != id {
      if i > 0 {
        ShiftMembership(tail, i - 1);
        assert i in idx <==> i in shifted;
      }
    }
  }

  /** With distinct ids, deleting an id that is present removes exactly one record. */
  lemma {:induction false} DeleteUniqueRemovesOne(ws: seq<Workout>, id: int)
    requires UniqueIds(ws) && HasId(ws, id)
    ensures |DeleteById(ws, id)| == |ws| - 1
  {
    var tail := ws[1..];
    assert UniqueIds(tail) by {
      forall i, j | 0 <= i < j < |tail| ensures tail[i].id != tail[j].id {
        assert tail[i] == ws[i + 1] && tail[j] == ws[j + 1];
      }
    }
    if ws[0].id == id {
      assert !HasId(tail, id) by {
        forall v | v in tail ensures v.id != id {
          var j :| 0 <= j < |tail| && tail[j] == v;
          assert ws[j + 1] == v;
        }
      }
      DeleteAbsentIsIdentity(tail, id);
    } else {
      assert HasId(tail, id) by {
        var v :| v in ws && v.id == id;
        assert v != ws[0];
        assert ws == [ws[0]] + tail;
        assert v in tail;
      }
      DeleteUniqueRemovesOne(tail, id);
    }
  }

  /** Deleting keeps the ids of the list distinct. */
  lemma DeleteKeepsUniqueIds(ws: seq<Workout>, id: int)
    requires UniqueIds(ws)
    ensures UniqueIds(DeleteById(ws, id))
  {
    var r := DeleteById(ws, id);
    var idx := DeleteKeepsOrder(ws, id);
    forall k, l | 0 <= k < l < |r| ensures r[k].id != r[l].id {
      assert r[k] == ws[idx[k]] && r[l] == ws[idx[l]] && idx[k] < idx[l];
    }
  }

  /** Deleting an id after editing it is the same as deleting it straight away. */
  lemma {:induction false} DeleteAfterUpdate(ws: seq<Workout>, id: int, f: FormData)
    ensures DeleteById(UpdateById(ws, id, f), id) == DeleteById(ws, id)
  {
    if ws != [] {
      var r := UpdateById(ws, id, f);
      assert r[1..] == UpdateById(ws[1..], id, f);
      DeleteAfterUpdate(ws[1..], id, f);
    }
  }
}
