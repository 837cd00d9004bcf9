/**
  CourseImportService: upsert of courses by name from the rows of a worksheet.
  The first used row is a header. Each later row gives a name (column 1) and
  an info text (column 2), both trimmed; a row whose name trims to nothing is
  skipped. A name that some course in the database already has updates that
  course's info; any other name adds a new course. The lookup reads the
  database as it was before the import, since the changes are saved once at
  the end: a new name that the file repeats is added once per row.
*/
module CourseImport {
  import opened Wrappers
  import opened Seqs
  import opened Text
  import opened Domain
  import opened Store
  import opened Workbook

  /** The two cells of a data row the import reads, each trimmed. */
  datatype Entry = Entry(name: string, info: string)

  /** Reads a data row: column 1 is the name, column 2 the info. */
  function ParseRow(row: Row): (e: Entry)
    ensures IsTrimmed(e.name) && IsTrimmed(e.info)
  {
    Entry(Trim(Cell(row, 1)), Trim(Cell(row, 2)))
  }

  /** The entries of the data rows, one per row, in order. */
  function Entries(rows: seq<Row>): (es: seq<Entry>)
    ensures |es| == |rows|
    ensures forall i :: 0 <= i < |rows| ==> es[i] == ParseRow(rows[i])
    decreases |rows|
  {
    if rows == [] then [] else [ParseRow(rows[0])] + Entries(rows[1..])
  }

  /** Position of the first saved course with this name (Courses.FirstOrDefault by Name). */
  function NameIndex(saved: seq<Course>, name: string): Option<nat>
  {
    IndexOf(saved, (c: Course) => c.name == name)
  }

  /** Whether an entry adds a new course: its name is not blank and no saved course has it. */
  predicate AddsCourse(saved: seq<Course>, e: Entry)
  {
    e.name != "" && NameIndex(saved, e.name).None?
  }

  /** Whether an entry updates the saved course at position `i`: its name is
      not blank and `i` is the first saved course with that name. */
  predicate UpdatesCourse(saved: seq<Course>, e: Entry, i: nat)
  {
    e.name != "" && NameIndex(saved, e.name) == Some(i)
  }

  /** One iteration of the row loop; `current` is the saved courses with the
      effect of the earlier rows, new courses appended after them. */
  function ImportEntry(saved: seq<Course>, current: seq<Course>, id: int, e: Entry): (r: seq<Course>)
    requires |saved| <= |current|
    ensures |r| == |current| + (if AddsCourse(saved, e) then 1 else 0)
    ensures forall i :: 0 <= i < |current| && UpdatesCourse(saved, e, i) ==> r[i] == current[i].(info := Some(e.info))
    ensures forall i :: 0 <= i < |current| && !UpdatesCourse(saved, e, i) ==> r[i] == current[i]
    ensures AddsCourse(saved, e) ==> r[|current|] == Course(id, e.name, Some(e.info))
  {
    if e.name == "" then current
    else match NameIndex(saved, e.name)
      case None => current + [Course(id, e.name, Some(e.info))]
      case Some(k) => current[k := current[k].(info := Some(e.info))]
  }

  /** The courses after importing `entries` into `saved`, with new keys drawn
      from `next` on. Saved courses keep their position, key and name. */
  function Imported(saved: seq<Course>, next: int, entries: seq<Entry>): (r: seq<Course>)
    ensures |saved| <= |r|
    ensures forall i :: 0 <= i < |saved| ==> r[i].id == saved[i].id && r[i].name == saved[i].name
    decreases |entries|
  {
    if entries == [] then saved
    else
      var before := Imported(saved, next, entries[..|entries| - 1]);
      ImportEntry(saved, before, next + |before| - |saved|, entries[|entries| - 1])
  }

  /** The courses an import adds carry consecutive fresh keys, and
      non-blank names that no saved course has, each taken from an entry. */
  lemma {:induction false} ImportedNewCourses(saved: seq<Course>, next: int, entries: seq<Entry>, j: nat)
    requires |saved| <= j < |Imported(saved, next, entries)|
    ensures var c := Imported(saved, next, entries)[j];
            && c.id == next + (j - |saved|)
            && c.name != ""
            && NameIndex(saved, c.name).None?
            && exists k :: 0 <= k < |entries| && entries[k].name == c.name
    decreases |entries|
  {
    var n := |entries| - 1;
    var before := Imported(saved, next, entries[..n]);
    var r := Imported(saved, next, entries);
    assert r == ImportEntry(saved, before, next + |before| - |saved|, entries[n]);
    if j < |before| {
      ImportedNewCourses(saved, next, entries[..n], j);
      var k :| 0 <= k < n && entries[..n][k].name == before[j].name;
      assert entries[k].name == r[j].name;
    } else {
      assert entries[n].name == r[j].name;
    }
  }

  /** A saved course whose name no entry carries comes out unchanged. */
  lemma {:induction false} ImportedUntouched(saved: seq<Course>, next: int, entries: seq<Entry>, i: nat)
    requires i < |saved|
    requires forall j :: 0 <= j < |entries| ==> entries[j].name != saved[i].name
    ensures Imported(saved, next, entries)[i] == saved[i]
    decreases |entries|
  {
    if entries != [] {
      ImportedUntouched(saved, next, entries[..|entries| - 1], i);
      var name := entries[|entries| - 1].name;
      if name != "" && NameIndex(saved, name).Some? {
        assert NameIndex(saved, name).value != i;
      }
    }
  }

  /** A saved course that is the first with its name ends up with the info of
      the last entry carrying that name. */
  lemma {:induction false} ImportedUpdatesInfo(saved: seq<Course>, next: int, entries: seq<Entry>, i: nat, k: nat)
    requires i < |saved| && saved[i].name != "" && NameIndex(saved, saved[i].name) == Some(i)
    requires k < |entries| && entries[k].name == saved[i].name
    requires forall j :: k < j < |entries| ==> entries[j].name != saved[i].name
    ensures Imported(saved, next, entries)[i] == saved[i].(info := Some(entries[k].info))
    decreases |entries|
  {
    var n := |entries| - 1;
    var before := Imported(saved, next, entries[..n]);
    assert UpdatesCourse(saved, entries[k], i);
    if k < n {
      ImportedUpdatesInfo(saved, next, entries[..n], i, k);
    } else {
      assert before[i].id == saved[i].id && before[i].name == saved[i].name;
    }
  }

  /** A saved course that is not the first with its name (or whose name is
      blank) is never matched by an entry and comes out unchanged. */
  lemma {:induction false} ImportedKeepsShadowed(saved: seq<Course>, next: int, entries: seq<Entry>, i: nat)
    requires i < |saved|
    requires saved[i].name == "" || NameIndex(saved, saved[i].name) != Some(i)
    ensures Imported(saved, next, entries)[i] == saved[i]
    decreases |entries|
  {
    if entries != [] {
      var n := |entries| - 1;
      ImportedKeepsShadowed(saved, next, entries[..n], i);
    }
  }

  /** The import adds exactly one course per entry that names a course the
      database does not have, repeated names included. */
  lemma {:induction false} ImportedCount(saved: seq<Course>, next: int, entries: seq<Entry>)
    ensures |Imported(saved, next, entries)| == |saved| + |Filter(entries, (e: Entry) => AddsCourse(saved, e))|
    decreases |entries|
  {
    if entries != [] {
      ImportedCount(saved, next, entries[..|entries| - 1]);
      FilterSnoc(entries, (e: Entry) => AddsCourse(saved, e));
    }
  }

  /** Entries that all repeat one new name add one course per entry, every
      one carrying that name. */
  lemma RepeatedNewNameAddedPerRow(saved: seq<Course>, next: int, entries: seq<Entry>, name: string)
    requires name != "" && NameIndex(saved, name).None?
    requires forall j :: 0 <= j < |entries| ==> entries[j].name == name
    ensures |Imported(saved, next, entries)| == |saved| + |entries|
    ensures forall j :: |saved| <= j < |saved| + |entries| ==> Imported(saved, next, entries)[j].name == name
  {
    FilterKeepsAll(entries, (e: Entry) => AddsCourse(saved, e));
    ImportedCount(saved, next, entries);
    forall j | |saved| <= j < |saved| + |entries|
      ensures Imported(saved, next, entries)[j].name == name
    {
      ImportedNewCourses(saved, next, entries, j);
    }
  }

  /** Every non-blank name of the file is the name of some course after the
      import: either a course that already had it or one the import added. */
  lemma {:induction false} ImportedHasEveryName(saved: seq<Course>, next: int, entries: seq<Entry>, k: nat)
    requires k < |entries| && entries[k].name != ""
    ensures exists i :: 0 <= i < |Imported(saved, next, entries)| && Imported(saved, next, entries)[i].name == entries[k].name
    decreases |entries|
  {
    var n := |entries| - 1;
    var before := Imported(saved, next, entries[..n]);
    var r := Imported(saved, next, entries);
    assert r == ImportEntry(saved, before, next + |before| - |saved|, entries[n]);
    if k < n {
      ImportedHasEveryName(saved, next, entries[..n], k);
      var i :| 0 <= i < |before| && before[i].name == entries[..n][k].name;
      assert r[i].name == entries[k].name;
    } else if AddsCourse(saved, entries[n]) {
      assert r[|before|].name == entries[k].name;
    } else {
      var j := NameIndex(saved, entries[n].name).value;
      assert r[j].name == entries[k].name;
    }
  }

  /** Importing the first `i + 1` entries is importing the first `i`, then entry `i`. */
  lemma ImportedStep(saved: seq<Course>, next: int, entries: seq<Entry>, i: nat, before: seq<Course>, id: int)
    requires i < |entries|
    requires before == Imported(saved, next, entries[..i]) && id == next + |before| - |saved|
    ensures Imported(saved, next, entries[..i + 1]) == ImportEntry(saved, before, id, entries[i])
  {
    assert entries[..i + 1][..i] == entries[..i];
  }

  /** The body of the row loop for one trimmed (name, info) pair: a blank
      name is skipped, a name some saved course has updates the first such
      course's info, any other name adds a course. */
  method ApplyEntry(db: LearningMvcContext, saved: seq<Course>, name: string, info: string)
    requires db.Valid()
    requires |saved| <= |db.courses|
    modifies db`courses, db`nextId
    ensures db.Valid()
    ensures db.courses == ImportEntry(saved, old(db.courses), old(db.nextId), Entry(name, info))
    ensures db.nextId == old(db.nextId) + (|db.courses| - |old(db.courses)|)
  {
    if name == "" {
      return;
    }
    var existing := IndexOf(saved, (c: Course) => c.name == name);
    if existing.None? {
      var _ := db.AddCourse(name, Some(info));
    } else {
      var k := existing.value;
      db.UpdateCourse(k, db.courses[k].(info := Some(info)));
    }
  }

  /** ImportFromStreamAsync: an unreadable stream is refused before anything
      changes; otherwise every data row of the first worksheet is applied in
      order and the result is saved. */
  method ImportFromStream(db: LearningMvcContext, readable: bool, sheet: Sheet) returns (o: Outcome)
    requires db.Valid()
    modifies db`courses, db`nextId
    ensures db.Valid()
    ensures !readable ==> o == Failed && db.courses == old(db.courses) && db.nextId == old(db.nextId)
    ensures readable ==>
      && o == Done
      && db.courses == Imported(old(db.courses), old(db.nextId), Entries(DataRows(sheet)))
      && db.nextId == old(db.nextId) + (|db.courses| - |old(db.courses)|)
  {
    if !readable {
      // ArgumentException: the stream is not readable
      return Failed;
    }
    var saved := db.courses;
    var next := db.nextId;
    var rows := DataRows(sheet);
    ghost var entries := Entries(rows);
    var i := 0;
    assert entries[..0] == [];
    while i < |rows|
      invariant 0 <= i <= |rows|
      invariant db.Valid()
      invariant db.courses == Imported(saved, next, entries[..i])
      invariant db.nextId == next + (|db.courses| - |saved|)
    {
      ImportedStep(saved, next, entries, i, db.courses, db.nextId);
      var name := Trim(Cell(rows[i], 1));
      var info := Trim(Cell(rows[i], 2));
      assert entries[i] == Entry(name, info);
      ApplyEntry(db, saved, name, info);
      i := i + 1;
    }
    assert entries[..i] == entries;
    o := Done;
  }
}
