/**
  CourseExportService: writes the course table to a worksheet, a header row
  ("Name", "Info") followed by one row per course in table order; and the
  round trip of such a worksheet back through the import.
*/
module CourseExport {
  import opened Wrappers
  import opened Seqs
  import opened Text
  import opened Domain
  import opened Store
  import opened Workbook
  import opened CourseImport

  const Header: Row := ["Name", "Info"]

  /** The text a course's info is written as; a missing info is an empty cell. */
  function InfoText(info: Option<string>): string
  {
    match info
    case None => ""
    case Some(t) => t
  }

  /** The data rows of the export: course i goes to the i-th row after the
      header, its name in column 1 and its info in column 2. */
  function ExportRows(courses: seq<Course>): (rows: Sheet)
    ensures |rows| == |courses|
    ensures forall i :: 0 <= i < |courses| ==> rows[i] == [courses[i].name, InfoText(courses[i].info)]
    decreases |courses|
  {
    if courses == [] then []
    else [[courses[0].name, InfoText(courses[0].info)]] + ExportRows(courses[1..])
  }

  /** The worksheet the export writes. */
  function ExportSheet(courses: seq<Course>): Sheet
  {
    [Header] + ExportRows(courses)
  }

  /** WriteToAsync: the header, then one row per course with no gaps. */
  method WriteTo(db: LearningMvcContext) returns (sheet: Sheet)
    ensures sheet == ExportSheet(db.courses)
    ensures |sheet| == |db.courses| + 1 && sheet[0] == Header
    ensures forall i :: 0 <= i < |db.courses| ==>
              Cell(sheet[i + 1], 1) == db.courses[i].name && Cell(sheet[i + 1], 2) == InfoText(db.courses[i].info)
  {
    var courses := db.courses;
    sheet := [Header];
    var rows: Sheet := [];
    for i := 0 to |courses|
      invariant sheet == [Header] + rows
      invariant |rows| == i
      invariant forall j :: 0 <= j < i ==> rows[j] == [courses[j].name, InfoText(courses[j].info)]
    {
      var row := [courses[i].name, InfoText(courses[i].info)];
      rows := rows + [row];
      sheet := sheet + [row];
    }
    assert rows == ExportRows(courses);
  }

  /** Every course name is non-blank text with no white space at its ends,
      as the [Required] check and the import's trimming leave it. */
  ghost predicate CleanNames(courses: seq<Course>)
  {
    forall i :: 0 <= i < |courses| ==> courses[i].name != "" && IsTrimmed(courses[i].name)
  }

  /** No two courses share a name. */
  ghost predicate DistinctNames(courses: seq<Course>)
  {
    forall i, j :: 0 <= i < j < |courses| ==> courses[i].name != courses[j].name
  }

  /** With clean names, the import reads back exactly the export's data rows:
      the header is the only row skipped, and course i becomes entry i with
      its own name and its trimmed info. */
  lemma ExportedEntries(courses: seq<Course>)
    requires CleanNames(courses)
    ensures var es := Entries(DataRows(ExportSheet(courses)));
            |es| == |courses|
            && forall i :: 0 <= i < |courses| ==> es[i] == Entry(courses[i].name, Trim(InfoText(courses[i].info)))
  {
    var sheet := ExportSheet(courses);
    var rows := ExportRows(courses);
    forall i | 0 <= i < |sheet| ensures RowUsed(sheet[i]) {
      if i == 0 {
        assert sheet[0][0] != "";
      } else {
        assert sheet[i] == rows[i - 1];
        assert rows[i - 1][0] == courses[i - 1].name;
      }
    }
    FilterKeepsAll(sheet, RowUsed);
    assert DataRows(sheet) == rows;
    forall i | 0 <= i < |courses|
      ensures ParseRow(rows[i]) == Entry(courses[i].name, Trim(InfoText(courses[i].info)))
    {
      TrimmedIsFixed(courses[i].name);
    }
  }

  /** The entries an export of `courses` reads back as. */
  ghost predicate ReadBack(courses: seq<Course>, es: seq<Entry>)
  {
    && |es| == |courses|
    && forall i :: 0 <= i < |courses| ==> es[i] == Entry(courses[i].name, Trim(InfoText(courses[i].info)))
  }

  /** The saved courses, the first `j` of them with their info replaced by
      the trimmed text the export wrote for it. */
  ghost function RefreshedUpTo(courses: seq<Course>, j: nat): seq<Course>
  {
    seq(|courses|, i requires 0 <= i < |courses| =>
      if i < j then courses[i].(info := Some(Trim(InfoText(courses[i].info)))) else courses[i])
  }

  lemma {:induction false} ImportReadBackPrefix(courses: seq<Course>, next: int, es: seq<Entry>, j: nat)
    requires CleanNames(courses) && DistinctNames(courses) && ReadBack(courses, es)
    requires j <= |courses|
    ensures Imported(courses, next, es[..j]) == RefreshedUpTo(courses, j)
    decreases j
  {
    if j == 0 {
      assert es[..0] == [];
      assert RefreshedUpTo(courses, 0) == courses;
    } else {
      var i := j - 1;
      ImportReadBackPrefix(courses, next, es, i);
      var before := RefreshedUpTo(courses, i);
      ImportedStep(courses, next, es, i, before, next);
      var found := NameIndex(courses, courses[i].name);
      assert found.Some?;
      assert found.value == i;
      assert ImportEntry(courses, before, next, es[i]) == RefreshedUpTo(courses, j);
    }
  }

  /** Importing read-back entries adds nothing, and with distinct names
      refreshes every course's info. */
  lemma ImportReadBack(courses: seq<Course>, next: int, es: seq<Entry>)
    requires CleanNames(courses) && ReadBack(courses, es)
    ensures var r := Imported(courses, next, es);
            && |r| == |courses|
            && (forall i :: 0 <= i < |courses| ==> r[i].id == courses[i].id && r[i].name == courses[i].name)
    ensures DistinctNames(courses) ==> Imported(courses, next, es) == RefreshedUpTo(courses, |courses|)
  {
    forall k | 0 <= k < |es| ensures !AddsCourse(courses, es[k]) {
      assert es[k].name == courses[k].name;
    }
    FilterNone(es, (e: Entry) => AddsCourse(courses, e));
    ImportedCount(courses, next, es);
    if DistinctNames(courses) {
      ImportReadBackPrefix(courses, next, es, |courses|);
      assert es[..|courses|] == es;
    }
  }

  /** Round trip: importing the export of a table whose names are clean adds
      no course and keeps every key and name; when the names are also
      distinct, each course comes back with its info trimmed (a missing info
      becomes the empty text). */
  lemma ImportOfExport(courses: seq<Course>, next: int)
    requires CleanNames(courses)
    ensures var r := Imported(courses, next, Entries(DataRows(ExportSheet(courses))));
            && |r| == |courses|
            && (forall i :: 0 <= i < |courses| ==> r[i].id == courses[i].id && r[i].name == courses[i].name)
    ensures DistinctNames(courses) ==>
              forall i :: 0 <= i < |courses| ==>
                Imported(courses, next, Entries(DataRows(ExportSheet(courses))))[i]
                == courses[i].(info := Some(Trim(InfoText(courses[i].info))))
  {
    ExportedEntries(courses);
    ImportReadBack(courses, next, Entries(DataRows(ExportSheet(courses))));
  }
}
