/**
 * The file table built from the PDF names of a directory (`read_dir` in filedb.py): one row
 * per file with the year, first author, journal and copy number read from its name.
 */
module FileDb {
  import opened Strings
  import opened Frames
  import opened FileNames

  /** `local-url, year, author1, journal, title, doi, keywords, abstract, extra, sync`. */
  const FileColumns: seq<string> :=
    ["local-url", "year", "author1", "journal", "title", "doi", "keywords", "abstract", "extra", "sync"]

  /** The file table's reading of a well-named file. */
  function EntryOf(path: string): FileEntry
    requires WellNamed(path)
  {
    FileDbFields(Segments(path)).value
  }

  /** The entries the scan appends: those of the files before the first badly named one. */
  function FileEntries(files: seq<string>): (es: seq<FileEntry>)
    ensures |es| == GoodPrefix(files)
  {
    seq(GoodPrefix(files), i requires 0 <= i < GoodPrefix(files) => EntryOf(files[i]))
  }

  /**
   * The body of the loop for one name: split it, and on a long name overwrite `tmp[2]` with
   * the rejoined journal and take the copy number into `extra`.
   */
  method SplitName(f: string) returns (tmp: seq<string>, extra: string)
    ensures |tmp| == |Segments(f)|
    ensures WellNamed(f) ==>
      FileEntry(tmp[0], ReplaceChar(tmp[1], '_', '-'), ReplaceChar(tmp[2], '_', ' '), extra) == EntryOf(f)
  {
    tmp := Segments(f);
    ghost var t0 := tmp;
    extra := "";
    if |tmp| > 3 {
      if IsCopyNumber(Last(tmp)) {
        assert tmp[2..|tmp| - 1] == JournalParts(t0);
        tmp := tmp[2 := Join("-", tmp[2..|tmp| - 1])];
        extra := Last(tmp);
      } else {
        assert tmp[2..] == JournalParts(t0);
        tmp := tmp[2 := Join("-", tmp[2..])];
      }
    }
  }

  /** The four lists hold the fields of the first files, in order. */
  predicate Scanned(files: seq<string>, years: seq<string>, authors: seq<string>, journals: seq<string>, extras: seq<string>) {
    && |years| == |authors| == |journals| == |extras| <= |files|
    && forall j :: 0 <= j < |years| ==>
      WellNamed(files[j]) && FileEntry(years[j], authors[j], journals[j], extras[j]) == EntryOf(files[j])
  }

  lemma ScannedAppend(files: seq<string>, years: seq<string>, authors: seq<string>, journals: seq<string>, extras: seq<string>, e: FileEntry)
    requires Scanned(files, years, authors, journals, extras) && |years| < |files|
    requires WellNamed(files[|years|]) && e == EntryOf(files[|years|])
    ensures Scanned(files, years + [e.year], authors + [e.author1], journals + [e.journal], extras + [e.extra])
  {
  }

  /**
   * The loop over the sorted names: each well-named file appends its fields to the four
   * lists until a name with fewer than three segments sets `skip`, which nothing resets.
   */
  method ScanNames(files: seq<string>) returns (years: seq<string>, authors: seq<string>, journals: seq<string>, extras: seq<string>)
    ensures |years| == GoodPrefix(files) && Scanned(files, years, authors, journals, extras)
  {
    years, authors, journals, extras := [], [], [], [];
    var skip := false;
    var i := 0;
    while i < |files|
      invariant 0 <= i <= |files|
      invariant |years| == if skip then GoodPrefix(files) else i
      invariant Scanned(files, years, authors, journals, extras)
    {
      var tmp, extra := SplitName(files[i]);
      if |tmp| < 3 {
        if !skip {
          GoodPrefixAt(files, i);
        }
        skip := true;
      }
      if !skip {
        var e := FileEntry(tmp[0], ReplaceChar(tmp[1], '_', '-'), ReplaceChar(tmp[2], '_', ' '), extra);
        ScannedAppend(files, years, authors, journals, extras, e);
        years := years + [e.year];
        authors := authors + [e.author1];
        journals := journals + [e.journal];
        extras := extras + [e.extra];
      }
      i := i + 1;
    }
    if !skip {
      GoodPrefixAll(files);
    }
  }

  /** One row of the file table. */
  function FileRow(path: string, e: FileEntry): Record {
    map["local-url" := Str(path), "year" := Str(e.year), "author1" := Str(e.author1),
        "journal" := Str(e.journal), "title" := Str(""), "doi" := Str(""), "keywords" := List([]),
        "abstract" := Str(""), "extra" := Str(e.extra), "sync" := Bool(false)]
  }

  /** The table with `local-url` the file list and the other columns from the entries. */
  function FileTable(files: seq<string>, es: seq<FileEntry>): Table
    requires |es| == |files|
  {
    Table(FileColumns, seq(|files|, i requires 0 <= i < |files| => Row(i, FileRow(files[i], es[i]))))
  }

  /**
   * What `read_dir` gives for a sorted file list: `None` when there is no PDF, and a
   * `ValueError` when the lists are shorter than the file list (`db['year'] = years`).
   */
  function ReadDirResult(files: seq<string>): Result<Option<Table>> {
    if |files| == 0 then Ok(None)
    else if GoodPrefix(files) < |files| then Err(ValueError)
    else Ok(Some(FileTable(files, FileEntries(files))))
  }

  /** `read_dir`, given the sorted result of the glob. */
  method ReadDir(files: seq<string>) returns (r: Result<Option<Table>>)
    ensures r == ReadDirResult(files)
  {
    if |files| == 0 {
      return Ok(None);
    }
    var years, authors, journals, extras := ScanNames(files);
    if |years| != |files| {
      return Err(ValueError);
    }
    var es := seq(|files|, i requires 0 <= i < |files| => FileEntry(years[i], authors[i], journals[i], extras[i]));
    assert es == FileEntries(files);
    r := Ok(Some(FileTable(files, es)));
  }

  /** `read_dir` fails exactly when some name has fewer than three segments, and then with a ValueError. */
  lemma ReadDirFails(files: seq<string>)
    ensures ReadDirResult(files).Err? <==> exists i :: 0 <= i < |files| && !WellNamed(files[i])
    ensures ReadDirResult(files).Err? ==> ReadDirResult(files).error == ValueError
  {
    GoodPrefixAll(files);
  }

  /** A directory holding one badly named PDF is enough to make `read_dir` fail. */
  lemma ReadDirShortName()
    ensures ReadDirResult(["./paper.pdf"]) == Err(ValueError)
  {
    OneSegmentName();
  }

  /** A file row has exactly the file table's columns. */
  lemma FileRowKeys(path: string, e: FileEntry)
    ensures FileRow(path, e).Keys == ColumnSet(FileColumns)
  {
    var r := FileRow(path, e);
    forall k | k in r ensures k in FileColumns {
    }
    forall k | k in FileColumns ensures k in r {
    }
  }

  /** A table built from a file list is well formed and labelled 0..N-1. */
  lemma FileTableWellFormed(files: seq<string>, es: seq<FileEntry>)
    requires |es| == |files|
    ensures WellFormed(FileTable(files, es)) && DenseLabels(FileTable(files, es).rows)
  {
    var t := FileTable(files, es);
    assert Distinct(FileColumns);
    assert Distinct(Labels(t.rows)) by {
      forall i, j | 0 <= i < j < |t.rows| ensures Labels(t.rows)[i] != Labels(t.rows)[j] {
        assert Labels(t.rows)[i] == i && Labels(t.rows)[j] == j;
      }
    }
    forall k | 0 <= k < |t.rows| ensures t.rows[k].cells.Keys == ColumnSet(FileColumns) {
      FileRowKeys(files[k], es[k]);
    }
  }

  /**
   * On success the table has one row per file in the order of the list, labelled 0..N-1,
   * each the row of that file's reading: `local-url` the path, the name's fields in `year`,
   * `author1`, `journal` and `extra`, `title`, `doi`, `abstract` empty, `keywords` `[]`,
   * `sync` False.
   */
  lemma ReadDirRows(files: seq<string>)
    ensures var r := ReadDirResult(files);
      r.Ok? && r.value.Some? ==>
        var t := r.value.value;
        && WellFormed(t) && t.columns == FileColumns && DenseLabels(t.rows) && |t.rows| == |files|
        && forall i :: 0 <= i < |files| ==>
          && FileDbFields(Segments(files[i])).Some?
          && t.rows[i].cells == FileRow(files[i], FileDbFields(Segments(files[i])).value)
  {
    var r := ReadDirResult(files);
    if r.Ok? && r.value.Some? {
      FileTableWellFormed(files, FileEntries(files));
    }
  }

  // ---------------------------------------------------------------------------------
  // read_dir with each badly named file skipped on its own

  /** The well-named files, in order. */
  function WellNamedFiles(files: seq<string>): (kept: seq<string>)
    ensures forall i :: 0 <= i < |kept| ==> WellNamed(kept[i])
    decreases |files|
  {
    if |files| == 0 then []
    else (if WellNamed(files[0]) then [files[0]] else []) + WellNamedFiles(files[1..])
  }

  lemma {:induction false} WellNamedFilesSpec(files: seq<string>)
    ensures forall f :: f in WellNamedFiles(files) <==> f in files && WellNamed(f)
    ensures (forall i :: 0 <= i < |files| ==> WellNamed(files[i])) ==> WellNamedFiles(files) == files
    decreases |files|
  {
    if |files| > 0 {
      WellNamedFilesSpec(files[1..]);
      assert files == [files[0]] + files[1..];
    }
  }

  /**
   * The evident intent of `skip`: a badly named file is reported and gets no row, and every
   * other file gets its row, with `local-url` kept in step with the other columns.
   */
  function ReadDirSkipping(files: seq<string>): Option<Table> {
    if |files| == 0 then None
    else
      var kept := WellNamedFiles(files);
      Some(FileTable(kept, seq(|kept|, i requires 0 <= i < |kept| => EntryOf(kept[i]))))
  }

  /**
   * Skipping never fails: its rows are the well-named files, in their order, each with its
   * own reading; with every name well formed it is the table `read_dir` builds.
   */
  lemma ReadDirSkippingSpec(files: seq<string>)
    ensures |files| > 0 <==> ReadDirSkipping(files).Some?
    ensures ReadDirSkipping(files).Some? ==>
      var t, kept := ReadDirSkipping(files).value, WellNamedFiles(files);
      && WellFormed(t) && t.columns == FileColumns && DenseLabels(t.rows) && |t.rows| == |kept|
      && forall i :: 0 <= i < |kept| ==> t.rows[i].cells == FileRow(kept[i], EntryOf(kept[i]))
    ensures (forall i :: 0 <= i < |files| ==> WellNamed(files[i])) ==> ReadDirResult(files) == Ok(ReadDirSkipping(files))
  {
    WellNamedFilesSpec(files);
    if |files| > 0 {
      var kept := WellNamedFiles(files);
      FileTableWellFormed(kept, seq(|kept|, i requires 0 <= i < |kept| => EntryOf(kept[i])));
      if forall i :: 0 <= i < |files| ==> WellNamed(files[i]) {
        SkippingAgrees(files);
      }
    }
  }

  lemma SkippingAgrees(files: seq<string>)
    requires |files| > 0 && forall i :: 0 <= i < |files| ==> WellNamed(files[i])
    ensures ReadDirResult(files) == Ok(ReadDirSkipping(files))
  {
    WellNamedFilesSpec(files);
    GoodPrefixAll(files);
    var kept := WellNamedFiles(files);
    assert kept == files;
    assert FileEntries(files) == seq(|kept|, i requires 0 <= i < |kept| => EntryOf(kept[i]));
  }
}
