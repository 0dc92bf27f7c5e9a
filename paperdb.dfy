/**
 * The paper table of py_paperdb.py: building it from PDF names (`build_pd`), reading it from
 * bibtex entries (`from_bib`), searching it (`search`, `quickview`) and linking PDF files
 * into it (`check_filedb`).
 */
module PaperDb {
  import opened Strings
  import opened Frames
  import opened FileNames
  import opened Bibdesk
  import opened BibDb
  import FileDb

  // ---------------------------------------------------------------------------------
  // build_pd

  /** `local-url, year, author_s, journal`. */
  const PaperColumns: seq<string> := ["local-url", "year", "author_s", "journal"]

  /** The paper table's reading of a well-named file. */
  function PaperEntryOf(path: string): PaperEntry
    requires WellNamed(path)
  {
    PaperDbFields(Segments(path)).value
  }

  /** The loop body of `build_pd` for one name, with `''.join` for the journal. */
  method SplitPaperName(f: string) returns (tmp: seq<string>)
    ensures |tmp| == |Segments(f)|
    ensures WellNamed(f) ==>
      PaperEntry(tmp[0], ReplaceChar(tmp[1], '_', '-'), ReplaceChar(tmp[2], '_', ' ')) == PaperEntryOf(f)
  {
    tmp := Segments(f);
    ghost var t0 := tmp;
    if |tmp| > 3 {
      if IsCopyNumber(Last(tmp)) {
        assert tmp[2..|tmp| - 1] == JournalParts(t0);
        tmp := tmp[2 := Join("", tmp[2..|tmp| - 1])];
      } else {
        assert tmp[2..] == JournalParts(t0);
        tmp := tmp[2 := Join("", tmp[2..])];
      }
    }
  }

  /** The three lists hold the fields of the first files, in order. */
  predicate PaperScanned(files: seq<string>, years: seq<string>, authors: seq<string>, journals: seq<string>) {
    && |years| == |authors| == |journals| <= |files|
    && forall j :: 0 <= j < |years| ==>
      WellNamed(files[j]) && PaperEntry(years[j], authors[j], journals[j]) == PaperEntryOf(files[j])
  }

  lemma PaperScannedAppend(files: seq<string>, years: seq<string>, authors: seq<string>, journals: seq<string>, e: PaperEntry)
    requires PaperScanned(files, years, authors, journals) && |years| < |files|
    requires WellNamed(files[|years|]) && e == PaperEntryOf(files[|years|])
    ensures PaperScanned(files, years + [e.year], authors + [e.authorS], journals + [e.journal])
  {
  }

  /**
   * The loop of `build_pd`: each well-named file appends its fields until a name with fewer
   * than three segments sets `error_flag`, which nothing resets.
   */
  method ScanPaperNames(files: seq<string>) returns (years: seq<string>, authors: seq<string>, journals: seq<string>)
    ensures |years| == GoodPrefix(files) && PaperScanned(files, years, authors, journals)
  {
    years, authors, journals := [], [], [];
    var errorFlag := false;
    var i := 0;
    while i < |files|
      invariant 0 <= i <= |files|
      invariant |years| == if errorFlag then GoodPrefix(files) else i
      invariant PaperScanned(files, years, authors, journals)
    {
      var tmp := SplitPaperName(files[i]);
      if |tmp| < 3 {
        if !errorFlag {
          GoodPrefixAt(files, i);
        }
        errorFlag := true;
      }
      if !errorFlag {
        var e := PaperEntry(tmp[0], ReplaceChar(tmp[1], '_', '-'), ReplaceChar(tmp[2], '_', ' '));
        PaperScannedAppend(files, years, authors, journals, e);
        years := years + [e.year];
        authors := authors + [e.authorS];
        journals := journals + [e.journal];
      }
      i := i + 1;
    }
    if !errorFlag {
      GoodPrefixAll(files);
    }
  }

  /** One row of the paper table built from names. */
  function PaperRow(path: string, e: PaperEntry): Record {
    map["local-url" := Str(path), "year" := Str(e.year), "author_s" := Str(e.authorS), "journal" := Str(e.journal)]
  }

  function PaperTable(files: seq<string>, es: seq<PaperEntry>): Table
    requires |es| == |files|
  {
    Table(PaperColumns, seq(|files|, i requires 0 <= i < |files| => Row(i, PaperRow(files[i], es[i]))))
  }

  /** The entries of the leading well-named files. */
  function PaperEntries(files: seq<string>): (es: seq<PaperEntry>)
    ensures |es| == GoodPrefix(files)
  {
    seq(GoodPrefix(files), i requires 0 <= i < GoodPrefix(files) => PaperEntryOf(files[i]))
  }

  /**
   * What `build_pd` gives for a sorted file list: `None` stands for its `return 0` when there
   * is no PDF; a `ValueError` when the lists are shorter than the file list.
   */
  function BuildPdResult(files: seq<string>): Result<Option<Table>> {
    if |files| == 0 then Ok(None)
    else if GoodPrefix(files) < |files| then Err(ValueError)
    else Ok(Some(PaperTable(files, PaperEntries(files))))
  }

  /** `build_pd`, given the sorted result of the glob. */
  method BuildPd(files: seq<string>) returns (r: Result<Option<Table>>)
    ensures r == BuildPdResult(files)
  {
    if |files| == 0 {
      return Ok(None);
    }
    var years, authors, journals := ScanPaperNames(files);
    if |years| != |files| {
      return Err(ValueError);
    }
    var es := seq(|files|, i requires 0 <= i < |files| => PaperEntry(years[i], authors[i], journals[i]));
    assert es == PaperEntries(files);
    r := Ok(Some(PaperTable(files, es)));
  }

  /** `build_pd` fails exactly when some name has fewer than three segments, and then with a ValueError. */
  lemma BuildPdFails(files: seq<string>)
    ensures BuildPdResult(files).Err? <==> exists i :: 0 <= i < |files| && !WellNamed(files[i])
    ensures BuildPdResult(files).Err? ==> BuildPdResult(files).error == ValueError
  {
    GoodPrefixAll(files);
  }

  lemma PaperRowKeys(path: string, e: PaperEntry)
    ensures PaperRow(path, e).Keys == ColumnSet(PaperColumns)
  {
    var r := PaperRow(path, e);
    forall k | k in r ensures k in PaperColumns {
    }
    forall k | k in PaperColumns ensures k in r {
    }
  }

  lemma PaperTableWellFormed(files: seq<string>, es: seq<PaperEntry>)
    requires |es| == |files|
    ensures WellFormed(PaperTable(files, es)) && DenseLabels(PaperTable(files, es).rows)
  {
    var t := PaperTable(files, es);
    assert Distinct(PaperColumns);
    assert Distinct(Labels(t.rows)) by {
      forall i, j | 0 <= i < j < |t.rows| ensures Labels(t.rows)[i] != Labels(t.rows)[j] {
        assert Labels(t.rows)[i] == i && Labels(t.rows)[j] == j;
      }
    }
    forall k | 0 <= k < |t.rows| ensures t.rows[k].cells.Keys == ColumnSet(PaperColumns) {
      PaperRowKeys(files[k], es[k]);
    }
  }

  /**
   * On success the table has one row per file in list order, labelled 0..N-1, holding the
   * path and the name's year, author and journal.
   */
  lemma BuildPdRows(files: seq<string>)
    ensures var r := BuildPdResult(files);
      r.Ok? && r.value.Some? ==>
        var t := r.value.value;
        && WellFormed(t) && t.columns == PaperColumns && DenseLabels(t.rows) && |t.rows| == |files|
        && forall i :: 0 <= i < |files| ==>
          && PaperDbFields(Segments(files[i])).Some?
          && t.rows[i].cells == PaperRow(files[i], PaperDbFields(Segments(files[i])).value)
  {
    var r := BuildPdResult(files);
    if r.Ok? && r.value.Some? {
      PaperTableWellFormed(files, PaperEntries(files));
    }
  }

  /**
   * `build_pd` and `read_dir` accept the same file lists; row by row they agree on the path,
   * the year and the author, and the journal of `build_pd` is that of `read_dir` without `-`.
   */
  lemma BuildPdMatchesReadDir(files: seq<string>)
    ensures BuildPdResult(files).Err? <==> FileDb.ReadDirResult(files).Err?
    ensures forall i :: 0 <= i < |files| && WellNamed(files[i]) ==>
      var p, f := PaperEntryOf(files[i]), FileDbFields(Segments(files[i])).value;
      p.year == f.year && p.authorS == f.author1 && p.journal == DeleteChar(f.journal, '-')
  {
    GoodPrefixAll(files);
    forall i | 0 <= i < |files| && WellNamed(files[i])
      ensures var p, f := PaperEntryOf(files[i]), FileDbFields(Segments(files[i])).value;
        p.year == f.year && p.authorS == f.author1 && p.journal == DeleteChar(f.journal, '-')
    {
      VariantsAgree(files[i]);
    }
  }

  /** The evident intent of `error_flag`: a badly named file gets no row, the others get theirs. */
  function BuildPdSkipping(files: seq<string>): Option<Table> {
    if |files| == 0 then None
    else
      var kept := FileDb.WellNamedFiles(files);
      Some(PaperTable(kept, seq(|kept|, i requires 0 <= i < |kept| => PaperEntryOf(kept[i]))))
  }

  /**
   * Skipping never fails: one row per well-named file, in order, each with its own reading;
   * with every name well formed it is the table `build_pd` builds.
   */
  lemma BuildPdSkippingSpec(files: seq<string>)
    ensures |files| > 0 <==> BuildPdSkipping(files).Some?
    ensures BuildPdSkipping(files).Some? ==>
      var t, kept := BuildPdSkipping(files).value, FileDb.WellNamedFiles(files);
      && WellFormed(t) && t.columns == PaperColumns && DenseLabels(t.rows) && |t.rows| == |kept|
      && forall i :: 0 <= i < |kept| ==> t.rows[i].cells == PaperRow(kept[i], PaperEntryOf(kept[i]))
    ensures (forall i :: 0 <= i < |files| ==> WellNamed(files[i])) ==> BuildPdResult(files) == Ok(BuildPdSkipping(files))
  {
    FileDb.WellNamedFilesSpec(files);
    if |files| > 0 {
      var kept := FileDb.WellNamedFiles(files);
      PaperTableWellFormed(kept, seq(|kept|, i requires 0 <= i < |kept| => PaperEntryOf(kept[i])));
      if forall i :: 0 <= i < |files| ==> WellNamed(files[i]) {
        PaperSkippingAgrees(files);
      }
    }
  }

  lemma PaperSkippingAgrees(files: seq<string>)
    requires |files| > 0 && forall i :: 0 <= i < |files| ==> WellNamed(files[i])
    ensures BuildPdResult(files) == Ok(BuildPdSkipping(files))
  {
    FileDb.WellNamedFilesSpec(files);
    GoodPrefixAll(files);
    var kept := FileDb.WellNamedFiles(files);
    assert kept == files;
    assert PaperEntries(files) == seq(|kept|, i requires 0 <= i < |kept| => PaperEntryOf(kept[i]));
  }

  /** A directory holding one badly named PDF is enough to make `build_pd` fail. */
  lemma BuildPdShortName()
    ensures BuildPdResult(["./paper.pdf"]) == Err(ValueError)
  {
    FileDb.ReadDirShortName();
  }

  // ---------------------------------------------------------------------------------
  // read_txtpdf's trim chain, on the text of the first page

  /** The marker the chain parks paragraph breaks under. */
  const Marker: string := "C_RETURN"

  /**
   * The first replace chain: runs of two to four line breaks become one paragraph break and
   * every other line break is dropped.
   */
  function Paragraphs(txt: string): string {
    Replace(Replace(Replace(Replace(Replace(txt, "\n\n\n\n", Marker), "\n\n\n", Marker), "\n\n", Marker), "\n", ""), Marker, "\n\n")
  }

  /** Then triple breaks, `"\n\n \n\n"` and `"\n.\n"` each collapse to one line break. */
  function Collapse(t: string): string {
    Replace(Replace(Replace(t, "\n\n\n", "\n"), "\n\n \n\n", "\n"), "\n.\n", "\n")
  }

  /** The trim chain of `read_txtpdf`. */
  function TrimText(txt: string): string {
    Collapse(Paragraphs(txt))
  }

  /** A pattern that starts with a line break does not occur in a text without one. */
  lemma NoBreakReplace(s: string, pat: string, rep: string)
    requires '\n' !in s && |pat| > 0 && pat[0] == '\n'
    ensures Replace(s, pat, rep) == s
  {
    if Contains(s, pat) {
      ContainsChar(s, pat, 0);
    }
    ReplaceAbsent(s, pat, rep);
  }

  /** The collapsing step leaves a text without line breaks alone. */
  lemma CollapseOneLine(s: string)
    requires '\n' !in s
    ensures Collapse(s) == s
  {
    NoBreakReplace(s, "\n\n\n", "\n");
    NoBreakReplace(s, "\n\n \n\n", "\n");
    NoBreakReplace(s, "\n.\n", "\n");
  }

  /** A text on one line that does not hold the marker is left as it is. */
  lemma TrimOneLine(s: string)
    requires '\n' !in s && !Contains(s, Marker)
    ensures TrimText(s) == s
  {
    NoBreakReplace(s, "\n\n\n\n", Marker);
    NoBreakReplace(s, "\n\n\n", Marker);
    NoBreakReplace(s, "\n\n", Marker);
    NoBreakReplace(s, "\n", "");
    ReplaceAbsent(s, Marker, "\n\n");
    CollapseOneLine(s);
  }

  /** A lone line break inside a line's text is never the start of a longer pattern. */
  lemma LoneBreak(a: string, b: string, pat: string, rep: string)
    requires '\n' !in a && '\n' !in b && |pat| > 1 && pat[0] == '\n' && '\n' in pat[1..]
    ensures Replace(a + "\n" + b, pat, rep) == a + "\n" + b
  {
    ReplaceSkip(a, "\n" + b, pat, rep);
    assert a + "\n" + b == a + ("\n" + b);
    NoBreakReplace(b, pat, rep);
    assert ("\n" + b)[1..] == b;
  }

  /** Dropping line breaks joins the two pieces around a lone one. */
  lemma DropLoneBreak(a: string, b: string)
    requires '\n' !in a && '\n' !in b
    ensures Replace(a + "\n" + b, "\n", "") == a + b
  {
    var nl := "\n";
    assert nl[0] == '\n' && '\n' !in a;
    assert a + nl + b == a + (nl + b);
    ReplaceSkip(a, nl + b, nl, "");
    ReplaceFront(b, nl, "");
    NoBreakReplace(b, nl, "");
    assert Replace(nl + b, nl, "") == b;
  }

  /** The first chain removes a single line break between two pieces of text. */
  lemma ParagraphsLoneBreak(a: string, b: string)
    requires '\n' !in a && '\n' !in b && !Contains(a + b, Marker)
    ensures Paragraphs(a + "\n" + b) == a + b
  {
    var s := a + "\n" + b;
    LoneBreak(a, b, "\n\n\n\n", Marker);
    LoneBreak(a, b, "\n\n\n", Marker);
    LoneBreak(a, b, "\n\n", Marker);
    var s3 := Replace(Replace(Replace(s, "\n\n\n\n", Marker), "\n\n\n", Marker), "\n\n", Marker);
    assert s3 == s;
    DropLoneBreak(a, b);
    ReplaceAbsent(a + b, Marker, "\n\n");
    assert Paragraphs(s) == Replace(Replace(s3, "\n", ""), Marker, "\n\n");
  }

  /** A single line break between two pieces of text is removed. */
  lemma TrimLoneBreak(a: string, b: string)
    requires '\n' !in a && '\n' !in b && !Contains(a + b, Marker)
    ensures TrimText(a + "\n" + b) == a + b
  {
    ParagraphsLoneBreak(a, b);
    assert '\n' !in a + b;
    CollapseOneLine(a + b);
  }

  /** A pair of line breaks before a line is not a run of three or more, nor `\n.\n`. */
  lemma TwoBreaksKept(a: string, b: string, pat: string, rep: string)
    requires '\n' !in a && '\n' !in b && |pat| > 2 && pat[0] == '\n' && '\n' in pat[2..]
    ensures Replace(a + "\n\n" + b, pat, rep) == a + "\n\n" + b
  {
    var x := "\n\n" + b;
    assert !IsPrefix(pat, x);
    assert x[1..] == "" + "\n" + b;
    LoneBreak("", b, pat, rep);
    assert [x[0]] + x[1..] == x;
    ReplaceSkip(a, x, pat, rep);
    assert a + "\n\n" + b == a + x;
  }

  /** Two line breaks between two lines are kept as one paragraph break. */
  lemma TrimParagraph(a: string, b: string)
    requires '\n' !in a && '\n' !in b && !Contains(b, Marker)
    requires forall j :: 0 <= j < |a| ==> !IsPrefix(Marker, (a + Marker + b)[j..])
    ensures TrimText(a + "\n\n" + b) == a + "\n\n" + b
  {
    var s := a + "\n\n" + b;
    assert "\n\n\n\n"[2..][0] == '\n' && "\n\n\n"[2..][0] == '\n';
    assert "\n\n \n\n"[2..][1] == '\n' && "\n.\n"[2..][0] == '\n';
    TwoBreaksKept(a, b, "\n\n\n\n", Marker);
    TwoBreaksKept(a, b, "\n\n\n", Marker);
    var nn := "\n\n";
    assert s == a + nn + b;
    assert forall j :: 0 <= j < |a| ==> !IsPrefix(nn, (a + nn + b)[j..]) by {
      forall j | 0 <= j < |a| ensures !IsPrefix(nn, (a + nn + b)[j..]) {
        assert (a + nn + b)[j..][0] == a[j];
      }
    }
    ReplaceFirst(a, b, nn, Marker);
    NoBreakReplace(b, nn, Marker);
    var m := a + Marker + b;
    assert '\n' !in m;
    NoBreakReplace(m, "\n", "");
    ReplaceFirst(a, b, Marker, "\n\n");
    ReplaceAbsent(b, Marker, "\n\n");
    assert Paragraphs(s) == s;
    TwoBreaksKept(a, b, "\n\n\n", "\n");
    TwoBreaksKept(a, b, "\n\n \n\n", "\n");
    TwoBreaksKept(a, b, "\n.\n", "\n");
  }

  // ---------------------------------------------------------------------------------
  // from_bib

  /** A cell of a table read from bibtex entries: a string, or missing. */
  predicate BibCell(c: Cell) {
    c.Str? || c.NA?
  }

  /** What `DataFrame.from_dict(bib_db.entries)` gives: labels 0..N-1 and string cells. */
  predicate BibTable(p: Table) {
    && WellFormed(p) && DenseLabels(p.rows)
    && forall i, k :: 0 <= i < |p.rows| && k in p.rows[i].cells ==> BibCell(p.rows[i].cells[k])
  }

  /**
   * `DataFrame.from_dict` on a list of string dicts; `cols` is the column order pandas picks,
   * holding every key of every entry. A key an entry lacks is a missing cell.
   */
  function FromDict(cols: seq<string>, entries: seq<map<string, string>>): Table {
    Table(cols, seq(|entries|, i requires 0 <= i < |entries| =>
      Row(i, map k | k in ColumnSet(cols) :: if k in entries[i] then Str(entries[i][k]) else NA)))
  }

  /** The entries become rows 0..N-1 in order, each value a string cell and each absent key NA. */
  lemma FromDictSpec(cols: seq<string>, entries: seq<map<string, string>>)
    requires Distinct(cols) && forall i :: 0 <= i < |entries| ==> entries[i].Keys <= ColumnSet(cols)
    ensures var p := FromDict(cols, entries);
      && BibTable(p) && p.columns == cols && |p.rows| == |entries|
      && forall i, k :: 0 <= i < |entries| && k in cols ==>
        k in p.rows[i].cells && p.rows[i].cells[k] == (if k in entries[i] then Str(entries[i][k]) else NA)
  {
    var p := FromDict(cols, entries);
    assert Distinct(Labels(p.rows)) by {
      forall i, j | 0 <= i < j < |p.rows| ensures Labels(p.rows)[i] != Labels(p.rows)[j] {
        assert Labels(p.rows)[i] == i && Labels(p.rows)[j] == j;
      }
    }
  }

  /** The KeyError `from_bib` raises, in the order it meets the columns it reads or drops. */
  function FromBibError(p: Table): Option<Error> {
    if "read" !in p.columns then Some(KeyError("read"))
    else if "url" !in p.columns then Some(KeyError("url"))
    else if "bdsk-url-1" in p.columns && "bdsk-url-2" !in p.columns then Some(KeyError("bdsk-url-2"))
    else if "bdsk-url-1" in p.columns && "bdsk-file-1" !in p.columns then Some(KeyError("bdsk-file-1"))
    else None
  }

  /** The columns `from_bib` drops: `uri`, and the Bibdesk ones when `bdsk-url-1` is there. */
  predicate BibDropped(cols: seq<string>, x: string) {
    x == "uri" || ("bdsk-url-1" in cols && (x == "bdsk-file-1" || x == "bdsk-url-1" || x == "bdsk-url-2"))
  }

  function FromBibColumns(cols: seq<string>): seq<string> {
    var c1 := if "uri" in cols then RemoveName(AddName(cols, "doi"), "uri") else cols;
    if "bdsk-url-1" in cols then RemoveName(RemoveName(RemoveName(c1, "bdsk-file-1"), "bdsk-url-1"), "bdsk-url-2")
    else c1
  }

  /** The result's columns: the original ones and `doi` when there was a `uri`, less the dropped ones. */
  lemma FromBibColumnsMember(cols: seq<string>, x: string)
    ensures x in FromBibColumns(cols) <==> (x in cols || (x == "doi" && "uri" in cols)) && !BibDropped(cols, x)
  {
    var c1 := if "uri" in cols then RemoveName(AddName(cols, "doi"), "uri") else cols;
    if "uri" in cols {
      AddNameSpec(cols, "doi");
      RemoveNameMember(AddName(cols, "doi"), "uri", x);
      assert x in AddName(cols, "doi") <==> x in ColumnSet(AddName(cols, "doi"));
    }
    if "bdsk-url-1" in cols {
      RemoveNameMember(c1, "bdsk-file-1", x);
      RemoveNameMember(RemoveName(c1, "bdsk-file-1"), "bdsk-url-1", x);
      RemoveNameMember(RemoveName(RemoveName(c1, "bdsk-file-1"), "bdsk-url-1"), "bdsk-url-2", x);
    }
  }

  lemma FromBibColumnsDistinct(cols: seq<string>)
    requires Distinct(cols)
    ensures Distinct(FromBibColumns(cols))
  {
    var c1 := if "uri" in cols then RemoveName(AddName(cols, "doi"), "uri") else cols;
    if "uri" in cols {
      AddNameSpec(cols, "doi");
      RemoveNameDistinct(AddName(cols, "doi"), "uri");
    }
    if "bdsk-url-1" in cols {
      RemoveNameDistinct(c1, "bdsk-file-1");
      RemoveNameDistinct(RemoveName(c1, "bdsk-file-1"), "bdsk-url-1");
      RemoveNameDistinct(RemoveName(RemoveName(c1, "bdsk-file-1"), "bdsk-url-1"), "bdsk-url-2");
    }
  }

  /** One cell of a row after `from_bib`, given the reconciled url. */
  function FromBibCell(cols: seq<string>, cells: Record, url: Cell, k: string): Cell {
    if k == "url" then url
    else if k == "doi" && "uri" in cols then UriDoi(FillCell("uri", CellOf(cells, "uri")))
    else FillCell(k, CellOf(cells, k))
  }

  function FromBibRow(cols: seq<string>, cells: Record, url: Cell): Record {
    map k | k in ColumnSet(FromBibColumns(cols)) :: FromBibCell(cols, cells, url, k)
  }

  /** The filled url columns of one row: `p.fillna('')` after `read` took `'False'`. */
  function FilledUrl(cells: Record, k: string): Cell {
    FillCell(k, CellOf(cells, k))
  }

  /** The reconciled urls a run of the url loop may produce, one per row. */
  predicate BibUrls(p: Table, urls: seq<Cell>)
    requires BibTable(p)
  {
    && |urls| == |p.rows|
    && forall i :: 0 <= i < |p.rows| ==>
      var c := p.rows[i].cells;
      assert BibCell(CellOf(c, "url")) && BibCell(CellOf(c, "bdsk-url-1")) && BibCell(CellOf(c, "bdsk-url-2"));
      if "bdsk-url-1" in p.columns then
        UrlChoice(FilledUrl(c, "url"), FilledUrl(c, "bdsk-url-1"), FilledUrl(c, "bdsk-url-2"), urls[i])
      else urls[i] == FilledUrl(c, "url")
  }

  /** The table `from_bib` returns, given the reconciled urls. */
  function FromBibTable(p: Table, urls: seq<Cell>): Table
    requires |urls| == |p.rows|
  {
    Table(FromBibColumns(p.columns), seq(|p.rows|, i requires 0 <= i < |p.rows| =>
      Row(p.rows[i].index, FromBibRow(p.columns, p.rows[i].cells, urls[i]))))
  }

  /**
   * `from_bib` on the table of the entries: the first KeyError it meets, otherwise the filled
   * table with `doi` from `uri`, the reconciled urls and the Bibdesk columns dropped.
   */
  method FromBib(p: Table) returns (r: Result<Table>, urls: seq<Cell>)
    requires BibTable(p)
    ensures FromBibError(p).Some? ==> r == Err(FromBibError(p).value)
    ensures FromBibError(p).None? ==> BibUrls(p, urls) && r == Ok(FromBibTable(p, urls))
  {
    var e := FromBibError(p);
    if e.Some? {
      return Err(e.value), [];
    }
    var n := |p.rows|;
    urls := seq(n, i requires 0 <= i < n => FilledUrl(p.rows[i].cells, "url"));
    if "bdsk-url-1" in p.columns {
      var b1s := seq(n, i requires 0 <= i < n => FilledUrl(p.rows[i].cells, "bdsk-url-1"));
      var b2s := seq(n, i requires 0 <= i < n => FilledUrl(p.rows[i].cells, "bdsk-url-2"));
      forall i | 0 <= i < n ensures Renderable(urls[i]) && Renderable(b1s[i]) && Renderable(b2s[i]) {
        assert BibCell(CellOf(p.rows[i].cells, "url"));
        assert BibCell(CellOf(p.rows[i].cells, "bdsk-url-1")) && BibCell(CellOf(p.rows[i].cells, "bdsk-url-2"));
      }
      urls := ReconcileUrls(urls, b1s, b2s);
    }
    r := Ok(FromBibTable(p, urls));
  }

  /** The preconditions the row lemmas share: a row of a table `from_bib` accepts. */
  predicate BibRow(cols: seq<string>, cells: Record) {
    && Distinct(cols) && cells.Keys == ColumnSet(cols) && "read" in cols && "url" in cols
    && forall k :: k in cells ==> BibCell(cells[k])
  }

  /** A cell `from_bib` writes is always a string: every NA has been filled. */
  lemma FromBibCellStr(cols: seq<string>, cells: Record, url: Cell, k: string)
    requires BibRow(cols, cells) && url.Str? && k in FromBibColumns(cols)
    ensures FromBibCell(cols, cells, url, k).Str?
  {
    FromBibColumnsMember(cols, k);
    assert BibCell(CellOf(cells, "uri"));
    assert BibCell(CellOf(cells, k));
  }

  /**
   * A row after `from_bib`: the url is the reconciled one, `read` defaults to `'False'`,
   * `doi` is `uri[31:-1]` whenever there was a `uri` (also over an existing `doi`), no cell
   * is missing, and every other kept cell is the original one with NA filled by `''`.
   */
  lemma FromBibRowSpec(cols: seq<string>, cells: Record, url: Cell)
    requires BibRow(cols, cells) && url.Str?
    ensures var r := FromBibRow(cols, cells, url);
      && r.Keys == ColumnSet(FromBibColumns(cols))
      && "url" in r && "read" in r
      && r["url"] == url
      && r["read"] == (if cells["read"] == NA then Str("False") else cells["read"])
      && ("uri" in cols ==>
        && "doi" in r && "uri" !in r
        && r["doi"] == Str(PySlice(if cells["uri"] == NA then "" else cells["uri"].s, 31, -1)))
      && (forall k :: k in r ==> r[k].Str?)
      && forall k :: k in cols && k != "url" && k != "read" && !(k == "doi" && "uri" in cols) && !BibDropped(cols, k) ==>
        k in r && r[k] == (if cells[k] == NA then Str("") else cells[k])
  {
    var r := FromBibRow(cols, cells, url);
    FromBibColumnsMember(cols, "url");
    FromBibColumnsMember(cols, "read");
    FromBibColumnsMember(cols, "doi");
    FromBibColumnsMember(cols, "uri");
    if "uri" in cols {
      assert BibCell(cells["uri"]);
    }
    forall k | k in r ensures r[k].Str? {
      FromBibCellStr(cols, cells, url, k);
    }
    forall k | k in cols && k != "url" && k != "read" && !(k == "doi" && "uri" in cols) && !BibDropped(cols, k)
      ensures k in r && r[k] == (if cells[k] == NA then Str("") else cells[k])
    {
      FromBibColumnsMember(cols, k);
      assert k in ColumnSet(FromBibColumns(cols));
      assert r[k] == FromBibCell(cols, cells, url, k) == FillCell(k, cells[k]);
    }
  }

  /**
   * The url loop's outcome: a string that is empty exactly when `url`, `bdsk-url-1` and
   * `bdsk-url-2` are all empty or missing, and otherwise one of their non-empty values;
   * without `bdsk-url-1` the url is the filled `url` cell.
   */
  lemma FromBibUrl(p: Table, urls: seq<Cell>, i: int)
    requires BibTable(p) && FromBibError(p).None? && BibUrls(p, urls) && 0 <= i < |p.rows|
    ensures var c := p.rows[i].cells;
      && urls[i].Str?
      && ("bdsk-url-1" in p.columns ==>
        && (urls[i] == Str("") <==>
          FilledUrl(c, "url") == Str("") && FilledUrl(c, "bdsk-url-1") == Str("") && FilledUrl(c, "bdsk-url-2") == Str(""))
        && (urls[i] != Str("") ==>
          urls[i] == FilledUrl(c, "url") || urls[i] == FilledUrl(c, "bdsk-url-1") || urls[i] == FilledUrl(c, "bdsk-url-2")))
      && ("bdsk-url-1" !in p.columns ==> urls[i] == FilledUrl(c, "url"))
  {
    var c := p.rows[i].cells;
    assert BibCell(CellOf(c, "url")) && BibCell(CellOf(c, "bdsk-url-1")) && BibCell(CellOf(c, "bdsk-url-2"));
    if "bdsk-url-1" in p.columns {
      UrlChoiceSpec(FilledUrl(c, "url"), FilledUrl(c, "bdsk-url-1"), FilledUrl(c, "bdsk-url-2"), urls[i]);
    }
  }

  /**
   * The table `from_bib` returns is well formed with rows and labels as they were; `uri`
   * and, with `bdsk-url-1`, the three Bibdesk columns are gone, and `doi` is there whenever
   * `uri` was.
   */
  lemma FromBibShape(p: Table, urls: seq<Cell>)
    requires BibTable(p) && FromBibError(p).None? && BibUrls(p, urls)
    ensures var t := FromBibTable(p, urls);
      && WellFormed(t) && DenseLabels(t.rows) && |t.rows| == |p.rows|
      && "url" in t.columns && "read" in t.columns
      && (forall x :: BibDropped(p.columns, x) ==> x !in t.columns)
      && ("uri" in p.columns ==> "doi" in t.columns)
  {
    var t := FromBibTable(p, urls);
    FromBibColumnsDistinct(p.columns);
    FromBibColumnsMember(p.columns, "url");
    FromBibColumnsMember(p.columns, "read");
    FromBibColumnsMember(p.columns, "doi");
    forall x | BibDropped(p.columns, x) ensures x !in t.columns {
      FromBibColumnsMember(p.columns, x);
    }
    assert Labels(t.rows) == Labels(p.rows);
    forall i | 0 <= i < |t.rows| ensures t.rows[i].cells.Keys == ColumnSet(t.columns) {
    }
  }

  /**
   * `from_bib` and `clean_db` reconcile urls by the same rule: on a table `from_bib`
   * accepts, a url list is admissible for one exactly when it is for the other.
   */
  lemma SameUrlRule(p: Table, urls: seq<Cell>)
    requires BibTable(p) && FromBibError(p).None?
    ensures RenderableColumns(p)
    ensures UrlsAdmissible(p, urls) <==> BibUrls(p, urls)
  {
    forall i | 0 <= i < |p.rows| ensures
      && Renderable(CellOf(p.rows[i].cells, "url"))
      && Renderable(CellOf(p.rows[i].cells, "bdsk-url-1"))
      && Renderable(CellOf(p.rows[i].cells, "bdsk-url-2"))
      && Renderable(CellOf(p.rows[i].cells, "pmid"))
    {
      assert BibCell(CellOf(p.rows[i].cells, "url")) && BibCell(CellOf(p.rows[i].cells, "pmid"));
      assert BibCell(CellOf(p.rows[i].cells, "bdsk-url-1")) && BibCell(CellOf(p.rows[i].cells, "bdsk-url-2"));
    }
    forall i | 0 <= i < |p.rows| ensures
      var c := p.rows[i].cells;
      && UrlBase(p.columns, Filled(c)) == FilledUrl(c, "url")
      && ("bdsk-url-1" in p.columns ==>
        CellOf(Filled(c), "bdsk-url-1") == FilledUrl(c, "bdsk-url-1") && CellOf(Filled(c), "bdsk-url-2") == FilledUrl(c, "bdsk-url-2"))
    {
    }
  }

  // ---------------------------------------------------------------------------------
  // search and quickview

  /** Every row of `rows` has a string in column `k`. */
  predicate StrColumn(rows: seq<Row>, k: string) {
    forall r :: r in rows ==> CellOf(r.cells, k).Str?
  }

  /** No row of `rows` has a string in column `k`. */
  predicate NoStrColumn(rows: seq<Row>, k: string) {
    forall r :: r in rows ==> !CellOf(r.cells, k).Str?
  }

  /** Every row of `rows` has an integer in column `k` (pandas' `dtype == 'int'`). */
  predicate IntColumn(rows: seq<Row>, k: string) {
    forall r :: r in rows ==> CellOf(r.cells, k).Int?
  }

  /** `s.str.contains(pat)` on one cell, as a mask value. */
  predicate StrHas(c: Cell, pat: string) {
    c.Str? && Contains(c.s, pat)
  }

  /**
   * `search` adds `author1` in place, as the text of `author` before the first `" and "`,
   * when the table has none: a KeyError without `author`, an AttributeError when some
   * author is not a string (`x.split`).
   */
  function WithAuthor1(t: Table): Result<Table> {
    if "author1" in t.columns then Ok(t)
    else if "author" !in t.columns then Err(KeyError("author"))
    else if !StrColumn(t.rows, "author") then Err(AttributeError)
    else
      Ok(Table(t.columns + ["author1"], seq(|t.rows|, i requires 0 <= i < |t.rows| =>
        assert t.rows[i] in t.rows;
        Row(t.rows[i].index, t.rows[i].cells["author1" := Str(BeforeFirst(CellOf(t.rows[i].cells, "author").s, " and "))]))))
  }

  /**
   * When WithAuthor1 succeeds the table stays well formed with its rows and labels; a table
   * that already has `author1` is unchanged, otherwise each row gains the first author, a
   * prefix of its author list without `" and "`. It fails exactly when `author1` and `author`
   * are both missing, or `author1` is missing and some author is not a string.
   */
  lemma WithAuthor1Spec(t: Table)
    requires WellFormed(t)
    ensures WithAuthor1(t).Err? <==> "author1" !in t.columns && ("author" !in t.columns || !StrColumn(t.rows, "author"))
    ensures WithAuthor1(t).Ok? ==>
      var q := WithAuthor1(t).value;
      && WellFormed(q) && Labels(q.rows) == Labels(t.rows) && |q.rows| == |t.rows| && "author1" in q.columns
      && ("author1" in t.columns ==> q == t)
      && ("author1" !in t.columns ==> forall i :: 0 <= i < |t.rows| ==>
        && t.rows[i].cells["author"].Str?
        && var a1 := BeforeFirst(t.rows[i].cells["author"].s, " and ");
        && q.rows[i].cells == t.rows[i].cells["author1" := Str(a1)]
        && IsPrefix(a1, t.rows[i].cells["author"].s) && !Contains(a1, " and "))
  {
    if WithAuthor1(t).Ok? && "author1" !in t.columns {
      var q := WithAuthor1(t).value;
      assert Distinct(q.columns);
      assert Labels(q.rows) == Labels(t.rows);
      forall i | 0 <= i < |t.rows| ensures t.rows[i].cells["author"].Str? && IsPrefix(BeforeFirst(t.rows[i].cells["author"].s, " and "), t.rows[i].cells["author"].s) && !Contains(BeforeFirst(t.rows[i].cells["author"].s, " and "), " and ") {
        assert t.rows[i] in t.rows;
        BeforeFirstPrefix(t.rows[i].cells["author"].s, " and ");
      }
      forall i | 0 <= i < |q.rows| ensures q.rows[i].cells.Keys == ColumnSet(q.columns) {
      }
    }
  }

  /** Adding the first-author column twice is adding it once. */
  lemma WithAuthor1Twice(t: Table)
    requires WithAuthor1(t).Ok?
    ensures WithAuthor1(WithAuthor1(t).value) == WithAuthor1(t)
  {
  }

  /**
   * `db.loc[db.k.str.contains(pat)]`: an AttributeError for a missing column or one without
   * strings; a ValueError when strings and other cells mix, as NaN in the mask.
   */
  function Narrow(cols: seq<string>, rows: seq<Row>, k: string, pat: string): Result<seq<Row>> {
    if k !in cols then Err(AttributeError)
    else if StrColumn(rows, k) then Ok(FilterRows(rows, (r: Row) => StrHas(CellOf(r.cells, k), pat)))
    else if NoStrColumn(rows, k) then Err(AttributeError)
    else Err(ValueError)
  }

  /** The year argument `search` can be given: an int or a string. */
  predicate YearArg(year: Cell) {
    year.Int? || year.Str?
  }

  /** Whether the year test is integer equality: an int column and an int argument. */
  predicate IntYear(rows: seq<Row>, year: Cell) {
    IntColumn(rows, "year") && year.Int?
  }

  /** The year mask: nothing with the default 0, equality or `str(year)` as a substring. */
  function YearMatch(cols: seq<string>, rows: seq<Row>, year: Cell): Result<seq<Row>>
    requires YearArg(year)
  {
    if year == Int(0) then Ok(rows)
    else if "year" !in cols then Err(AttributeError)
    else if IntYear(rows, year) then Ok(FilterRows(rows, (r: Row) => CellOf(r.cells, "year") == year))
    else Narrow(cols, rows, "year", PyStr(year))
  }

  /** The next mask of the chain, skipped when its argument is `''`. */
  function Then(cols: seq<string>, prev: Result<seq<Row>>, k: string, arg: string, pat: string): Result<seq<Row>> {
    if prev.Err? || arg == "" then prev else Narrow(cols, prev.value, k, pat)
  }

  /** The filter chain of `search` on a table that has its `author1` column. */
  function SearchIn(t: Table, year: Cell, author: string, journal: string, author1: string): Result<Table>
    requires YearArg(year)
  {
    var y := YearMatch(t.columns, t.rows, year);
    var a := Then(t.columns, y, "author", author, author);
    var a1 := Then(t.columns, a, "author1", author1, author1 + ",");
    var j := Then(t.columns, a1, "journal", journal, journal);
    if j.Err? then Err(j.error) else Ok(Table(t.columns, j.value))
  }

  /** The conjunction of the non-default predicates of `search`, written on one row. */
  predicate Matches(r: Row, intYear: bool, year: Cell, author: string, journal: string, author1: string)
    requires YearArg(year)
  {
    && (year == Int(0) || (if intYear then CellOf(r.cells, "year") == year else StrHas(CellOf(r.cells, "year"), PyStr(year))))
    && (author == "" || StrHas(CellOf(r.cells, "author"), author))
    && (author1 == "" || StrHas(CellOf(r.cells, "author1"), author1 + ","))
    && (journal == "" || StrHas(CellOf(r.cells, "journal"), journal))
  }

  /** A mask that is applied only when `on`. */
  function MaskIf(on: bool, k: string, pat: string): Row -> bool {
    (r: Row) => !on || StrHas(CellOf(r.cells, k), pat)
  }

  lemma ThenFilters(cols: seq<string>, rows: seq<Row>, k: string, arg: string, pat: string)
    requires Then(cols, Ok(rows), k, arg, pat).Ok?
    ensures Then(cols, Ok(rows), k, arg, pat).value == FilterRows(rows, MaskIf(arg != "", k, pat))
  {
    if arg == "" {
      FilterRowsAll(rows, MaskIf(false, k, pat));
    } else {
      assert Narrow(cols, rows, k, pat).Ok?;
      assert forall r :: MaskIf(true, k, pat)(r) == StrHas(CellOf(r.cells, k), pat);
      FilterRowsTwice(rows, (r: Row) => true, MaskIf(true, k, pat), (r: Row) => StrHas(CellOf(r.cells, k), pat));
      FilterRowsAll(rows, (r: Row) => true);
    }
  }

  /** The year mask `search` applies. */
  function YearMask(rows: seq<Row>, year: Cell): Row -> bool
    requires YearArg(year)
  {
    (r: Row) => year == Int(0) || (if IntYear(rows, year) then CellOf(r.cells, "year") == year else StrHas(CellOf(r.cells, "year"), PyStr(year)))
  }

  lemma YearFilters(cols: seq<string>, rows: seq<Row>, year: Cell)
    requires YearArg(year) && YearMatch(cols, rows, year).Ok?
    ensures YearMatch(cols, rows, year).value == FilterRows(rows, YearMask(rows, year))
  {
    var m := YearMask(rows, year);
    if year == Int(0) {
      FilterRowsAll(rows, m);
    } else if IntYear(rows, year) {
      FilterRowsTwice(rows, (r: Row) => true, (r: Row) => CellOf(r.cells, "year") == year, m);
      FilterRowsAll(rows, (r: Row) => true);
    } else {
      FilterRowsTwice(rows, (r: Row) => true, (r: Row) => StrHas(CellOf(r.cells, "year"), PyStr(year)), m);
      FilterRowsAll(rows, (r: Row) => true);
    }
  }

  /** The rows `search` returns are those of four successive masks. */
  lemma SearchStages(t: Table, year: Cell, author: string, journal: string, author1: string)
    requires YearArg(year) && SearchIn(t, year, author, journal, author1).Ok?
    ensures var q := SearchIn(t, year, author, journal, author1).value;
      && q.columns == t.columns
      && q.rows == FilterRows(FilterRows(FilterRows(FilterRows(t.rows, YearMask(t.rows, year)),
        MaskIf(author != "", "author", author)), MaskIf(author1 != "", "author1", author1 + ",")),
        MaskIf(journal != "", "journal", journal))
  {
    var y := YearMatch(t.columns, t.rows, year);
    var a := Then(t.columns, y, "author", author, author);
    var a1 := Then(t.columns, a, "author1", author1, author1 + ",");
    YearFilters(t.columns, t.rows, year);
    ThenFilters(t.columns, y.value, "author", author, author);
    ThenFilters(t.columns, a.value, "author1", author1, author1 + ",");
    ThenFilters(t.columns, a1.value, "journal", journal, journal);
  }

  /** Four successive masks keep, in order, exactly the rows that pass all four. */
  lemma FilterFour(rows: seq<Row>, p1: Row -> bool, p2: Row -> bool, p3: Row -> bool, p4: Row -> bool)
    ensures var q := FilterRows(FilterRows(FilterRows(FilterRows(rows, p1), p2), p3), p4);
      && IsSubseq(q, rows)
      && forall r :: r in q <==> r in rows && p1(r) && p2(r) && p3(r) && p4(r)
  {
    var p12 := (r: Row) => p1(r) && p2(r);
    var p123 := (r: Row) => p12(r) && p3(r);
    var all := (r: Row) => p123(r) && p4(r);
    FilterRowsTwice(rows, p1, p2, p12);
    FilterRowsTwice(rows, p12, p3, p123);
    FilterRowsTwice(rows, p123, p4, all);
    FilterRowsSpec(rows, all);
  }

  /**
   * What `search` returns, when it succeeds, is an order-preserving selection of the table's
   * rows with its columns, holding exactly the rows that satisfy every non-default predicate.
   */
  lemma SearchSpec(t: Table, year: Cell, author: string, journal: string, author1: string)
    requires YearArg(year) && SearchIn(t, year, author, journal, author1).Ok?
    ensures var q := SearchIn(t, year, author, journal, author1).value;
      && q.columns == t.columns && IsSubseq(q.rows, t.rows)
      && forall r :: r in q.rows <==> r in t.rows && Matches(r, IntYear(t.rows, year), year, author, journal, author1)
  {
    SearchStages(t, year, author, journal, author1);
    FilterFour(t.rows, YearMask(t.rows, year), MaskIf(author != "", "author", author),
      MaskIf(author1 != "", "author1", author1 + ","), MaskIf(journal != "", "journal", journal));
  }

  /** With every argument at its default `search` returns the whole table. */
  lemma SearchDefaults(t: Table)
    ensures SearchIn(t, Int(0), "", "", "") == Ok(t)
  {
  }

  /** A mask over strings succeeds on rows drawn from a table whose column holds only strings. */
  lemma ThenOk(cols: seq<string>, rows: seq<Row>, all: seq<Row>, k: string, arg: string, pat: string)
    requires forall r :: r in rows ==> r in all
    requires arg != "" ==> k in cols && StrColumn(all, k)
    ensures Then(cols, Ok(rows), k, arg, pat).Ok?
    ensures forall r :: r in Then(cols, Ok(rows), k, arg, pat).value ==> r in all
  {
    if arg != "" {
      FilterRowsSpec(rows, (r: Row) => StrHas(CellOf(r.cells, k), pat));
    }
  }

  lemma YearOk(cols: seq<string>, rows: seq<Row>, year: Cell)
    requires YearArg(year)
    requires year != Int(0) ==> "year" in cols && (StrColumn(rows, "year") || IntYear(rows, year))
    ensures YearMatch(cols, rows, year).Ok?
    ensures forall r :: r in YearMatch(cols, rows, year).value ==> r in rows
  {
    if year != Int(0) && !IntYear(rows, year) {
      FilterRowsSpec(rows, (r: Row) => StrHas(CellOf(r.cells, "year"), PyStr(year)));
    } else if year != Int(0) {
      FilterRowsSpec(rows, (r: Row) => CellOf(r.cells, "year") == year);
    }
  }

  /**
   * `search` never fails when every column it tests is there and holds only strings (an
   * int argument against an int year column is fine too).
   */
  lemma SearchSucceeds(t: Table, year: Cell, author: string, journal: string, author1: string)
    requires YearArg(year)
    requires year != Int(0) ==> "year" in t.columns && (StrColumn(t.rows, "year") || IntYear(t.rows, year))
    requires author != "" ==> "author" in t.columns && StrColumn(t.rows, "author")
    requires author1 != "" ==> "author1" in t.columns && StrColumn(t.rows, "author1")
    requires journal != "" ==> "journal" in t.columns && StrColumn(t.rows, "journal")
    ensures SearchIn(t, year, author, journal, author1).Ok?
  {
    var y := YearMatch(t.columns, t.rows, year);
    YearOk(t.columns, t.rows, year);
    var a := Then(t.columns, y, "author", author, author);
    ThenOk(t.columns, y.value, t.rows, "author", author, author);
    var a1 := Then(t.columns, a, "author1", author1, author1 + ",");
    ThenOk(t.columns, a.value, t.rows, "author1", author1, author1 + ",");
    ThenOk(t.columns, a1.value, t.rows, "journal", journal, journal);
  }

  /**
   * `search(pd_db, ...)`: first the in-place `author1` column, then the filter chain. A
   * failure of the first step leaves the table as it was.
   */
  method Search(db: Frame, year: Cell, author: string, journal: string, author1: string) returns (r: Result<Table>)
    requires YearArg(year)
    modifies db
    ensures WithAuthor1(old(db.Value())).Err? ==>
      r == Err(WithAuthor1(old(db.Value())).error) && db.Value() == old(db.Value())
    ensures WithAuthor1(old(db.Value())).Ok? ==>
      db.Value() == WithAuthor1(old(db.Value())).value && r == SearchIn(db.Value(), year, author, journal, author1)
  {
    var t := WithAuthor1(db.Value());
    if t.Err? {
      return Err(t.error);
    }
    db.columns, db.rows := t.value.columns, t.value.rows;
    r := SearchIn(db.Value(), year, author, journal, author1);
  }

  const QuickColumns: seq<string> := ["year", "author", "title", "journal"]

  /** `pd_db[["year", "author", "title", "journal"]]`. */
  function Quickview(t: Table): (r: Result<Table>)
    ensures r.Ok? <==> "year" in t.columns && "author" in t.columns && "title" in t.columns && "journal" in t.columns
    ensures r.Err? ==> r.error.KeyError? && r.error.key in QuickColumns && r.error.key !in t.columns
    ensures r.Ok? ==> r.value.columns == QuickColumns && Labels(r.value.rows) == Labels(t.rows)
    ensures r.Ok? && WellFormed(t) ==> forall i :: 0 <= i < |t.rows| ==>
      r.value.rows[i].cells.Keys == ColumnSet(QuickColumns) &&
      forall c :: c in QuickColumns ==> r.value.rows[i].cells[c] == t.rows[i].cells[c]
  {
    Project(t, QuickColumns)
  }

  // ---------------------------------------------------------------------------------
  // check_filedb

  /** One row of the file table `build_pd` gives: the path and the fields of its name. */
  datatype Pdf = Pdf(path: string, year: string, authorS: string, journal: string)

  /** Every row of `f` has string cells `local-url`, `year`, `author_s` and `journal`. */
  predicate PdfTable(f: Table) {
    forall i, k :: 0 <= i < |f.rows| && k in PaperColumns ==> k in f.rows[i].cells && f.rows[i].cells[k].Str?
  }

  function PdfOf(f: Table, i: int): Pdf
    requires PdfTable(f) && 0 <= i < |f.rows|
  {
    var c := f.rows[i].cells;
    assert "local-url" in PaperColumns && "year" in PaperColumns && "author_s" in PaperColumns && "journal" in PaperColumns;
    Pdf(c["local-url"].s, c["year"].s, c["author_s"].s, c["journal"].s)
  }

  function PdfsOf(f: Table): (ps: seq<Pdf>)
    requires PdfTable(f)
    ensures |ps| == |f.rows|
  {
    seq(|f.rows|, i requires 0 <= i < |f.rows| => PdfOf(f, i))
  }

  /** The table `build_pd` builds is one `check_filedb` reads, one file per row in order. */
  lemma BuildPdPdfs(files: seq<string>)
    requires BuildPdResult(files).Ok? && BuildPdResult(files).value.Some?
    ensures var f := BuildPdResult(files).value.value;
      && PdfTable(f)
      && forall i :: 0 <= i < |files| ==>
        PdfsOf(f)[i] == var e := PaperEntryOf(files[i]); Pdf(files[i], e.year, e.authorS, e.journal)
  {
    GoodPrefixAll(files);
  }

  /** `e.lower().find(f_res['journal'].lower()) > -1`. */
  predicate JournalHit(r: Row, fj: string) {
    var c := CellOf(r.cells, "journal");
    c.Str? && Contains(Lower(c.s), Lower(fj))
  }

  /** The number of candidates whose lowercased journal contains the file's. */
  function Hits(rows: seq<Row>, fj: string): nat
    decreases |rows|
  {
    if |rows| == 0 then 0 else (if JournalHit(rows[0], fj) then 1 else 0) + Hits(rows[1..], fj)
  }

  /** The hits are the candidates a journal mask keeps. */
  lemma {:induction false} HitsSpec(rows: seq<Row>, fj: string)
    ensures Hits(rows, fj) == |FilterRows(rows, (r: Row) => JournalHit(r, fj))|
    ensures Hits(rows, fj) == 0 <==> forall r :: r in rows ==> !JournalHit(r, fj)
    ensures Hits(rows, fj) <= |rows|
    decreases |rows|
  {
    if |rows| > 0 {
      HitsSpec(rows[1..], fj);
      assert rows == [rows[0]] + rows[1..];
    }
  }

  /**
   * `found`: one for a lone candidate with an empty journal, plus one per candidate whose
   * journal matches.
   */
  function Found(rows: seq<Row>, fj: string): nat {
    (if |rows| == 1 && CellOf(rows[0].cells, "journal") == Str("") then 1 else 0) + Hits(rows, fj)
  }

  /** All candidates carry one title: `len(set(p_res['title'])) == 1`. */
  predicate SameTitles(rows: seq<Row>) {
    forall i :: 0 <= i < |rows| ==> CellOf(rows[i].cells, "title") == CellOf(rows[0].cells, "title")
  }

  function TitleSet(rows: seq<Row>): set<Cell> {
    set r | r in rows :: CellOf(r.cells, "title")
  }

  /** Two members of a one-element set are equal. */
  lemma SingletonMembers<T>(s: set<T>, a: T, b: T)
    requires |s| == 1 && a in s && b in s
    ensures a == b
  {
    var rest := s - {a};
    assert s == rest + {a} && rest * {a} == {};
    assert |rest| == 0;
    assert b !in rest;
  }

  /** On a non-empty list the title set is a single title exactly when all titles agree. */
  lemma TitleSetOne(rows: seq<Row>)
    requires |rows| > 0
    ensures |TitleSet(rows)| == 1 <==> SameTitles(rows)
  {
    var t0 := CellOf(rows[0].cells, "title");
    assert t0 in TitleSet(rows);
    if SameTitles(rows) {
      forall x | x in TitleSet(rows) ensures x == t0 {
        var r :| r in rows && CellOf(r.cells, "title") == x;
        var i :| 0 <= i < |rows| && rows[i] == r;
      }
      assert TitleSet(rows) == {t0};
    }
    if |TitleSet(rows)| == 1 {
      forall i | 0 <= i < |rows| ensures CellOf(rows[i].cells, "title") == t0 {
        var x := CellOf(rows[i].cells, "title");
        assert x in TitleSet(rows);
        SingletonMembers(TitleSet(rows), t0, x);
      }
    }
  }

  /** What `check_filedb` does with one file, given its candidates. */
  datatype Verdict = Linked(row: int) | Unmatched | Review(view: Table) | Raised(error: Error)

  /** `return quickview(p_res)`: the view to review, or the KeyError its projection raises. */
  function ReviewOf(p: Table): (v: Verdict)
    ensures v.Review? || v.Raised?
    ensures v.Review? <==> Quickview(p).Ok?
    ensures v.Review? ==> Quickview(p) == Ok(v.view)
    ensures v.Raised? ==> Quickview(p) == Err(v.error)
  {
    match Quickview(p)
    case Ok(q) => Review(q)
    case Err(e) => Raised(e)
  }

  /** The decision on the candidates `p` that `search` found for file `f`. */
  function Decide(p: Table, f: Pdf): Verdict {
    if "year" !in p.columns then Raised(KeyError("year"))
    else if |p.rows| == 0 then Unmatched
    else if "journal" !in p.columns then Raised(KeyError("journal"))
    else if !StrColumn(p.rows, "journal") then Raised(AttributeError)
    else
      var n := Found(p.rows, f.journal);
      if n == 0 then ReviewOf(p)
      else if n > 1 && "title" !in p.columns then Raised(KeyError("title"))
      else if n > 1 && !SameTitles(p.rows) then ReviewOf(p)
      else Linked(p.rows[0].index)
  }

  /**
   * On candidates with string journals the decision is: link the first candidate when `found`
   * is one, or more than one with a single title; stop for review when `found` is zero, or
   * more than one with several titles, raising the KeyError of `quickview` when the
   * candidates lack one of its columns.
   */
  lemma DecideSpec(p: Table, f: Pdf)
    requires "year" in p.columns && "journal" in p.columns && "title" in p.columns
    requires |p.rows| > 0 && StrColumn(p.rows, "journal")
    ensures var n, v := Found(p.rows, f.journal), Decide(p, f);
      && n == (if |p.rows| == 1 && p.rows[0].cells["journal"] == Str("") then 1 else 0)
              + |FilterRows(p.rows, (r: Row) => JournalHit(r, f.journal))|
      && (v.Linked? <==> n == 1 || (n > 1 && SameTitles(p.rows)))
      && (v.Linked? ==> v.row == p.rows[0].index)
      && (v.Review? || v.Raised? <==> n == 0 || (n > 1 && !SameTitles(p.rows)))
      && (v.Review? ==> Quickview(p) == Ok(v.view))
      && (v.Raised? ==> Quickview(p) == Err(v.error))
  {
    HitsSpec(p.rows, f.journal);
    assert p.rows[0] in p.rows;
  }

  /** `pd_db.at[l, 'local-url'] = path` and then `pd_db.at[l, 'file'] = path`. */
  function Link(t: Table, l: int, path: string): Table {
    SetAt(SetAt(t, l, "local-url", Str(path)), l, "file", Str(path))
  }

  /**
   * Linking sets exactly the `local-url` and `file` cells of the row labelled `l`; every
   * other cell keeps its value (a cell of a newly added column is missing elsewhere).
   */
  lemma LinkSpec(t: Table, l: int, path: string)
    requires WellFormed(t)
    ensures var q := Link(t, l, path);
      && WellFormed(q) && Labels(q.rows) == Labels(t.rows)
      && q.columns == AddName(AddName(t.columns, "local-url"), "file")
      && forall i :: 0 <= i < |t.rows| ==>
        && (t.rows[i].index == l ==> q.rows[i].cells == t.rows[i].cells["local-url" := Str(path)]["file" := Str(path)])
        && (t.rows[i].index != l ==>
          && (forall k :: k in t.rows[i].cells ==> k in q.rows[i].cells && q.rows[i].cells[k] == t.rows[i].cells[k])
          && (forall k :: k in q.rows[i].cells && k !in t.rows[i].cells ==> q.rows[i].cells[k] == NA))
  {
    SetAtWellFormed(t, l, "local-url", Str(path));
    SetAtWellFormed(SetAt(t, l, "local-url", Str(path)), l, "file", Str(path));
  }

  /** One step of the loop: the table after it and the verdict on the file. */
  datatype Step = Step(t: Table, verdict: Verdict)

  /**
   * One file: `int(year)`, `search` by year and first author (adding `author1` in place),
   * the decision, and the link when it is one.
   */
  function CheckOne(t: Table, f: Pdf): Step {
    var y := ParseInt(f.year);
    if y.None? then Step(t, Raised(ValueError))
    else
      var a := WithAuthor1(t);
      if a.Err? then Step(t, Raised(a.error))
      else
        var s := SearchIn(a.value, Int(y.value), "", "", f.authorS);
        if s.Err? then Step(a.value, Raised(s.error))
        else
          var v := Decide(s.value, f);
          if v.Linked? then Step(Link(a.value, v.row, f.path), v) else Step(a.value, v)
  }

  /** How the loop ends: all files seen with `count` links, or stopped at a file. */
  datatype Outcome = Finished(count: nat) | Stopped(file: nat, view: Table) | Failed(file: nat, error: Error)

  /** The loop from file `i` on, with `count` links so far. */
  function CheckFrom(t: Table, pdfs: seq<Pdf>, i: nat, count: nat): (Outcome, Table)
    decreases |pdfs| - i
  {
    if i >= |pdfs| then (Finished(count), t)
    else
      var st := CheckOne(t, pdfs[i]);
      match st.verdict
      case Linked(_) => CheckFrom(st.t, pdfs, i + 1, count + 1)
      case Unmatched => CheckFrom(st.t, pdfs, i + 1, count)
      case Review(v) => (Stopped(i, v), st.t)
      case Raised(e) => (Failed(i, e), st.t)
  }

  /** The loop over the candidates' journals. */
  method CountHits(rows: seq<Row>, fj: string) returns (n: nat)
    ensures n == Hits(rows, fj)
  {
    n := 0;
    var lj := Lower(fj);
    for i := 0 to |rows|
      invariant n + Hits(rows[i..], fj) == Hits(rows, fj)
    {
      assert rows[i..][1..] == rows[i + 1..];
      var e := CellOf(rows[i].cells, "journal");
      if e.Str? && Contains(Lower(e.s), lj) {
        n := n + 1;
      }
    }
  }

  /** The tests on the candidates of one file, through `found`. */
  method DecideCandidates(p: Table, f: Pdf) returns (v: Verdict)
    ensures v == Decide(p, f)
  {
    if "year" !in p.columns {
      return Raised(KeyError("year"));
    }
    if |p.rows| == 0 {
      return Unmatched;
    }
    if "journal" !in p.columns {
      return Raised(KeyError("journal"));
    }
    if !StrColumn(p.rows, "journal") {
      return Raised(AttributeError);
    }
    var found := 0;
    if |p.rows| == 1 && CellOf(p.rows[0].cells, "journal") == Str("") {
      found := 1;
    }
    var hits := CountHits(p.rows, f.journal);
    found := found + hits;
    if found == 0 {
      return ReviewOf(p);
    }
    if found > 1 {
      if "title" !in p.columns {
        return Raised(KeyError("title"));
      }
      TitleSetOne(p.rows);
      if |TitleSet(p.rows)| != 1 {
        return ReviewOf(p);
      }
    }
    v := Linked(p.rows[0].index);
  }

  /** The body of the loop for one file: search in place, decide, and link in place. */
  method CheckFile(db: Frame, f: Pdf) returns (v: Verdict)
    modifies db
    ensures var st := CheckOne(old(db.Value()), f); v == st.verdict && db.Value() == st.t
  {
    var y := ParseInt(f.year);
    if y.None? {
      return Raised(ValueError);
    }
    var pres := Search(db, Int(y.value), "", "", f.authorS);
    if pres.Err? {
      return Raised(pres.error);
    }
    v := DecideCandidates(pres.value, f);
    if v.Linked? {
      var q := Link(db.Value(), v.row, f.path);
      db.columns, db.rows := q.columns, q.rows;
    }
  }

  /**
   * `check_filedb(pd_db, f_db)`: each file in turn is searched for and linked into `pd_db`
   * in place, until a file needs review or raises.
   */
  method CheckFiledb(db: Frame, f: Table) returns (out: Outcome)
    requires PdfTable(f)
    modifies db
    ensures (out, db.Value()) == CheckFrom(old(db.Value()), PdfsOf(f), 0, 0)
  {
    ghost var pdfs := PdfsOf(f);
    var count := 0;
    var i := 0;
    while i < |f.rows|
      invariant 0 <= i <= |f.rows|
      invariant CheckFrom(db.Value(), pdfs, i, count) == CheckFrom(old(db.Value()), pdfs, 0, 0)
    {
      var v := CheckFile(db, PdfOf(f, i));
      match v {
        case Linked(_) =>
          count := count + 1;
        case Unmatched =>
        case Review(w) =>
          return Stopped(i, w);
        case Raised(e) =>
          return Failed(i, e);
      }
      i := i + 1;
    }
    out := Finished(count);
  }

  /** Every link counts one file, so the loop links at most the files it has left. */
  lemma {:induction false} CheckCountBound(t: Table, pdfs: seq<Pdf>, i: nat, count: nat)
    requires i <= |pdfs|
    ensures CheckFrom(t, pdfs, i, count).0.Finished? ==> CheckFrom(t, pdfs, i, count).0.count <= count + |pdfs| - i
    decreases |pdfs| - i
  {
    if i < |pdfs| {
      var st := CheckOne(t, pdfs[i]);
      if st.verdict.Linked? {
        CheckCountBound(st.t, pdfs, i + 1, count + 1);
      } else if st.verdict.Unmatched? {
        CheckCountBound(st.t, pdfs, i + 1, count);
      }
    }
  }

  /** `count` never exceeds the number of files. */
  lemma CheckCount(t: Table, pdfs: seq<Pdf>)
    ensures CheckFrom(t, pdfs, 0, 0).0.Finished? ==> CheckFrom(t, pdfs, 0, 0).0.count <= |pdfs|
  {
    CheckCountBound(t, pdfs, 0, 0);
  }

  /**
   * A file that links nothing (no candidate, a review, an error) leaves the table as it was,
   * except for the `author1` column the search adds when the table has none.
   */
  lemma CheckOneUnlinked(t: Table, f: Pdf)
    requires !CheckOne(t, f).verdict.Linked?
    ensures var st := CheckOne(t, f);
      st.t == t || (WithAuthor1(t).Ok? && st.t == WithAuthor1(t).value)
    ensures "author1" in t.columns ==> CheckOne(t, f).t == t
  {
  }

  /** Adding the first-author column keeps the row labels. */
  lemma WithAuthor1Labels(t: Table)
    requires WithAuthor1(t).Ok?
    ensures Labels(WithAuthor1(t).value.rows) == Labels(t.rows)
  {
  }

  /** The result of a linking step, read off its definition. */
  lemma LinkedStep(t: Table, f: Pdf)
    requires CheckOne(t, f).verdict.Linked?
    ensures ParseInt(f.year).Some? && WithAuthor1(t).Ok?
    ensures var a := WithAuthor1(t).value;
      var s := SearchIn(a, Int(ParseInt(f.year).value), "", "", f.authorS);
      && s.Ok? && |s.value.rows| > 0 && CheckOne(t, f).verdict.row == s.value.rows[0].index
      && CheckOne(t, f).t == Link(a, s.value.rows[0].index, f.path)
  {
  }

  /** The first candidate of a search is a row of the table that satisfies the search. */
  lemma FirstCandidate(a: Table, year: Cell, author1: string)
    requires YearArg(year) && SearchIn(a, year, "", "", author1).Ok? && |SearchIn(a, year, "", "", author1).value.rows| > 0
    ensures var r := SearchIn(a, year, "", "", author1).value.rows[0];
      r in a.rows && r.index in Labels(a.rows) && Matches(r, IntYear(a.rows, year), year, "", "", author1)
  {
    SearchSpec(a, year, "", "", author1);
    var r := SearchIn(a, year, "", "", author1).value.rows[0];
    assert r in SearchIn(a, year, "", "", author1).value.rows;
    var m :| 0 <= m < |a.rows| && a.rows[m] == r;
    assert Labels(a.rows)[m] == r.index;
  }

  /**
   * A file that links does so on the first candidate `search` found for its year and first
   * author, a row of the table; with LinkSpec only that row's `local-url` and `file` change.
   */
  lemma CheckOneLinked(t: Table, f: Pdf)
    requires CheckOne(t, f).verdict.Linked?
    ensures ParseInt(f.year).Some? && WithAuthor1(t).Ok?
    ensures var a := WithAuthor1(t).value;
      var y := Int(ParseInt(f.year).value);
      var s := SearchIn(a, y, "", "", f.authorS);
      var l := CheckOne(t, f).verdict.row;
      && s.Ok? && |s.value.rows| > 0 && l == s.value.rows[0].index
      && s.value.rows[0] in a.rows && l in Labels(t.rows)
      && Matches(s.value.rows[0], IntYear(a.rows, y), y, "", "", f.authorS)
      && CheckOne(t, f).t == Link(a, l, f.path)
  {
    LinkedStep(t, f);
    WithAuthor1Labels(t);
    FirstCandidate(WithAuthor1(t).value, Int(ParseInt(f.year).value), f.authorS);
  }

  /** One step of the loop that goes on to the next file. */
  lemma CheckFromNext(t: Table, pdfs: seq<Pdf>, i: nat, count: nat)
    requires i < |pdfs|
    requires var v := CheckOne(t, pdfs[i]).verdict; v.Linked? || v.Unmatched?
    ensures var st := CheckOne(t, pdfs[i]);
      CheckFrom(t, pdfs, i, count) == CheckFrom(st.t, pdfs, i + 1, if st.verdict.Linked? then count + 1 else count)
  {
  }

  /** One step of the loop that stops at file `i`. */
  lemma CheckFromStop(t: Table, pdfs: seq<Pdf>, i: nat, count: nat)
    requires i < |pdfs|
    requires var v := CheckOne(t, pdfs[i]).verdict; v.Review? || v.Raised?
    ensures var st := CheckOne(t, pdfs[i]);
      CheckFrom(t, pdfs, i, count) == (if st.verdict.Review? then Stopped(i, st.verdict.view) else Failed(i, st.verdict.error), st.t)
  {
  }

  /**
   * Once a file stops the loop (review or error) the files after it are never looked at:
   * appending more files changes neither the outcome nor the table.
   */
  lemma {:induction false} CheckStopsEarly(t: Table, pdfs: seq<Pdf>, more: seq<Pdf>, i: nat, count: nat)
    requires i <= |pdfs| && !CheckFrom(t, pdfs, i, count).0.Finished?
    ensures CheckFrom(t, pdfs + more, i, count) == CheckFrom(t, pdfs, i, count)
    decreases |pdfs| - i
  {
    assert i < |pdfs|;
    assert (pdfs + more)[i] == pdfs[i];
    var st := CheckOne(t, pdfs[i]);
    if st.verdict.Linked? || st.verdict.Unmatched? {
      var c := if st.verdict.Linked? then count + 1 else count;
      CheckFromNext(t, pdfs, i, count);
      CheckFromNext(t, pdfs + more, i, count);
      CheckStopsEarly(st.t, pdfs, more, i + 1, c);
    } else {
      CheckFromStop(t, pdfs, i, count);
      CheckFromStop(t, pdfs + more, i, count);
    }
  }
}
