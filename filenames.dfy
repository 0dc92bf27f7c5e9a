/**
 * Names of files: the csv name derived from a bibtex file name, and the two readings of a
 * PDF name `YEAR-AUTHOR-JOURNAL[-N].pdf` (the file table's and the paper table's).
 */
module FileNames {
  import opened Strings

  // ---------------------------------------------------------------------------------
  // The csv name

  /** `''.join(filename.split('.')[:-1]) + '.csv'`. */
  function CsvName(filename: string): string {
    var parts := Split(filename, '.');
    Join("", parts[..|parts| - 1]) + ".csv"
  }

  /** Deleting a character distributes over concatenation. */
  lemma {:induction false} DeleteCharConcat(a: string, b: string, c: char)
    ensures DeleteChar(a + b, c) == DeleteChar(a, c) + DeleteChar(b, c)
    decreases |a|
  {
    if |a| > 0 {
      assert (a + b)[0] == a[0];
      assert (a + b)[1..] == a[1..] + b;
      DeleteCharConcat(a[1..], b, c);
    } else {
      assert a + b == b;
    }
  }

  /** A string without the character is left as it is. */
  lemma {:induction false} DeleteCharAbsent(s: string, c: char)
    requires c !in s
    ensures DeleteChar(s, c) == s
    decreases |s|
  {
    if |s| > 0 {
      DeleteCharAbsent(s[1..], c);
      assert [s[0]] + s[1..] == s;
    }
  }

  /**
   * The csv name always ends in `.csv`; it is the name up to its last dot with every other
   * dot deleted, and just `.csv` for a name without a dot.
   */
  lemma CsvNameSpec(stem: string, ext: string)
    requires '.' !in ext
    ensures IsPrefix(".csv", CsvName(stem + "." + ext)[|CsvName(stem + "." + ext)| - 4..])
    ensures CsvName(stem + "." + ext) == DeleteChar(stem, '.') + ".csv"
    ensures '.' !in stem ==> CsvName(stem + "." + ext) == stem + ".csv"
  {
    assert stem + "." + ext == stem + ['.'] + ext;
    SplitConcat(stem, ext, '.');
    SplitNoSep(ext, '.');
    var parts := Split(stem + "." + ext, '.');
    assert parts[..|parts| - 1] == Split(stem, '.');
    JoinEmptySplit(stem, '.');
    if '.' !in stem {
      DeleteCharAbsent(stem, '.');
    }
  }

  /** A name without a dot loses all of itself: only `.csv` is left. */
  lemma CsvNameNoDot(filename: string)
    requires '.' !in filename
    ensures CsvName(filename) == ".csv"
  {
    SplitNoSep(filename, '.');
  }

  // ---------------------------------------------------------------------------------
  // PDF names

  /** `f.split('/')[-1]`. */
  function BaseName(path: string): string {
    Last(Split(path, '/'))
  }

  /** `fname.replace('.pdf', '').split('-')`. */
  function Segments(path: string): (r: seq<string>)
    ensures |r| >= 1
  {
    Split(Replace(BaseName(path), ".pdf", ""), '-')
  }

  /** The copy numbers `['1', '2', '3', '4', '5']` a name may end in. */
  predicate IsCopyNumber(s: string) {
    s == "1" || s == "2" || s == "3" || s == "4" || s == "5"
  }

  /** A row of the file table, read from a name. */
  datatype FileEntry = FileEntry(year: string, author1: string, journal: string, extra: string)

  /** A row of the paper table, read from a name. */
  datatype PaperEntry = PaperEntry(year: string, authorS: string, journal: string)

  /** The journal segments: all from the third, less a trailing copy number on a long name. */
  function JournalParts(tmp: seq<string>): seq<string>
    requires |tmp| >= 3
  {
    if |tmp| > 3 && IsCopyNumber(Last(tmp)) then tmp[2..|tmp| - 1] else tmp[2..]
  }

  /** How the file table reads the segments of a name, with `'-'.join` for the journal. */
  function FileDbFields(tmp: seq<string>): Option<FileEntry> {
    if |tmp| < 3 then None
    else
      var journal := if |tmp| > 3 then Join("-", JournalParts(tmp)) else tmp[2];
      var extra := if |tmp| > 3 && IsCopyNumber(Last(tmp)) then Last(tmp) else "";
      Some(FileEntry(tmp[0], ReplaceChar(tmp[1], '_', '-'), ReplaceChar(journal, '_', ' '), extra))
  }

  /** How the paper table reads the segments of a name, with `''.join` for the journal. */
  function PaperDbFields(tmp: seq<string>): Option<PaperEntry> {
    if |tmp| < 3 then None
    else
      var journal := if |tmp| > 3 then Join("", JournalParts(tmp)) else tmp[2];
      Some(PaperEntry(tmp[0], ReplaceChar(tmp[1], '_', '-'), ReplaceChar(journal, '_', ' ')))
  }

  /** Only the character the separator is made of is deleted when a join drops the separator. */
  lemma {:induction false} JoinWithoutSeparator(parts: seq<string>)
    requires forall k :: 0 <= k < |parts| ==> '-' !in parts[k]
    ensures Join("", parts) == DeleteChar(Join("-", parts), '-')
    decreases |parts|
  {
    if |parts| == 1 {
      DeleteCharAbsent(parts[0], '-');
    } else if |parts| > 1 {
      JoinWithoutSeparator(parts[1..]);
      DeleteCharConcat(parts[0] + "-", Join("-", parts[1..]), '-');
      DeleteCharConcat(parts[0], "-", '-');
      DeleteCharAbsent(parts[0], '-');
      assert parts[0] + "-" + Join("-", parts[1..]) == (parts[0] + "-") + Join("-", parts[1..]);
    }
  }

  /** Replacing `_` by a blank and deleting `-` commute. */
  lemma {:induction false} DeleteReplaceCommute(s: string)
    ensures DeleteChar(ReplaceChar(s, '_', ' '), '-') == ReplaceChar(DeleteChar(s, '-'), '_', ' ')
    decreases |s|
  {
    if |s| > 0 {
      DeleteReplaceCommute(s[1..]);
      assert ReplaceChar(s, '_', ' ')[1..] == ReplaceChar(s[1..], '_', ' ');
      if s[0] != '-' {
        assert ReplaceChar([s[0]] + DeleteChar(s[1..], '-'), '_', ' ')
          == ReplaceChar([s[0]], '_', ' ') + ReplaceChar(DeleteChar(s[1..], '-'), '_', ' ');
      }
    }
  }

  /**
   * The two readings accept the same names and agree on year and author; the paper table's
   * journal is the file table's with its `-` deleted, and only the file table keeps the copy
   * number.
   */
  lemma VariantsAgree(path: string)
    ensures var f, p := FileDbFields(Segments(path)), PaperDbFields(Segments(path));
      && (f.Some? <==> p.Some?)
      && (f.Some? ==>
        && p.value.year == f.value.year && p.value.authorS == f.value.author1
        && p.value.journal == DeleteChar(f.value.journal, '-'))
  {
    var tmp := Segments(path);
    SplitPieces(Replace(BaseName(path), ".pdf", ""), '-');
    if |tmp| > 3 {
      var parts := JournalParts(tmp);
      assert forall k :: 0 <= k < |parts| ==> '-' !in parts[k] by {
        forall k | 0 <= k < |parts| ensures '-' !in parts[k] {
          assert parts[k] == tmp[k + 2];
        }
      }
      JoinWithoutSeparator(parts);
      DeleteReplaceCommute(Join("-", parts));
    } else if |tmp| == 3 {
      DeleteCharAbsent(tmp[2], '-');
      DeleteReplaceCommute(tmp[2]);
    }
  }

  /** `.pdf` appended to a stem that does not contain it is removed again, and only it. */
  lemma {:induction false} ReplacePdfSuffix(s: string)
    requires !Contains(s, ".pdf")
    ensures Replace(s + ".pdf", ".pdf", "") == s
    decreases |s|
  {
    if |s| == 0 {
      ReplaceFront("", ".pdf", "");
      assert s + ".pdf" == ".pdf" + "";
    } else {
      var t := s + ".pdf";
      if |s| < 4 {
        assert t[|s|] == '.' && ".pdf"[|s|] != '.';
      } else {
        assert t[..4] == s[..4];
      }
      assert !IsPrefix(".pdf", t);
      assert t[1..] == s[1..] + ".pdf";
      ReplacePdfSuffix(s[1..]);
    }
  }

  /** A pattern whose first character is missing from `s` does not occur in it. */
  lemma NotContains(s: string, p: string)
    requires |p| > 0 && p[0] !in s
    ensures !Contains(s, p)
  {
    if Contains(s, p) {
      ContainsChar(s, p, 0);
    }
  }

  /** The name in a directory path is the part after the last `/`. */
  lemma BaseNameOf(dir: string, name: string)
    requires '/' !in name
    ensures BaseName(dir + "/" + name) == name
  {
    assert dir + "/" + name == dir + ['/'] + name;
    SplitConcat(dir, name, '/');
    SplitNoSep(name, '/');
  }

  /** The segments of the name `dir/SEG-SEG-….pdf`. */
  lemma SegmentsOf(dir: string, segs: seq<string>)
    requires |segs| >= 1 && Writable(segs)
    ensures Segments(PdfPath(dir, segs)) == segs
  {
    var stem := Join("-", segs);
    JoinNoChar(segs, '/');
    assert dir + "/" + stem + ".pdf" == dir + "/" + (stem + ".pdf");
    assert '/' !in stem + ".pdf";
    BaseNameOf(dir, stem + ".pdf");
    ReplacePdfSuffix(stem);
    SplitJoin(segs, '-');
  }

  /** A join of pieces free of a character other than `-` is free of it too. */
  lemma {:induction false} JoinNoChar(parts: seq<string>, c: char)
    requires c != '-'
    requires forall k :: 0 <= k < |parts| ==> c !in parts[k]
    ensures c !in Join("-", parts)
    decreases |parts|
  {
    if |parts| > 1 {
      JoinNoChar(parts[1..], c);
    }
  }

  /** The copy number a name ends in, as a segment list. */
  function CopySegment(extra: string): seq<string> {
    if extra == "" then [] else [extra]
  }

  /** The segments of a name: year, author, journal pieces, and the copy number if any. */
  function NameSegments(year: string, author: string, journal: seq<string>, extra: string): seq<string> {
    [year, author] + journal + CopySegment(extra)
  }

  /** Where a copy number may be given or left out without being misread. */
  predicate Unambiguous(journal: seq<string>, extra: string) {
    && |journal| >= 1
    && (extra == "" || IsCopyNumber(extra))
    && (extra == "" && |journal| > 1 ==> !IsCopyNumber(Last(journal)))
  }

  /** The journal pieces come back from the segments. */
  lemma NameSegmentsJournal(year: string, author: string, journal: seq<string>, extra: string)
    requires Unambiguous(journal, extra)
    ensures var tmp := NameSegments(year, author, journal, extra);
      && |tmp| >= 3 && tmp[0] == year && tmp[1] == author
      && (|tmp| > 3 ==> JournalParts(tmp) == journal)
      && (|tmp| == 3 ==> journal == [tmp[2]])
      && (|tmp| > 3 && IsCopyNumber(Last(tmp)) <==> extra != "")
      && (extra != "" ==> Last(tmp) == extra)
  {
    var tmp := NameSegments(year, author, journal, extra);
    if extra == "" {
      assert tmp == [year, author] + journal;
      if |tmp| > 3 {
        assert Last(tmp) == Last(journal);
      }
    } else {
      assert tmp == [year, author] + journal + [extra];
      assert tmp[2..|tmp| - 1] == journal;
    }
  }

  /** The file table reads the segments back. */
  lemma FileDbFieldsOf(year: string, author: string, journal: seq<string>, extra: string)
    requires Unambiguous(journal, extra)
    ensures FileDbFields(NameSegments(year, author, journal, extra))
      == Some(FileEntry(year, ReplaceChar(author, '_', '-'), ReplaceChar(Join("-", journal), '_', ' '), extra))
  {
    NameSegmentsJournal(year, author, journal, extra);
  }

  /** The paper table reads the segments back, running the journal pieces together. */
  lemma PaperDbFieldsOf(year: string, author: string, journal: seq<string>, extra: string)
    requires Unambiguous(journal, extra)
    ensures PaperDbFields(NameSegments(year, author, journal, extra))
      == Some(PaperEntry(year, ReplaceChar(author, '_', '-'), ReplaceChar(Join("", journal), '_', ' ')))
  {
    NameSegmentsJournal(year, author, journal, extra);
  }

  /** A name that can be written down at all: no segment holds `-` or `/`, and `.pdf` occurs only at the end. */
  predicate Writable(segs: seq<string>) {
    && (forall k :: 0 <= k < |segs| ==> '-' !in segs[k] && '/' !in segs[k])
    && !Contains(Join("-", segs), ".pdf")
  }

  /** The file name `dir/YEAR-AUTHOR-JOURNAL[-N].pdf`. */
  function PdfPath(dir: string, segs: seq<string>): string {
    dir + "/" + Join("-", segs) + ".pdf"
  }

  /**
   * A name written `YEAR-AUTHOR-JOURNAL[-N].pdf` reads back in the file table as its year,
   * its author with `_` turned into `-`, its journal with `_` turned into a blank, and its
   * copy number.
   */
  lemma FileDbRoundTrip(dir: string, year: string, author: string, journal: seq<string>, extra: string)
    requires Unambiguous(journal, extra) && Writable(NameSegments(year, author, journal, extra))
    ensures FileDbFields(Segments(PdfPath(dir, NameSegments(year, author, journal, extra))))
      == Some(FileEntry(year, ReplaceChar(author, '_', '-'), ReplaceChar(Join("-", journal), '_', ' '), extra))
  {
    SegmentsOf(dir, NameSegments(year, author, journal, extra));
    FileDbFieldsOf(year, author, journal, extra);
  }

  /** The same name read by the paper table: the journal pieces run together, the copy number is lost. */
  lemma PaperDbRoundTrip(dir: string, year: string, author: string, journal: seq<string>, extra: string)
    requires Unambiguous(journal, extra) && Writable(NameSegments(year, author, journal, extra))
    ensures PaperDbFields(Segments(PdfPath(dir, NameSegments(year, author, journal, extra))))
      == Some(PaperEntry(year, ReplaceChar(author, '_', '-'), ReplaceChar(Join("", journal), '_', ' ')))
  {
    SegmentsOf(dir, NameSegments(year, author, journal, extra));
    PaperDbFieldsOf(year, author, journal, extra);
  }

  /** A name with fewer than three segments is rejected by both readings. */
  lemma ShortNameRejected(dir: string, segs: seq<string>)
    requires 1 <= |segs| < 3 && Writable(segs)
    ensures FileDbFields(Segments(PdfPath(dir, segs))) == None
    ensures PaperDbFields(Segments(PdfPath(dir, segs))) == None
  {
    SegmentsOf(dir, segs);
  }

  /** Character replacement distributes over concatenation. */
  lemma ReplaceCharConcat(x: string, y: string, a: char, b: char)
    ensures ReplaceChar(x + y, a, b) == ReplaceChar(x, a, b) + ReplaceChar(y, a, b)
  {
  }

  /** A string without the character is left as it is. */
  lemma ReplaceCharAbsent(s: string, a: char, b: char)
    requires a !in s
    ensures ReplaceChar(s, a, b) == s
  {
  }

  /** Only letters, digits and `_`: none of `-`, `/` and `.`. */
  predicate PlainChars(s: string) {
    forall k :: 0 <= k < |s| ==> 'a' <= s[k] <= 'z' || 'A' <= s[k] <= 'Z' || '0' <= s[k] <= '9' || s[k] == '_'
  }

  lemma PlainPiece(s: string)
    requires PlainChars(s)
    ensures '-' !in s && '/' !in s && '.' !in s
  {
  }

  /** The segments of the example name are free of `-`, `/` and `.`. */
  lemma ExampleWritable()
    ensures Writable(["2020", "Smith_John", "Nature_Physics", "2"])
  {
    var segs := ["2020", "Smith_John", "Nature_Physics", "2"];
    PlainPiece("2020");
    PlainPiece("Smith_John");
    PlainPiece("Nature_Physics");
    PlainPiece("2");
    JoinNoChar(segs, '.');
    NotContains(Join("-", segs), ".pdf");
  }

  /**
   * `./2020-Smith_John-Nature_Physics-2.pdf` is year `2020`, author `Smith-John`, journal
   * `Nature Physics`, copy `2`.
   */
  lemma FileDbExample()
    ensures FileDbFields(Segments(PdfPath(".", ["2020", "Smith_John", "Nature_Physics", "2"])))
      == Some(FileEntry("2020", "Smith-John", "Nature Physics", "2"))
  {
    assert NameSegments("2020", "Smith_John", ["Nature_Physics"], "2") == ["2020", "Smith_John", "Nature_Physics", "2"];
    ExampleWritable();
    FileDbRoundTrip(".", "2020", "Smith_John", ["Nature_Physics"], "2");
    ExampleAuthor();
    ExampleJournal();
  }

  lemma ExampleAuthor()
    ensures ReplaceChar("Smith_John", '_', '-') == "Smith-John"
  {
    ReplaceCharConcat("Smith", "_John", '_', '-');
    ReplaceCharConcat("_", "John", '_', '-');
    ReplaceCharAbsent("Smith", '_', '-');
    ReplaceCharAbsent("John", '_', '-');
    assert "Smith_John" == "Smith" + ("_" + "John");
    assert "Smith-John" == "Smith" + ("-" + "John");
  }

  lemma ExampleJournal()
    ensures ReplaceChar(Join("-", ["Nature_Physics"]), '_', ' ') == "Nature Physics"
  {
    ReplaceCharConcat("Nature", "_Physics", '_', ' ');
    ReplaceCharConcat("_", "Physics", '_', ' ');
    ReplaceCharAbsent("Nature", '_', ' ');
    ReplaceCharAbsent("Physics", '_', ' ');
    assert "Nature_Physics" == "Nature" + ("_" + "Physics");
    assert "Nature Physics" == "Nature" + (" " + "Physics");
  }

  // ---------------------------------------------------------------------------------
  // The scan over a sorted file list

  /** A name both readings accept: at least three segments. */
  predicate WellNamed(path: string) {
    |Segments(path)| >= 3
  }

  /** The number of leading names that are well named: the sticky flag lets exactly those through. */
  function GoodPrefix(files: seq<string>): (n: nat)
    ensures n <= |files|
    ensures forall i :: 0 <= i < n ==> WellNamed(files[i])
    ensures n < |files| ==> !WellNamed(files[n])
    decreases |files|
  {
    if |files| == 0 || !WellNamed(files[0]) then 0 else 1 + GoodPrefix(files[1..])
  }

  /** The leading run ends at the first badly named file. */
  lemma GoodPrefixAt(files: seq<string>, i: nat)
    requires i < |files| && !WellNamed(files[i])
    requires forall j :: 0 <= j < i ==> WellNamed(files[j])
    ensures GoodPrefix(files) == i
  {
  }

  lemma OneSegmentWritable()
    ensures Writable(["paper"])
  {
    PlainPiece("paper");
    JoinNoChar(["paper"], '.');
    NotContains(Join("-", ["paper"]), ".pdf");
  }

  lemma OneSegmentPath()
    ensures PdfPath(".", ["paper"]) == "./paper.pdf"
  {
    assert Join("-", ["paper"]) == "paper";
  }

  /** A name with one segment, such as `./paper.pdf`, is not well named. */
  lemma OneSegmentName()
    ensures !WellNamed("./paper.pdf")
  {
    OneSegmentWritable();
    SegmentsOf(".", ["paper"]);
    OneSegmentPath();
  }

  /** The leading run is the whole list exactly when every name is well named. */
  lemma GoodPrefixAll(files: seq<string>)
    ensures GoodPrefix(files) == |files| <==> forall i :: 0 <= i < |files| ==> WellNamed(files[i])
  {
  }
}
