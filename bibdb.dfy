/**
 * The bibliography table of bibdb.py: duplicate scoring (`compare_bib_dict`), lookup by
 * score (`find_bib_dict`), merging of two entries (`merge_items`), normalisation of a
 * loaded bibtex table (`clean_db`) and the sort/reindex tail of `read_bibfiles`.
 */
module BibDb {
  import opened Strings
  import opened Sorting
  import opened Frames
  import opened Bibdesk

  // ---------------------------------------------------------------------------------
  // compare_bib_dict

  /** The identifier columns: one equal, non-empty value makes two entries the same. */
  const IdColumns: seq<string> := ["doi", "pmid", "pmcid", "title", "local-url"]

  /** The descriptive columns and their weights, in tenths written as reals. */
  const ScoreFields: seq<(string, real)> :=
    [("year", 0.2), ("author", 0.2), ("author1", 0.1), ("journal", 0.2), ("volume", 0.1)]

  /** The ten columns the score reads. */
  predicate ScoreColumn(c: string) {
    c in IdColumns || c in ["year", "author", "author1", "journal", "volume"]
  }

  /** Python's `==` on two cells: numbers compare by value, NaN equals nothing. */
  predicate PyEq(a: Cell, b: Cell) {
    && a != NA && b != NA
    && if Rank(a) == 0 && Rank(b) == 0 then NumValue(a) == NumValue(b) else a == b
  }

  /** A column matches when item1's value (default "1") is not `''` and equals item2's (default "2"). */
  predicate FieldMatch(item1: Record, item2: Record, c: string) {
    Get(item1, c, Str("1")) != Str("") && PyEq(Get(item1, c, Str("1")), Get(item2, c, Str("2")))
  }

  /** The `for c in col_list` loop that returns 1.0 at the first identifier match. */
  predicate AnyIdMatch(item1: Record, item2: Record, cols: seq<string>)
    decreases |cols|
  {
    |cols| > 0 && (FieldMatch(item1, item2, cols[0]) || AnyIdMatch(item1, item2, cols[1..]))
  }

  /** `_get_score`: the weight when item1's value is non-empty and equal to item2's. */
  function FieldScore(item1: Record, item2: Record, f: (string, real)): real {
    if Get(item1, f.0, Str("1")) == Str("") then 0.0
    else if Get(item1, f.0, Str("2")) == Str("") then 0.0
    else if PyEq(Get(item1, f.0, Str("1")), Get(item2, f.0, Str("2"))) then f.1
    else 0.0
  }

  /** The running `score = score + _get_score(...)` over the descriptive columns. */
  function WeightedScore(item1: Record, item2: Record, fields: seq<(string, real)>): real
    decreases |fields|
  {
    if |fields| == 0 then 0.0
    else FieldScore(item1, item2, fields[0]) + WeightedScore(item1, item2, fields[1..])
  }

  function TotalWeight(fields: seq<(string, real)>): real
    decreases |fields|
  {
    if |fields| == 0 then 0.0 else fields[0].1 + TotalWeight(fields[1..])
  }

  function CompareBibDict(item1: Record, item2: Record): real {
    if AnyIdMatch(item1, item2, IdColumns) then 1.0 else WeightedScore(item1, item2, ScoreFields)
  }

  lemma {:induction false} AnyIdMatchIff(item1: Record, item2: Record, cols: seq<string>)
    ensures AnyIdMatch(item1, item2, cols) <==> exists k :: 0 <= k < |cols| && FieldMatch(item1, item2, cols[k])
    decreases |cols|
  {
    if |cols| > 0 {
      AnyIdMatchIff(item1, item2, cols[1..]);
      if exists k :: 0 <= k < |cols| && FieldMatch(item1, item2, cols[k]) {
        var k :| 0 <= k < |cols| && FieldMatch(item1, item2, cols[k]);
        if k > 0 {
          assert FieldMatch(item1, item2, cols[1..][k - 1]);
        }
      }
      if AnyIdMatch(item1, item2, cols[1..]) {
        var k :| 0 <= k < |cols[1..]| && FieldMatch(item1, item2, cols[1..][k]);
        assert FieldMatch(item1, item2, cols[k + 1]);
      }
    }
  }

  /**
   * With positive weights the weighted score lies between 0 and the total weight, and
   * reaches the total exactly when every field matches.
   */
  lemma {:induction false} WeightedScoreBounds(item1: Record, item2: Record, fields: seq<(string, real)>)
    requires forall k :: 0 <= k < |fields| ==> fields[k].1 > 0.0
    ensures 0.0 <= WeightedScore(item1, item2, fields) <= TotalWeight(fields)
    ensures WeightedScore(item1, item2, fields) == TotalWeight(fields) <==>
      forall k :: 0 <= k < |fields| ==> FieldMatch(item1, item2, fields[k].0)
    decreases |fields|
  {
    if |fields| > 0 {
      WeightedScoreBounds(item1, item2, fields[1..]);
      var f := fields[0];
      assert FieldScore(item1, item2, f) == if FieldMatch(item1, item2, f.0) then f.1 else 0.0;
      if forall k :: 0 <= k < |fields| ==> FieldMatch(item1, item2, fields[k].0) {
        assert forall k :: 0 <= k < |fields[1..]| ==> FieldMatch(item1, item2, fields[1..][k].0) by {
          forall k | 0 <= k < |fields[1..]| ensures FieldMatch(item1, item2, fields[1..][k].0) {
            assert fields[1..][k] == fields[k + 1];
          }
        }
      } else {
        var k :| 0 <= k < |fields| && !FieldMatch(item1, item2, fields[k].0);
        if k > 0 {
          assert fields[1..][k - 1] == fields[k];
        }
      }
    }
  }

  /**
   * The score is 1.0 exactly on an identifier match; otherwise it is between 0 and 0.8,
   * and 0.8 exactly when year, author, author1, journal and volume all match.
   */
  lemma CompareBibDictSpec(item1: Record, item2: Record)
    ensures CompareBibDict(item1, item2) == 1.0 <==>
      exists k :: 0 <= k < |IdColumns| && FieldMatch(item1, item2, IdColumns[k])
    ensures !AnyIdMatch(item1, item2, IdColumns) ==>
      && 0.0 <= CompareBibDict(item1, item2) <= 0.8
      && (CompareBibDict(item1, item2) == 0.8 <==>
          forall k :: 0 <= k < |ScoreFields| ==> FieldMatch(item1, item2, ScoreFields[k].0))
    ensures 0.0 <= CompareBibDict(item1, item2) <= 1.0
  {
    AnyIdMatchIff(item1, item2, IdColumns);
    WeightedScoreBounds(item1, item2, ScoreFields);
    assert TotalWeight(ScoreFields) == 0.8;
  }

  lemma {:induction false} AnyIdMatchCongruent(a: Record, b: Record, a2: Record, b2: Record, cols: seq<string>)
    requires forall k :: 0 <= k < |cols| ==> FieldMatch(a, b, cols[k]) == FieldMatch(a2, b2, cols[k])
    ensures AnyIdMatch(a, b, cols) == AnyIdMatch(a2, b2, cols)
    decreases |cols|
  {
    if |cols| > 0 {
      assert forall k :: 0 <= k < |cols[1..]| ==> cols[1..][k] == cols[k + 1];
      AnyIdMatchCongruent(a, b, a2, b2, cols[1..]);
    }
  }

  lemma {:induction false} WeightedScoreCongruent(a: Record, b: Record, a2: Record, b2: Record, fields: seq<(string, real)>)
    requires forall k :: 0 <= k < |fields| ==> FieldScore(a, b, fields[k]) == FieldScore(a2, b2, fields[k])
    ensures WeightedScore(a, b, fields) == WeightedScore(a2, b2, fields)
    decreases |fields|
  {
    if |fields| > 0 {
      assert forall k :: 0 <= k < |fields[1..]| ==> fields[1..][k] == fields[k + 1];
      WeightedScoreCongruent(a, b, a2, b2, fields[1..]);
    }
  }

  /** The score depends on nothing but the per-column match outcomes. */
  lemma CompareCongruent(a: Record, b: Record, a2: Record, b2: Record)
    requires forall c :: ScoreColumn(c) ==>
      Get(a, c, Str("1")) == Get(a2, c, Str("1")) && Get(a, c, Str("2")) == Get(a2, c, Str("2")) &&
      Get(b, c, Str("2")) == Get(b2, c, Str("2"))
    ensures CompareBibDict(a, b) == CompareBibDict(a2, b2)
  {
    AnyIdMatchCongruent(a, b, a2, b2, IdColumns);
    WeightedScoreCongruent(a, b, a2, b2, ScoreFields);
  }

  /** Keeps only the ten scored columns of a record. */
  function ScoredPart(r: Record): (s: Record)
    ensures forall c :: c in s <==> c in r && ScoreColumn(c)
  {
    map c | c in r && ScoreColumn(c) :: r[c]
  }

  /** Columns other than the ten scored ones never affect the score. */
  lemma CompareIgnoresOtherColumns(item1: Record, item2: Record)
    ensures CompareBibDict(item1, item2) == CompareBibDict(ScoredPart(item1), ScoredPart(item2))
  {
    CompareCongruent(item1, item2, ScoredPart(item1), ScoredPart(item2));
  }

  /** A column that is `''` in item1 contributes nothing: item2's value there is irrelevant. */
  lemma CompareIgnoresEmptyField(item1: Record, item2: Record, c: string, v: Cell)
    requires c in item1 && item1[c] == Str("")
    ensures CompareBibDict(item1, item2) == CompareBibDict(item1, item2[c := v])
  {
    AnyIdMatchCongruent(item1, item2, item1, item2[c := v], IdColumns);
    WeightedScoreCongruent(item1, item2, item1, item2[c := v], ScoreFields);
  }

  /** Two rows that both carry all ten columns score the same in either order. */
  lemma {:induction false} CompareSymmetric(item1: Record, item2: Record)
    requires forall c :: ScoreColumn(c) ==> c in item1 && c in item2
    ensures CompareBibDict(item1, item2) == CompareBibDict(item2, item1)
  {
    assert forall k :: 0 <= k < |IdColumns| ==> FieldMatch(item1, item2, IdColumns[k]) == FieldMatch(item2, item1, IdColumns[k]) by {
      forall k | 0 <= k < |IdColumns| ensures FieldMatch(item1, item2, IdColumns[k]) == FieldMatch(item2, item1, IdColumns[k]) {
        assert ScoreColumn(IdColumns[k]);
      }
    }
    assert forall k :: 0 <= k < |ScoreFields| ==> FieldScore(item1, item2, ScoreFields[k]) == FieldScore(item2, item1, ScoreFields[k]) by {
      forall k | 0 <= k < |ScoreFields| ensures FieldScore(item1, item2, ScoreFields[k]) == FieldScore(item2, item1, ScoreFields[k]) {
        assert ScoreColumn(ScoreFields[k].0);
      }
    }
    AnyIdMatchCongruent(item1, item2, item2, item1, IdColumns);
    WeightedScoreCongruent(item1, item2, item2, item1, ScoreFields);
  }

  /**
   * Without all ten keys the score is not symmetric: the `.get` default "2" of item2
   * equals a literal title "2" in item1.
   */
  lemma CompareDefaultsAsymmetric()
    ensures CompareBibDict(map["title" := Str("2")], map[]) == 1.0
    ensures CompareBibDict(map[], map["title" := Str("2")]) == 0.0
  {
    var a: Record := map["title" := Str("2")];
    var e: Record := map[];
    assert FieldMatch(a, e, IdColumns[3]);
    assert !AnyIdMatch(e, a, IdColumns[4..]);
    assert !AnyIdMatch(e, a, IdColumns);
  }

  // ---------------------------------------------------------------------------------
  // find_bib_dict

  /** The table after `pd_db["score"] = [compare_bib_dict(bib_dict, pd_db.loc[x]) for x in pd_db.index]`. */
  function Scored(rows: seq<Row>, bib: Record): (r: seq<Row>)
    ensures |r| == |rows| && Labels(r) == Labels(rows)
  {
    MapRows(rows, (r: Row) => ScoreRow(bib, r))
  }

  function ScoreRow(bib: Record, r: Row): (s: Row)
    ensures s.index == r.index && ScoreOf(s) == CompareBibDict(bib, r.cells)
  {
    Row(r.index, r.cells["score" := Num(CompareBibDict(bib, r.cells))])
  }

  function ScoreOf(r: Row): real {
    match CellOf(r.cells, "score")
    case Num(x) => x
    case _ => 0.0
  }

  /** `pd_db.loc[pd_db["score"] > threshold]`. */
  function Above(rows: seq<Row>, threshold: real): seq<Row> {
    FilterRows(rows, (r: Row) => ScoreOf(r) > threshold)
  }

  function ScoresOf(rows: seq<Row>): (s: seq<real>)
    ensures |s| == |rows|
  {
    seq(|rows|, i requires 0 <= i < |rows| => ScoreOf(rows[i]))
  }

  /** What `find_bib_dict` hands back: the matching rows, or their labels and scores. */
  datatype Found = Matches(table: Table) | MatchIndex(labels: seq<int>, scores: seq<real>)

  /**
   * Scoring and then selecting by score is selecting the original rows whose score beats
   * the threshold, in their original order, each with its `score` cell added.
   */
  lemma AboveScored(rows: seq<Row>, bib: Record, threshold: real)
    ensures Above(Scored(rows, bib), threshold) ==
      Scored(FilterRows(rows, (r: Row) => CompareBibDict(bib, r.cells) > threshold), bib)
  {
    FilterMapRows(rows, (r: Row) => ScoreRow(bib, r), (r: Row) => ScoreOf(r) > threshold,
      (r: Row) => CompareBibDict(bib, r.cells) > threshold);
  }

  /**
   * The rows `find_bib_dict` selects are exactly those with score above the threshold,
   * each rows' score is its `compare_bib_dict` value, and each is a row of the input.
   */
  lemma FindBibDictSelects(rows: seq<Row>, bib: Record, threshold: real)
    ensures var hits := Above(Scored(rows, bib), threshold);
      && Labels(hits) == Labels(FilterRows(rows, (r: Row) => CompareBibDict(bib, r.cells) > threshold))
      && (forall k :: 0 <= k < |hits| ==> ScoresOf(hits)[k] > threshold)
      && IsSubseq(hits, Scored(rows, bib))
  {
    AboveScored(rows, bib, threshold);
    var p := (r: Row) => ScoreOf(r) > threshold;
    FilterRowsSpec(Scored(rows, bib), p);
    var hits := Above(Scored(rows, bib), threshold);
    forall k | 0 <= k < |hits| ensures ScoresOf(hits)[k] > threshold {
      assert hits[k] in hits;
    }
  }

  /** `find_bib_dict`: writes the `score` column into the table, then selects by it. */
  method FindBibDict(db: Frame, bib: Record, index: bool, threshold: real) returns (res: Found)
    requires db.Valid()
    modifies db
    ensures db.Valid()
    ensures db.columns == AddName(old(db.columns), "score")
    ensures db.rows == Scored(old(db.rows), bib)
    ensures var hits := Above(db.rows, threshold);
      res == if index then MatchIndex(Labels(hits), ScoresOf(hits)) else Matches(Table(db.columns, hits))
  {
    var rows := db.rows;
    var scores: seq<real> := [];
    var i := 0;
    while i < |rows|
      invariant 0 <= i <= |rows| && |scores| == i
      invariant forall k :: 0 <= k < i ==> scores[k] == CompareBibDict(bib, rows[k].cells)
    {
      scores := scores + [CompareBibDict(bib, rows[i].cells)];
      i := i + 1;
    }
    db.rows := seq(|rows|, k requires 0 <= k < |rows| =>
      Row(rows[k].index, rows[k].cells["score" := Num(scores[k])]));
    assert db.rows == Scored(rows, bib);
    AddNameSpec(db.columns, "score");
    db.columns := AddName(db.columns, "score");
    var hits := Above(db.rows, threshold);
    if index {
      res := MatchIndex(Labels(hits), ScoresOf(hits));
    } else {
      res := Matches(Table(db.columns, hits));
    }
  }

  // ---------------------------------------------------------------------------------
  // merge_items

  /** Row `keep` with each of its `''` cells taken from row `other`. */
  function FillEmpty(keep: Record, other: Record): Record {
    map c | c in keep :: if keep[c] == Str("") && c in other then other[c] else keep[c]
  }

  /**
   * Filling keeps the columns and every non-empty cell, takes the other row's value for
   * every empty one, leaves `''` only where both rows have it, and a second fill changes
   * nothing.
   */
  lemma FillEmptySpec(keep: Record, other: Record)
    ensures FillEmpty(keep, other).Keys == keep.Keys
    ensures forall c :: c in keep && keep[c] != Str("") ==> FillEmpty(keep, other)[c] == keep[c]
    ensures forall c :: c in keep && keep[c] == Str("") && c in other ==> FillEmpty(keep, other)[c] == other[c]
    ensures forall c :: c in keep && c in other && FillEmpty(keep, other)[c] == Str("") ==>
      keep[c] == Str("") && other[c] == Str("")
    ensures FillEmpty(FillEmpty(keep, other), other) == FillEmpty(keep, other)
  {
  }

  /** Filling never lowers the score of a row against the row it was filled from. */
  lemma FillEmptyRaisesScore(keep: Record, other: Record)
    ensures CompareBibDict(FillEmpty(keep, other), other) >= CompareBibDict(keep, other)
  {
    var f := FillEmpty(keep, other);
    assert forall c :: FieldMatch(keep, other, c) ==> FieldMatch(f, other, c);
    CompareBibDictSpec(keep, other);
    AnyIdMatchMonotone(keep, f, other, IdColumns);
    if !AnyIdMatch(f, other, IdColumns) {
      ScoreMonotone(keep, f, other, ScoreFields);
    }
  }

  lemma {:induction false} AnyIdMatchMonotone(a: Record, f: Record, b: Record, cols: seq<string>)
    requires forall c :: FieldMatch(a, b, c) ==> FieldMatch(f, b, c)
    ensures AnyIdMatch(a, b, cols) ==> AnyIdMatch(f, b, cols)
    decreases |cols|
  {
    if |cols| > 0 {
      AnyIdMatchMonotone(a, f, b, cols[1..]);
    }
  }

  lemma {:induction false} ScoreMonotone(a: Record, f: Record, b: Record, fields: seq<(string, real)>)
    requires forall k :: 0 <= k < |fields| ==> fields[k].1 > 0.0
    requires forall c :: FieldMatch(a, b, c) ==> FieldMatch(f, b, c)
    ensures WeightedScore(f, b, fields) >= WeightedScore(a, b, fields)
    decreases |fields|
  {
    if |fields| > 0 {
      ScoreMonotone(a, f, b, fields[1..]);
      assert FieldScore(a, b, fields[0]) == if FieldMatch(a, b, fields[0].0) then fields[0].1 else 0.0;
      assert FieldScore(f, b, fields[0]) == if FieldMatch(f, b, fields[0].0) then fields[0].1 else 0.0;
    }
  }

  /** The cells of `keep` filled from `other` for the columns handled so far. */
  function PartialFill(keep: Record, other: Record, done: set<string>): Record {
    map c | c in keep :: if c in done && keep[c] == Str("") && c in other then other[c] else keep[c]
  }

  /** A label absent from the table: the key pandas' `.loc` complains about. */
  function MissingLabel(rows: seq<Row>, idx1: int, idx2: int): string {
    if idx1 !in Labels(rows) then IntToStr(idx1) else IntToStr(idx2)
  }

  /**
   * The successful merge leaves the table without the row labelled `idx2`; the row
   * labelled `idx1` is the filled one and every other row and label is as before.
   */
  lemma {:induction false} MergedTable(t: Table, idx1: int, idx2: int, filled: Record)
    requires WellFormed(t) && idx1 != idx2 && idx1 in Labels(t.rows)
    ensures var updated := t.rows[IndexOf(t.rows, idx1) := Row(idx1, filled)];
      && Labels(LabelDrop(updated, idx2)) == Labels(LabelDrop(t.rows, idx2))
      && IsSubseq(LabelDrop(updated, idx2), updated)
      && forall r :: r in LabelDrop(updated, idx2) <==>
           r.index != idx2 && (r == Row(idx1, filled) || (r in t.rows && r.index != idx1))
  {
    var p := IndexOf(t.rows, idx1);
    var updated := t.rows[p := Row(idx1, filled)];
    assert Labels(updated) == Labels(t.rows);
    LabelDropLabels(updated, t.rows, idx2);
    FilterRowsSpec(updated, (r: Row) => r.index != idx2);
    forall r ensures r in updated <==> r == Row(idx1, filled) || (r in t.rows && r.index != idx1) {
      if r == Row(idx1, filled) {
        assert updated[p] == r;
      }
      if r in t.rows && r.index != idx1 {
        var m :| 0 <= m < |t.rows| && t.rows[m] == r;
        assert updated[m] == r;
      }
      if r in updated && r != Row(idx1, filled) {
        var m :| 0 <= m < |updated| && updated[m] == r;
        assert m != p && updated[m] == t.rows[m];
        assert Labels(t.rows)[m] != Labels(t.rows)[p];
      }
    }
  }

  lemma {:induction false} LabelDropLabels(a: seq<Row>, b: seq<Row>, l: int)
    requires Labels(a) == Labels(b)
    ensures Labels(LabelDrop(a, l)) == Labels(LabelDrop(b, l))
    decreases |a|
  {
    if |a| > 0 {
      assert |b| > 0 && a[0].index == Labels(a)[0] == Labels(b)[0] == b[0].index;
      assert Labels(a[1..]) == Labels(a)[1..] && Labels(b[1..]) == Labels(b)[1..];
      LabelDropLabels(a[1..], b[1..], l);
      if a[0].index != l {
        assert Labels([a[0]] + LabelDrop(a[1..], l)) == [a[0].index] + Labels(LabelDrop(a[1..], l));
        assert Labels([b[0]] + LabelDrop(b[1..], l)) == [b[0].index] + Labels(LabelDrop(b[1..], l));
      }
    }
  }

  /**
   * What `merge_items` returns and what the table's rows are afterwards: the same label or
   * a score under 0.8 leaves the table as it is; otherwise the empty cells of row `idx1`
   * are filled from row `idx2` and the table without row `idx2` is returned.
   */
  function MergeOutcome(t: Table, idx1: int, idx2: int): (Result<(bool, Table)>, seq<Row>) {
    if idx1 == idx2 then (Ok((false, t)), t.rows)
    else if idx1 !in Labels(t.rows) || idx2 !in Labels(t.rows) then
      (Err(KeyError(MissingLabel(t.rows, idx1, idx2))), t.rows)
    else
      var a := t.rows[IndexOf(t.rows, idx1)].cells;
      var b := t.rows[IndexOf(t.rows, idx2)].cells;
      if CompareBibDict(a, b) < 0.8 then (Ok((false, t)), t.rows)
      else
        var updated := t.rows[IndexOf(t.rows, idx1) := Row(idx1, FillEmpty(a, b))];
        (Ok((true, Table(t.columns, LabelDrop(updated, idx2)))), updated)
  }

  /**
   * A merge reports failure with the table untouched unless the labels differ, both exist
   * and the score reaches 0.8; a successful merge keeps the table well formed and returns
   * it without row `idx2`, with row `idx1` filled from row `idx2` and every other row and
   * label in place.
   */
  lemma MergeOutcomeSpec(t: Table, idx1: int, idx2: int)
    requires WellFormed(t)
    ensures var (r, rows) := MergeOutcome(t, idx1, idx2);
      && WellFormed(Table(t.columns, rows))
      && (r.Err? ==>
           rows == t.rows && r.error.KeyError? && (idx1 !in Labels(t.rows) || idx2 !in Labels(t.rows)))
      && (r.Ok? && !r.value.0 ==> rows == t.rows && r.value.1 == t)
      && (r.Ok? && r.value.0 <==>
           && idx1 != idx2 && idx1 in Labels(t.rows) && idx2 in Labels(t.rows)
           && CompareBibDict(t.rows[IndexOf(t.rows, idx1)].cells, t.rows[IndexOf(t.rows, idx2)].cells) >= 0.8)
      && (r.Ok? && r.value.0 ==>
           && Labels(r.value.1.rows) == Labels(LabelDrop(t.rows, idx2))
           && WellFormed(r.value.1)
           && IsSubseq(r.value.1.rows, rows)
           && var filled := FillEmpty(t.rows[IndexOf(t.rows, idx1)].cells, t.rows[IndexOf(t.rows, idx2)].cells);
              forall q :: q in r.value.1.rows <==>
                q.index != idx2 && (q == Row(idx1, filled) || (q in t.rows && q.index != idx1)))
  {
    var (r, rows) := MergeOutcome(t, idx1, idx2);
    if r.Ok? && r.value.0 {
      var a := t.rows[IndexOf(t.rows, idx1)].cells;
      var b := t.rows[IndexOf(t.rows, idx2)].cells;
      FillEmptySpec(a, b);
      MergedTable(t, idx1, idx2, FillEmpty(a, b));
      assert Labels(rows) == Labels(t.rows);
      FilterRowsWellFormed(Table(t.columns, rows), (r: Row) => r.index != idx2);
    }
  }

  lemma PartialFillStep(a: Record, b: Record, done: set<string>, col: string)
    requires col in a && col in b && col !in done
    ensures var cur := PartialFill(a, b, done);
      (if cur[col] == Str("") then cur[col := b[col]] else cur) == PartialFill(a, b, done + {col})
  {
  }

  /** The column loop of `merge_items`: each `''` cell of the row at `p1` takes the value of the row at `p2`. */
  method FillRowInPlace(db: Frame, p1: nat, p2: nat)
    requires p1 < |db.rows| && p2 < |db.rows| && p1 != p2
    requires db.rows[p1].cells.Keys == ColumnSet(db.columns) && db.rows[p2].cells.Keys == ColumnSet(db.columns)
    requires Distinct(db.columns)
    modifies db
    ensures db.columns == old(db.columns)
    ensures db.rows == old(db.rows)[p1 := Row(old(db.rows[p1].index), FillEmpty(old(db.rows[p1].cells), old(db.rows[p2].cells)))]
  {
    var a, b, l := db.rows[p1].cells, db.rows[p2].cells, db.rows[p1].index;
    var cols := db.columns;
    ghost var rows0 := db.rows;
    assert ColumnSet(cols[..0]) == {};
    var cur := a;
    assert cur == PartialFill(a, b, {});
    assert rows0[p1 := Row(l, a)] == rows0;
    var k := 0;
    while k < |cols|
      invariant 0 <= k <= |cols| && cols == db.columns == old(db.columns)
      invariant cur == PartialFill(a, b, ColumnSet(cols[..k]))
      invariant |db.rows| == |rows0| && db.rows == rows0[p1 := Row(l, cur)]
    {
      var col := cols[k];
      assert col !in ColumnSet(cols[..k]);
      assert ColumnSet(cols[..k + 1]) == ColumnSet(cols[..k]) + {col};
      PartialFillStep(a, b, ColumnSet(cols[..k]), col);
      if cur[col] == Str("") {
        cur := cur[col := b[col]];
      }
      db.rows := db.rows[p1 := Row(l, cur)];
      k := k + 1;
    }
    assert cols[..k] == cols;
    assert PartialFill(a, b, ColumnSet(cols)) == FillEmpty(a, b);
  }

  /** `merge_items`, with the table's rows updated in place. */
  method MergeItems(db: Frame, idx1: int, idx2: int) returns (r: Result<(bool, Table)>)
    requires db.Valid()
    modifies db
    ensures db.columns == old(db.columns)
    ensures (r, db.rows) == MergeOutcome(old(db.Value()), idx1, idx2)
  {
    if idx1 == idx2 {
      return Ok((false, db.Value()));
    }
    if idx1 !in Labels(db.rows) || idx2 !in Labels(db.rows) {
      return Err(KeyError(MissingLabel(db.rows, idx1, idx2)));
    }
    var p1 := IndexOf(db.rows, idx1);
    var p2 := IndexOf(db.rows, idx2);
    var score := CompareBibDict(db.rows[p1].cells, db.rows[p2].cells);
    if score < 0.8 {
      return Ok((false, db.Value()));
    }
    assert Labels(db.rows)[p1] != Labels(db.rows)[p2];
    FillRowInPlace(db, p1, p2);
    r := Ok((true, Table(db.columns, LabelDrop(db.rows, idx2))));
  }

  // ---------------------------------------------------------------------------------
  // clean_db

  const DoiResolver: string := "https://doi.org/"

  /** `p['doi'].str.replace("https://doi.org/", "")`; a cell that is not a string becomes NaN. */
  function StripDoi(c: Cell): Cell {
    match c
    case Str(s) => Str(Replace(s, DoiResolver, ""))
    case _ => NA
  }

  /** `p['uri'].str.slice(31, -1)`. */
  function UriDoi(c: Cell): Cell {
    match c
    case Str(s) => Str(PySlice(s, 31, -1))
    case _ => NA
  }

  /** `p['read'].fillna('False')` and then `p.fillna('')` on one cell. */
  function FillCell(k: string, c: Cell): Cell {
    if c != NA then c else if k == "read" then Str("False") else Str("")
  }

  /** The `read` default and the fills on one row. */
  function Filled(cells: Record): Record {
    var f := map k | k in cells :: FillCell(k, cells[k]);
    if "read" in cells then f else f["read" := Bool(false)]
  }

  /** The column names `clean_db` adds. */
  predicate Added(cols: seq<string>, x: string) {
    x == "read" || x == "url" || x == "author" || x == "author1" || x == "pmid" || x == "pmcid" ||
    (x == "doi" && "uri" in cols)
  }

  /** The column names `clean_db` drops. */
  predicate Dropped(cols: seq<string>, x: string) {
    x == "uri" || x == "bdsk-file-1" || x == "file" ||
    ("bdsk-url-1" in cols && (x == "bdsk-url-1" || x == "bdsk-url-2"))
  }

  /** The columns of `cols` that `clean_db` keeps, in their order. */
  function Undropped(cols: seq<string>, orig: seq<string>): seq<string>
    decreases |cols|
  {
    if |cols| == 0 then []
    else (if Dropped(orig, cols[0]) then [] else [cols[0]]) + Undropped(cols[1..], orig)
  }

  /** The names the source assigns to, in the order it assigns them. */
  function AssignedNames(cols: seq<string>): seq<string> {
    ["read"] + (if "uri" in cols then ["doi"] else []) + ["url", "author", "author1", "pmid", "pmcid"]
  }

  /** The assigned names the table does not yet have: pandas appends those as new columns. */
  function Appended(cols: seq<string>, names: seq<string>): seq<string>
    decreases |names|
  {
    if |names| == 0 then []
    else (if names[0] in cols then [] else [names[0]]) + Appended(cols, names[1..])
  }

  /**
   * The columns of the cleaned table: the kept ones in their order, then those the source
   * appends, in the order it appends them.
   */
  function CleanColumns(cols: seq<string>): seq<string> {
    Undropped(cols, cols) + Appended(cols, AssignedNames(cols))
  }

  lemma {:induction false} UndroppedSpec(cols: seq<string>, orig: seq<string>)
    requires Distinct(cols)
    ensures Distinct(Undropped(cols, orig))
    ensures forall x :: x in Undropped(cols, orig) <==> x in cols && !Dropped(orig, x)
    decreases |cols|
  {
    if |cols| > 0 {
      assert Distinct(cols[1..]) by {
        forall i, j | 0 <= i < j < |cols[1..]| ensures cols[1..][i] != cols[1..][j] {
          assert cols[i + 1] != cols[j + 1];
        }
      }
      UndroppedSpec(cols[1..], orig);
      assert cols == [cols[0]] + cols[1..];
      assert cols[0] !in cols[1..] by {
        forall j | 0 <= j < |cols[1..]| ensures cols[1..][j] != cols[0] {
          assert cols[j + 1] != cols[0];
        }
      }
      DistinctAppend([cols[0]], Undropped(cols[1..], orig));
    }
  }

  lemma {:induction false} AppendedSpec(cols: seq<string>, names: seq<string>)
    requires Distinct(names)
    ensures Distinct(Appended(cols, names))
    ensures forall x :: x in Appended(cols, names) <==> x in names && x !in cols
    decreases |names|
  {
    if |names| > 0 {
      assert Distinct(names[1..]) by {
        forall i, j | 0 <= i < j < |names[1..]| ensures names[1..][i] != names[1..][j] {
          assert names[i + 1] != names[j + 1];
        }
      }
      AppendedSpec(cols, names[1..]);
      assert names == [names[0]] + names[1..];
      assert names[0] !in names[1..] by {
        forall j | 0 <= j < |names[1..]| ensures names[1..][j] != names[0] {
          assert names[j + 1] != names[0];
        }
      }
      if names[0] !in cols {
        DistinctAppend([names[0]], Appended(cols, names[1..]));
      }
    }
  }

  lemma DistinctAppend(a: seq<string>, b: seq<string>)
    requires Distinct(a) && Distinct(b) && forall x :: x in a ==> x !in b
    ensures Distinct(a + b)
  {
    forall i, j | 0 <= i < j < |a + b| ensures (a + b)[i] != (a + b)[j] {
      if i < |a| && j >= |a| {
        assert (a + b)[i] in a && (a + b)[j] == b[j - |a|];
      }
    }
  }

  /**
   * The cleaned table has every original column except the dropped Bibdesk ones, plus
   * `read`, `url`, `author`, `author1`, `pmid`, `pmcid`, and `doi` when it had `uri`;
   * its column names stay distinct.
   */
  lemma CleanColumnsSpec(cols: seq<string>)
    requires Distinct(cols)
    ensures Distinct(CleanColumns(cols))
    ensures forall x :: x in CleanColumns(cols) <==> (x in cols && !Dropped(cols, x)) || Added(cols, x)
  {
    UndroppedSpec(cols, cols);
    var names := AssignedNames(cols);
    assert Distinct(names);
    assert forall x :: x in names <==> Added(cols, x);
    AppendedSpec(cols, names);
    DistinctAppend(Undropped(cols, cols), Appended(cols, names));
  }

  lemma CleanColumnsMember(cols: seq<string>, x: string)
    requires Distinct(cols)
    ensures x in CleanColumns(cols) <==> (x in cols && !Dropped(cols, x)) || Added(cols, x)
  {
    CleanColumnsSpec(cols);
  }

  /** The Bibdesk columns are gone and the added ones are present. */
  lemma CleanColumnsShape(cols: seq<string>)
    requires Distinct(cols)
    ensures var c := CleanColumns(cols);
      && Distinct(c)
      && "uri" !in c && "bdsk-url-1" !in c && "bdsk-file-1" !in c && "file" !in c
      && ("bdsk-url-1" in cols ==> "bdsk-url-2" !in c)
      && "read" in c && "url" in c && "author" in c && "author1" in c && "pmid" in c && "pmcid" in c
      && ("doi" in cols || "uri" in cols ==> "doi" in c)
  {
    CleanColumnsSpec(cols);
    CleanColumnsGone(cols);
    CleanColumnsAdded(cols);
  }

  lemma CleanColumnsGone(cols: seq<string>)
    requires Distinct(cols)
    ensures var c := CleanColumns(cols);
      && "uri" !in c && "bdsk-url-1" !in c && "bdsk-file-1" !in c && "file" !in c
      && ("bdsk-url-1" in cols ==> "bdsk-url-2" !in c)
  {
    CleanColumnsMember(cols, "uri");
    CleanColumnsMember(cols, "bdsk-url-1");
    CleanColumnsMember(cols, "bdsk-url-2");
    CleanColumnsMember(cols, "bdsk-file-1");
    CleanColumnsMember(cols, "file");
  }

  lemma CleanColumnsAdded(cols: seq<string>)
    requires Distinct(cols)
    ensures var c := CleanColumns(cols);
      && "read" in c && "url" in c && "author" in c && "author1" in c && "pmid" in c && "pmcid" in c
      && ("doi" in cols || "uri" in cols ==> "doi" in c)
  {
    CleanColumnsMember(cols, "read");
    CleanColumnsMember(cols, "url");
    CleanColumnsMember(cols, "author");
    CleanColumnsMember(cols, "author1");
    CleanColumnsMember(cols, "pmid");
    CleanColumnsMember(cols, "pmcid");
    CleanColumnsMember(cols, "doi");
  }

  /** A second cleaning keeps the columns of the first. */
  lemma CleanColumnsTwice(cols: seq<string>)
    requires Distinct(cols)
    ensures ColumnSet(CleanColumns(CleanColumns(cols))) == ColumnSet(CleanColumns(cols))
  {
    CleanColumnsShape(cols);
    var c := CleanColumns(cols);
    CleanColumnsSpec(cols);
    CleanColumnsSpec(c);
  }

  /** `p["pmid"].astype(str)`, or `''` when the table has no `pmid`. */
  function PmidCell(cols: seq<string>, f: Record): Cell
    requires Renderable(CellOf(f, "pmid"))
  {
    if "pmid" in cols then Str(PyStr(CellOf(f, "pmid"))) else Str("")
  }

  /** The url before reconciliation: the `url` cell, or `''` when the column is added. */
  function UrlBase(cols: seq<string>, f: Record): Cell {
    if "url" in cols then CellOf(f, "url") else Str("")
  }

  /** One cell of a cleaned row, given the row after filling and the reconciled url. */
  function CleanCell(cols: seq<string>, f: Record, url: Cell, findAuthor1: Cell -> Cell, k: string): Cell
    requires Renderable(CellOf(f, "pmid"))
  {
    if k == "doi" then StripDoi(if "doi" in cols then CellOf(f, "doi") else UriDoi(CellOf(f, "uri")))
    else if k == "url" then url
    else if k == "author" then (if "author" in cols then CellOf(f, "author") else Str(""))
    else if k == "author1" then (if "author" in cols then findAuthor1(CellOf(f, "author")) else Str(""))
    else if k == "pmid" then PmidCell(cols, f)
    else if k == "pmcid" then (if "pmcid" in cols then PmidCell(cols, f) else Str(""))
    else CellOf(f, k)
  }

  function CleanRow(cols: seq<string>, cells: Record, url: Cell, findAuthor1: Cell -> Cell): Record
    requires Renderable(CellOf(cells, "pmid"))
  {
    var f := Filled(cells);
    assert CellOf(f, "pmid") == CellOf(cells, "pmid") || CellOf(f, "pmid") == Str("");
    map k | k in ColumnSet(CleanColumns(cols)) :: CleanCell(cols, f, url, findAuthor1, k)
  }

  /** The columns whose cells `str()` must render. */
  predicate RenderableColumns(t: Table) {
    forall i :: 0 <= i < |t.rows| ==>
      && Renderable(CellOf(t.rows[i].cells, "url"))
      && Renderable(CellOf(t.rows[i].cells, "bdsk-url-1"))
      && Renderable(CellOf(t.rows[i].cells, "bdsk-url-2"))
      && Renderable(CellOf(t.rows[i].cells, "pmid"))
  }

  /** The url loop reads row labels 0..N-1: each must exist. */
  predicate CoversRange(rows: seq<Row>) {
    forall i :: 0 <= i < |rows| ==> i in Labels(rows)
  }

  /** The smallest label in 0..N-1 missing from the table. */
  function SmallestAbsent(rows: seq<Row>, from: nat): (m: nat)
    requires !CoversRange(rows) && forall i :: 0 <= i < from ==> i in Labels(rows)
    ensures from <= m < |rows| && m !in Labels(rows)
    decreases |rows| - from
  {
    if from !in Labels(rows) then from else SmallestAbsent(rows, from + 1)
  }

  /** The error `clean_db` raises before sorting, checked in the order the source meets them. */
  function CleanDbError(p: Table): Option<Error> {
    if "uri" !in p.columns && "doi" !in p.columns then Some(KeyError("doi"))
    else if "bdsk-url-1" in p.columns && "bdsk-url-2" !in p.columns then Some(KeyError("bdsk-url-2"))
    else if "bdsk-url-1" in p.columns && !CoversRange(p.rows) then Some(KeyError(IntToStr(SmallestAbsent(p.rows, 0))))
    else None
  }

  /** The reconciled urls a run of the url loop may produce, one per row. */
  predicate UrlsAdmissible(p: Table, urls: seq<Cell>)
    requires RenderableColumns(p)
  {
    && |urls| == |p.rows|
    && forall i :: 0 <= i < |p.rows| ==>
      var f := Filled(p.rows[i].cells);
      if "bdsk-url-1" in p.columns then
        UrlChoice(UrlBase(p.columns, f), CellOf(f, "bdsk-url-1"), CellOf(f, "bdsk-url-2"), urls[i])
      else urls[i] == UrlBase(p.columns, f)
  }

  /** The table before its final sort: every row cleaned, labels as they were. */
  function Cleaned(p: Table, urls: seq<Cell>, findAuthor1: Cell -> Cell): Table
    requires RenderableColumns(p) && |urls| == |p.rows|
  {
    Table(CleanColumns(p.columns), seq(|p.rows|, i requires 0 <= i < |p.rows| =>
      Row(p.rows[i].index, CleanRow(p.columns, p.rows[i].cells, urls[i], findAuthor1))))
  }

  /**
   * `clean_db`: fails with the first KeyError the source meets, otherwise cleans every row,
   * reconciles the urls and sorts by (year, author).
   */
  method CleanDb(p: Table, findAuthor1: Cell -> Cell) returns (r: Result<Table>, urls: seq<Cell>)
    requires WellFormed(p) && RenderableColumns(p)
    ensures CleanDbError(p).Some? ==> r == Err(CleanDbError(p).value)
    ensures CleanDbError(p).None? ==>
      UrlsAdmissible(p, urls) && r == SortReindex(Cleaned(p, urls, findAuthor1), "year", "author")
  {
    var e := CleanDbError(p);
    if e.Some? {
      return Err(e.value), [];
    }
    var n := |p.rows|;
    var filled := seq(n, i requires 0 <= i < n => Filled(p.rows[i].cells));
    urls := seq(n, i requires 0 <= i < n => UrlBase(p.columns, filled[i]));
    if "bdsk-url-1" in p.columns {
      var b1s := seq(n, i requires 0 <= i < n => CellOf(filled[i], "bdsk-url-1"));
      var b2s := seq(n, i requires 0 <= i < n => CellOf(filled[i], "bdsk-url-2"));
      urls := ReconcileUrls(urls, b1s, b2s);
    }
    r := SortReindex(Cleaned(p, urls, findAuthor1), "year", "author");
  }

  lemma StripDoiAbsent(s: string)
    requires !Contains(s, DoiResolver)
    ensures StripDoi(Str(s)) == Str(s)
  {
    ReplaceAbsent(s, DoiResolver, "");
  }

  /**
   * Every resolver is removed, scanning left to right: the first one, after a leading part
   * `a` in which none starts, is deleted and the rest is stripped the same way.
   */
  lemma StripDoiFirst(a: string, x: string)
    requires forall j :: 0 <= j < |a| ==> !IsPrefix(DoiResolver, (a + DoiResolver + x)[j..])
    ensures StripDoi(Str(a + DoiResolver + x)) == Str(a + Replace(x, DoiResolver, ""))
  {
    var pat := DoiResolver;
    ReplaceFirst(a, x, pat, "");
    assert a + "" == a;
  }

  /** A resolver written twice in front of a doi is removed both times. */
  lemma StripDoiRepeated()
    ensures StripDoi(Str(DoiResolver + DoiResolver + "10.1/x")) == Str("10.1/x")
  {
    ReplaceFront(DoiResolver + "10.1/x", DoiResolver, "");
    ReplaceFront("10.1/x", DoiResolver, "");
    ReplaceAbsent("10.1/x", DoiResolver, "");
    assert DoiResolver + DoiResolver + "10.1/x" == DoiResolver + (DoiResolver + "10.1/x");
  }

  /** Removing a resolver from the middle of a text can join its two sides into a new one. */
  lemma StripDoiSurvives()
    ensures StripDoi(Str("https://doi." + DoiResolver + "org/x")) == Str(DoiResolver + "x")
  {
    var a, x := "https://doi.", "org/x";
    var s := a + DoiResolver + x;
    forall j | 0 <= j < |a| ensures !IsPrefix(DoiResolver, s[j..]) {
      if j == 0 {
        assert s[12] == 'h' != DoiResolver[12];
        assert s[..|DoiResolver|][12] == s[12];
      } else {
        assert s[j] == a[j] != 'h';
        assert s[j..][0] == s[j];
      }
    }
    ReplaceFirst(a, x, DoiResolver, "");
    ReplaceAbsent(x, DoiResolver, "");
    assert a + "" + x == DoiResolver + "x";
  }

  /** The preconditions every row lemma below shares: a row of a table `clean_db` accepts. */
  predicate CleanableRow(cols: seq<string>, cells: Record) {
    && Distinct(cols) && cells.Keys == ColumnSet(cols)
    && Renderable(CellOf(cells, "pmid"))
    && ("doi" in cols || "uri" in cols)
  }

  /** The cleaned row has the fixed columns. */
  lemma CleanRowKeys(cols: seq<string>, cells: Record, url: Cell, findAuthor1: Cell -> Cell)
    requires CleanableRow(cols, cells)
    ensures var r := CleanRow(cols, cells, url, findAuthor1);
      && r.Keys == ColumnSet(CleanColumns(cols))
      && "read" in r && "doi" in r && "url" in r && "author" in r && "author1" in r && "pmid" in r && "pmcid" in r
  {
    CleanColumnsMember(cols, "read");
    CleanColumnsMember(cols, "doi");
    CleanColumnsMember(cols, "url");
    CleanColumnsMember(cols, "author");
    CleanColumnsMember(cols, "author1");
    CleanColumnsMember(cols, "pmid");
    CleanColumnsMember(cols, "pmcid");
  }

  /**
   * A cleaned row: `read` defaults to False, `doi` comes from `uri[31:-1]` only when the
   * table has no `doi` and loses every resolver prefix, `url` is the reconciled url,
   * `author1` is the first author, `pmcid` is a copy of `pmid` when the table had a
   * `pmcid`, and every other kept cell is the original one with NA filled by `''`.
   */
  lemma CleanRowSpec(cols: seq<string>, cells: Record, url: Cell, findAuthor1: Cell -> Cell)
    requires CleanableRow(cols, cells)
    ensures var r := CleanRow(cols, cells, url, findAuthor1);
      && "read" in r && "doi" in r && "url" in r && "author1" in r && "pmid" in r && "pmcid" in r
      && r["read"] == (if "read" in cols then FillCell("read", cells["read"]) else Bool(false))
      && r["doi"] == StripDoi(if "doi" in cols then FillCell("doi", cells["doi"]) else UriDoi(FillCell("uri", cells["uri"])))
      && r["url"] == url
      && r["author1"] == (if "author" in cols then findAuthor1(FillCell("author", cells["author"])) else Str(""))
      && r["pmid"] == (if "pmid" in cols then Str(PyStr(FillCell("pmid", cells["pmid"]))) else Str(""))
      && r["pmcid"] == (if "pmcid" in cols then r["pmid"] else Str(""))
      && forall k :: k in cols && !Dropped(cols, k) && !Added(cols, k) && k != "doi" ==> k in r && r[k] == FillCell(k, cells[k])
  {
    CleanRowKeys(cols, cells, url, findAuthor1);
    var r := CleanRow(cols, cells, url, findAuthor1);
    forall k | k in cols && !Dropped(cols, k) && !Added(cols, k) && k != "doi" ensures k in r && r[k] == FillCell(k, cells[k]) {
      CleanColumnsMember(cols, k);
    }
  }

  /**
   * A cleaned row holds no NA, given an url, a doi source that is a string or missing,
   * and a first author that is not NA.
   */
  lemma CleanRowNoNA(cols: seq<string>, cells: Record, url: Cell, findAuthor1: Cell -> Cell)
    requires CleanableRow(cols, cells) && url != NA
    requires "doi" in cols ==> cells["doi"].Str? || cells["doi"] == NA
    requires "doi" !in cols ==> cells["uri"].Str? || cells["uri"] == NA
    requires "author" in cols ==> findAuthor1(FillCell("author", cells["author"])) != NA
    ensures forall k :: k in CleanRow(cols, cells, url, findAuthor1) ==> CleanRow(cols, cells, url, findAuthor1)[k] != NA
  {
    var r := CleanRow(cols, cells, url, findAuthor1);
    forall k | k in r ensures r[k] != NA {
      CleanColumnsMember(cols, k);
    }
  }

  /** What a row looks like after one cleaning, as far as a second cleaning cares. */
  predicate CleanShaped(c: seq<string>, r: Record) {
    && Distinct(c) && r.Keys == ColumnSet(c)
    && "uri" !in c && "bdsk-url-1" !in c && "bdsk-file-1" !in c && "file" !in c
    && "read" in c && "doi" in c && "url" in c && "author" in c && "author1" in c && "pmid" in c && "pmcid" in c
    && r["pmid"].Str? && r["doi"].Str? && !Contains(r["doi"].s, DoiResolver)
    && forall k :: k in r && k != "url" && k != "author1" ==> r[k] != NA
  }

  /** One cleaning yields such a row once its doi is a string without a resolver prefix. */
  lemma CleanRowShaped(cols: seq<string>, cells: Record, url: Cell, findAuthor1: Cell -> Cell)
    requires CleanableRow(cols, cells)
    requires var d := CellOf(CleanRow(cols, cells, url, findAuthor1), "doi"); d.Str? && !Contains(d.s, DoiResolver)
    ensures CleanShaped(CleanColumns(cols), CleanRow(cols, cells, url, findAuthor1))
  {
    var r := CleanRow(cols, cells, url, findAuthor1);
    CleanRowKeys(cols, cells, url, findAuthor1);
    CleanColumnsShape(cols);
    forall k | k in r && k != "url" && k != "author1" && k != "doi" ensures r[k] != NA {
      CleanCellFilled(cols, cells, url, findAuthor1, k);
    }
  }

  /** After filling, a cell that is not computed from a parameter is never NA. */
  lemma CleanCellFilled(cols: seq<string>, cells: Record, url: Cell, findAuthor1: Cell -> Cell, k: string)
    requires CleanableRow(cols, cells)
    requires k in CleanColumns(cols) && k != "url" && k != "author1" && k != "doi"
    ensures CleanCell(cols, Filled(cells), url, findAuthor1, k) != NA
  {
    CleanColumnsMember(cols, k);
  }

  /**
   * Cleaning a row of that shape changes two cells: `pmcid` becomes a copy of `pmid`, and
   * `author1` is recomputed from `author`.
   */
  lemma CleanShapedAgain(c: seq<string>, r: Record, findAuthor1: Cell -> Cell)
    requires CleanShaped(c, r)
    ensures CleanRow(c, r, r["url"], findAuthor1) == r["pmcid" := r["pmid"]]["author1" := findAuthor1(r["author"])]
  {
    var r2 := CleanRow(c, r, r["url"], findAuthor1);
    var want := r["pmcid" := r["pmid"]]["author1" := findAuthor1(r["author"])];
    CleanShapedColumns(c, r);
    assert r2.Keys == want.Keys;
    forall k | k in r2 ensures r2[k] == want[k] {
      CleanShapedAgainAt(c, r, findAuthor1, k);
    }
  }

  /** Cleaning the columns of such a row again keeps them. */
  lemma CleanShapedColumns(c: seq<string>, r: Record)
    requires CleanShaped(c, r)
    ensures ColumnSet(CleanColumns(c)) == ColumnSet(c)
  {
    forall x ensures x in CleanColumns(c) <==> x in c {
      CleanColumnsMember(c, x);
    }
  }

  lemma CleanShapedAgainAt(c: seq<string>, r: Record, findAuthor1: Cell -> Cell, k: string)
    requires CleanShaped(c, r) && k in c
    ensures CleanCell(c, Filled(r), r["url"], findAuthor1, k)
      == (if k == "pmcid" then r["pmid"] else if k == "author1" then findAuthor1(r["author"]) else r[k])
  {
    if k == "doi" {
      StripDoiAbsent(r["doi"].s);
    }
  }

  /**
   * Cleaning a cleaned row again (as reading a fresh bibtex file does) changes two things:
   * `pmcid` becomes a copy of `pmid` even where the first pass had made it `''`, and
   * `author1` is recomputed from the filled `author`; this needs a doi that is a string
   * without any resolver prefix left.
   */
  lemma CleanRowTwice(cols: seq<string>, cells: Record, url: Cell, findAuthor1: Cell -> Cell)
    requires CleanableRow(cols, cells)
    requires var d := CellOf(CleanRow(cols, cells, url, findAuthor1), "doi"); d.Str? && !Contains(d.s, DoiResolver)
    ensures var r1 := CleanRow(cols, cells, url, findAuthor1);
      CleanRow(CleanColumns(cols), r1, CellOf(r1, "url"), findAuthor1)
        == r1["pmcid" := CellOf(r1, "pmid")]["author1" := findAuthor1(CellOf(r1, "author"))]
  {
    CleanRowShaped(cols, cells, url, findAuthor1);
    CleanShapedAgain(CleanColumns(cols), CleanRow(cols, cells, url, findAuthor1), findAuthor1);
  }

  /**
   * The table `clean_db` produces before sorting is well formed, keeps the row labels,
   * and each row's `url` is the reconciled one.
   */
  lemma CleanedSpec(p: Table, urls: seq<Cell>, findAuthor1: Cell -> Cell)
    requires WellFormed(p) && RenderableColumns(p) && CleanDbError(p).None? && UrlsAdmissible(p, urls)
    ensures var q := Cleaned(p, urls, findAuthor1);
      && WellFormed(q)
      && q.columns == CleanColumns(p.columns)
      && Labels(q.rows) == Labels(p.rows)
      && forall i :: 0 <= i < |q.rows| ==> CellOf(q.rows[i].cells, "url") == urls[i]
  {
    var q := Cleaned(p, urls, findAuthor1);
    CleanColumnsSpec(p.columns);
    assert Labels(q.rows) == Labels(p.rows);
    forall i | 0 <= i < |q.rows| ensures CellOf(q.rows[i].cells, "url") == urls[i] {
      CleanColumnsMember(p.columns, "url");
    }
  }

  /**
   * `clean_db` succeeds exactly when the table has a doi source, passes the url checks,
   * has a `year` column, and neither sort key holds a list; its result is then
   * the cleaned rows, ordered by (year, author), labelled 0..N-1.
   */
  lemma CleanDbSpec(p: Table, urls: seq<Cell>, findAuthor1: Cell -> Cell)
    requires WellFormed(p) && RenderableColumns(p) && CleanDbError(p).None? && UrlsAdmissible(p, urls)
    ensures var q := Cleaned(p, urls, findAuthor1);
      var r := SortReindex(q, "year", "author");
      && (r.Ok? <==> "year" in p.columns && Sortable(q.rows, "year") && Sortable(q.rows, "author"))
      && (r.Ok? ==>
        && r.value.columns == CleanColumns(p.columns)
        && DenseLabels(r.value.rows)
        && SortedBy(Records(r.value.rows), (a, b) => KeyLe("year", "author", a, b))
        && multiset(Records(r.value.rows)) == multiset(Records(q.rows))
        && WellFormed(r.value))
  {
    CleanedSpec(p, urls, findAuthor1);
    CleanColumnsMember(p.columns, "year");
    CleanColumnsMember(p.columns, "author");
    SortReindexSpec(Cleaned(p, urls, findAuthor1), "year", "author");
  }

  // ---------------------------------------------------------------------------------
  // read_bibfiles

  /**
   * The tail of `read_bibfiles`: `res.sort_values(by=['year', 'author1'], inplace=True)`,
   * `res.index = range(len(res))` and `res.fillna('', inplace=True)`. A failed sort
   * leaves the table as it was.
   */
  method SortAndFill(db: Frame) returns (e: Option<Error>)
    requires db.Valid()
    modifies db
    ensures var s := SortReindex(old(db.Value()), "year", "author1");
      if s.Err? then e == Some(s.error) && db.Value() == old(db.Value())
      else e == None && db.Value() == FillNA(s.value)
  {
    var s := SortReindex(db.Value(), "year", "author1");
    if s.Err? {
      return Some(s.error);
    }
    var q := FillNA(s.value);
    db.columns := q.columns;
    db.rows := q.rows;
    e := None;
  }

  /**
   * The combined table comes out with labels 0..N-1, no NA cell, and each row the filled
   * copy of a row of the sorted table, whose rows are those of the input in (year, author1)
   * order.
   */
  lemma SortAndFillSpec(t: Table)
    requires WellFormed(t)
    ensures var s := SortReindex(t, "year", "author1");
      s.Ok? ==>
        var q := FillNA(s.value);
        && WellFormed(q) && q.columns == t.columns && DenseLabels(q.rows)
        && (forall i, k :: 0 <= i < |q.rows| && k in q.rows[i].cells ==> q.rows[i].cells[k] != NA)
        && SortedBy(Records(s.value.rows), (a, b) => KeyLe("year", "author1", a, b))
        && multiset(Records(s.value.rows)) == multiset(Records(t.rows))
  {
    SortReindexSpec(t, "year", "author1");
    var s := SortReindex(t, "year", "author1");
    if s.Ok? {
      var q := FillNA(s.value);
      assert Labels(q.rows) == Labels(s.value.rows);
      forall k | 0 <= k < |q.rows| ensures q.rows[k].index == k {
        assert q.rows[k].index == Labels(q.rows)[k] == Labels(s.value.rows)[k];
      }
    }
  }
}
