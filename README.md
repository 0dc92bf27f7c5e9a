# py_paperdb in Dafny

This project models the table logic of py_paperdb, a tool that keeps a bibliography as a
pandas table and links PDF files to it by their names. The model covers:

- the bibtex record matcher (`compare_bib_dict`, `find_bib_dict`, `merge_items`);
- the record normalisers (`clean_db` in bibdb.py, `from_bib` in py_paperdb.py);
- the sort-and-fill tail of `read_bibfiles`;
- the two file-name parsers (`read_dir` in filedb.py, `build_pd` in py_paperdb.py);
- `search`, `quickview` and the file linker `check_filedb`;
- the CSV-name expression and the text-trim chain of `read_txtpdf`.

The modules follow the program:

| module | file | what it holds |
|---|---|---|
| `Strings` | strings.dfy | Python's `in`, `str.replace`, `split`, `join`, slicing, `lower`, string order, `int()` |
| `Sorting` | sorting.dfy | a reference sort, proved sorted and a permutation |
| `Frames` | frames.dfy | a DataFrame: columns plus rows of (label, cells), with pandas' column assignment, drop, mask selection, `at`, `fillna`, `sort_values` with reindex, projection, and the mutable `Frame` class |
| `Bibdesk` | urls.dfy | the three-column url reconciliation loop shared by `clean_db` and `from_bib` |
| `BibDb` | bibdb.dfy | bibdb.py |
| `FileNames` | filenames.dfy | the `YEAR-AUTHOR-JOURNAL[-N].pdf` convention and the CSV name |
| `FileDb` | filedb.dfy | `read_dir` |
| `PaperDb` | paperdb.dfy | py_paperdb.py |

A DataFrame is a `Table`: a sequence of column names and a sequence of `Row(index, cells)`.

- `cells` maps each column to a `Cell`: a string, an int, a number, a bool, a list, or `NA` (pandas' missing value).
- A key that is absent from a row is distinct from a cell holding `''`, because the `.get` defaults of `compare_bib_dict` depend on it.
- Operations that pandas performs in place are methods on a `Frame` object with `modifies` clauses:
  `find_bib_dict` writes `score`, `merge_items` fills a row column by column, `search` adds `author1`, `check_filedb` writes `local-url` and `file`, and `read_bibfiles` sorts and fills.
- Each such method is proved equal to a function on the table, and the properties are lemmas about that function.
- The loops of `read_dir`, `build_pd`, `clean_db`/`from_bib` (urls) and `check_filedb` are `while`/`for` loops with invariants.

The model follows the code where its behaviour is easy to miss:

- A name with fewer than three segments does not just drop out of the file table. It makes `read_dir` and `build_pd` raise (see Findings).
- `read_dir` turns `_` in the author into `-`, not into a blank.
- `clean_db` keeps `bdsk-url-2` when there is no `bdsk-url-1`.
- `clean_db` overwrites an existing `pmcid` column with `str(pmid)`, and writes `''` when there is no `pmcid` column.
- `from_bib` overwrites `doi` from `uri` even when a `doi` column exists.
- `from_bib` drops `bdsk-file-1` only together with the url columns.

## Model

| member | source | states |
|---|---|---|
| Strings.ReplaceCharIsReplace | py_paperdb.py:49-50 | `str.replace` of one character by another is the per-character substitution used for `_`→`-` and `_`→` ` |
| Strings.JoinSplit | filedb.py:49 | joining the pieces of `split(c)` with `c` gives back the string |
| Strings.SplitJoin | filedb.py:49 | splitting a `c`-join of pieces without `c` gives back the pieces |
| Strings.JoinEmptySplit | bibdb.py:58 | `''.join(s.split(c))` is `s` with every `c` deleted |
| Strings.PySliceUri | bibdb.py:108 | `uri[31:-1]` is empty for strings of at most 32 characters and the characters 31..n-2 otherwise |
| Strings.BeforeFirstPrefix | py_paperdb.py:155 | `x.split(' and ')[0]` is a prefix of `x` without `' and '`, and is `x` itself when `x` has none |
| Strings.ParseIntToStr | py_paperdb.py:188 | `int()` reads back every integer written in decimal |
| Strings.StrLeTotal | bibdb.py:154 | string order is total |
| Strings.StrLeTrans | bibdb.py:154 | string order is transitive |
| Strings.StrLeAntisym | bibdb.py:154 | string order is antisymmetric |
| Sorting.SortByCorrect | bibdb.py:154 | the reference sort is sorted by any total preorder and is a permutation of its input |
| Frames.AddNameSpec | bibdb.py:163 | assigning a column adds its name once and keeps the names distinct |
| Frames.RemoveNameDistinct | bibdb.py:109 | dropping a column removes exactly that name and keeps the others distinct |
| Frames.RemoveNameMember | bibdb.py:128 | a name survives a drop iff it was there and is not the dropped one |
| Frames.FilterRowsSpec | bibdb.py:165 | a mask selection keeps exactly the rows satisfying the mask, as an order-preserving subsequence |
| Frames.FilterRowsAll | py_paperdb.py:163 | a mask true on every row selects the whole table |
| Frames.FilterRowsTwice | py_paperdb.py:165-172 | two selections in a row select by the conjunction |
| Frames.FilterMapRows | bibdb.py:163-165 | selecting after a row map is mapping after selecting by the composed mask |
| Frames.FilterRowsWellFormed | bibdb.py:222 | a selection (or `drop` of a label) of a well-formed table is well formed |
| Frames.KeyLeTotalPreorder | bibdb.py:154 | the two-key order of `sort_values(by=[k1, k2])` is a total preorder |
| Frames.SortReindex | bibdb.py:154-155 | the model of `sort_values(by=[k1, k2])` with `index = range(len)`; specified by Frames.SortReindexSpec |
| Frames.SortReindexSpec | bibdb.py:154-155 | sorting fails exactly for a missing key column (KeyError) or one holding a list (TypeError); a key mixing numbers and strings sorts numbers before strings; otherwise it gives the same rows as a permutation, sorted by the two keys and labelled 0..N-1 |
| Frames.FillNA | bibdb.py:90 | `fillna('')` keeps labels, columns and every present value, and leaves no missing cell |
| Frames.Project | py_paperdb.py:180 | `t[cols]` succeeds iff every column exists, and then keeps labels and exactly the chosen cells |
| Frames.IndexOf | bibdb.py:207 | `.loc[l]` finds the row whose label is `l` |
| Frames.SetAt | py_paperdb.py:212 | `.at[l, col] = v` sets that cell, adds the column with missing cells elsewhere if it is new, and keeps the labels |
| Frames.SetAtWellFormed | py_paperdb.py:212-213 | `.at` assignment keeps the table well formed |
| Bibdesk.UrlChoiceSpec | bibdb.py:120-126 | the reconciled url is `''` iff the url and both Bibdesk urls are `''`, and is the one non-empty value when there is only one |
| Bibdesk.ReconcileUrls | bibdb.py:120-127 | the loop gives one admissible url for every row |
| BibDb.AnyIdMatchIff | bibdb.py:179-183 | the identifier loop returns 1.0 iff some identifier is non-empty in item1 (default "1") and equal in item2 (default "2") |
| BibDb.WeightedScoreBounds | bibdb.py:185-199 | the weighted sum lies between 0 and the total weight, and reaches it iff every field matches |
| BibDb.CompareBibDict | bibdb.py:175-199 | the model of `compare_bib_dict`; specified by BibDb.CompareBibDictSpec, BibDb.AnyIdMatchIff and BibDb.WeightedScoreBounds |
| BibDb.CompareBibDictSpec | bibdb.py:175-199 | the score is 1.0 iff an identifier matches; otherwise it lies in [0, 0.8] and is 0.8 iff all five weighted fields match |
| BibDb.CompareCongruent | bibdb.py:181-197 | the score depends only on what `.get` returns for the ten named columns |
| BibDb.ScoredPart | bibdb.py:179-197 | the part of a record that scoring reads: the ten named columns |
| BibDb.CompareIgnoresOtherColumns | bibdb.py:179-197 | columns outside the ten named ones never change the score |
| BibDb.CompareIgnoresEmptyField | bibdb.py:182 | a field that is `''` in item1 contributes nothing, whatever item2 holds there |
| BibDb.CompareSymmetric | bibdb.py:181-197 | with all ten keys present in both records the score is symmetric |
| BibDb.CompareDefaultsAsymmetric | bibdb.py:182 | with keys missing it is not: the default "2" of item2 can equal item1's "2" one way only |
| BibDb.ScoreRow | bibdb.py:163 | the scored row keeps its label and carries its `compare_bib_dict` value |
| BibDb.Scored | bibdb.py:163 | scoring keeps the number of rows and their labels |
| BibDb.AboveScored | bibdb.py:163-165 | selecting scored rows by score is scoring the rows whose score is above the threshold |
| BibDb.FindBibDictSelects | bibdb.py:163-172 | the selected labels are exactly those scoring above the threshold, in order; each selected score is above it |
| BibDb.FindBibDict | bibdb.py:160-172 | the table gains the `score` column in place, and the result is the selected rows, or their labels and scores |
| BibDb.FillEmptySpec | bibdb.py:214-216 | filling keeps the columns and every non-empty cell, takes the other row's value for each `''` one, and is idempotent |
| BibDb.FillEmptyRaisesScore | bibdb.py:214-216 | filling a row from another never lowers its score against that row |
| BibDb.MergedTable | bibdb.py:214-222 | the merged table is the input without label idx2, with the filled row in place of idx1 and every other row as before |
| BibDb.LabelDropLabels | bibdb.py:222 | dropping a label from two row lists with the same labels leaves the same labels |
| BibDb.MergeOutcomeSpec | bibdb.py:202-222 | a merge is `(False, table)` unchanged unless the labels differ, both exist and the score reaches 0.8; a missing label is a KeyError; a merge returns the table without idx2, as an ordered selection, holding row idx1 filled from row idx2 and every other row as it was |
| BibDb.MergeOutcome | bibdb.py:202-222 | the model of `merge_items`, with the rows the in-place fill leaves; specified by BibDb.MergeOutcomeSpec |
| BibDb.FillRowInPlace | bibdb.py:214-216 | the column loop fills the `''` cells of row idx1 from row idx2 and changes no other row |
| BibDb.MergeItems | bibdb.py:202-222 | the method computes the merge outcome, with row idx1 filled in place |
| BibDb.UndroppedSpec | bibdb.py:109 | the kept columns are the original ones that are not dropped, in order |
| BibDb.AppendedSpec | bibdb.py:138-151 | assigning new columns appends exactly those not yet present |
| BibDb.CleanColumnsSpec | bibdb.py:99-151 | the cleaned columns are the non-dropped originals plus the added ones, all distinct |
| BibDb.CleanColumnsMember | bibdb.py:99-151 | a name is a cleaned column iff it is kept or added |
| BibDb.CleanColumnsShape | bibdb.py:99-151 | no `uri`, `bdsk-url-1`, `bdsk-file-1` or `file` column (nor `bdsk-url-2` when `bdsk-url-1` was there); `read`, `url`, `author`, `author1`, `pmid`, `pmcid` and `doi` are present |
| BibDb.CleanColumnsGone | bibdb.py:109-134 | the Bibdesk and `uri` columns are gone |
| BibDb.CleanColumnsAdded | bibdb.py:99-151 | the assigned columns are present |
| BibDb.CleanColumnsTwice | bibdb.py:69 | cleaning a second time keeps the columns of the first cleaning |
| BibDb.SmallestAbsent | bibdb.py:121 | the row label the url loop fails on is in 0..N-1 and absent from the table |
| BibDb.CleanDb | bibdb.py:95-157 | `clean_db` raises the KeyError of the first missing column (`doi`, `bdsk-url-2`, a label in 0..N-1), or gives the cleaned table with admissible urls, sorted by year and author and reindexed |
| BibDb.StripDoiAbsent | bibdb.py:111 | a doi without the resolver prefix is unchanged |
| BibDb.StripDoi | bibdb.py:111 | the model of `p['doi'].str.replace("https://doi.org/", "")`; specified by BibDb.StripDoiAbsent, BibDb.StripDoiFirst, BibDb.StripDoiRepeated and BibDb.StripDoiSurvives |
| BibDb.StripDoiFirst | bibdb.py:111 | every resolver is removed left to right: the first one, after a part where none starts, is deleted and the rest is stripped the same way |
| BibDb.StripDoiRepeated | bibdb.py:111 | a resolver written twice in front of a doi is removed both times |
| BibDb.StripDoiSurvives | bibdb.py:111 | removing a resolver can join the text around it into a new one, which stays: `https://doi.https://doi.org/org/x` gives `https://doi.org/x` |
| BibDb.CleanRow | bibdb.py:99-151 | the model of `clean_db`'s column assignments on one row; specified by BibDb.CleanRowSpec, BibDb.CleanRowKeys and BibDb.CleanRowNoNA |
| BibDb.CleanRowKeys | bibdb.py:99-151 | a cleaned row has exactly the cleaned columns |
| BibDb.CleanRowSpec | bibdb.py:99-151 | `read` defaults to False, then 'False' for NA; `doi` is the stripped doi, or `uri[31:-1]` without a doi column; `url` is the reconciled one; `author1` is `find_author1(author)`; `pmid` is `str(pmid)`; `pmcid` copies `pmid` when there was a `pmcid` column and is `''` otherwise; every other kept cell is only NA-filled |
| BibDb.CleanRowNoNA | bibdb.py:103 | a cleaned row holds no missing cell |
| BibDb.CleanRowShaped | bibdb.py:95-151 | a cleaned row with a resolver-free doi has the shape a second cleaning expects |
| BibDb.CleanCellFilled | bibdb.py:103 | after filling, a cell not computed from a parameter is never missing |
| BibDb.CleanShapedColumns | bibdb.py:69 | the columns of a cleaned row survive a second cleaning |
| BibDb.CleanShapedAgainAt | bibdb.py:69 | a second cleaning changes no cell except `pmcid` and `author1` |
| BibDb.CleanShapedAgain | bibdb.py:69 | cleaning such a row again sets `pmcid` to `pmid` and recomputes `author1`, and nothing else |
| BibDb.CleanRowTwice | bibdb.py:65-69 | when the first `clean_db` leaves a string doi without the resolver, `read_paperdb`'s second `clean_db` changes a row only in `pmcid` (now a copy of `pmid`) and `author1` |
| BibDb.Cleaned | bibdb.py:95-151 | the model of `clean_db` before its sort; specified by BibDb.CleanedSpec |
| BibDb.CleanedSpec | bibdb.py:95-151 | the cleaned table is well formed, has the cleaned columns and the original labels, and carries the reconciled urls |
| BibDb.CleanDbSpec | bibdb.py:153-157 | the sort succeeds iff `year` exists and neither key holds a list; then rows are a permutation, sorted by (year, author), labelled 0..N-1 |
| BibDb.SortAndFill | bibdb.py:86-90 | the frame is sorted by (year, author1), reindexed and NA-filled in place, or left unchanged with the sort's error |
| BibDb.SortAndFillSpec | bibdb.py:86-90 | the result is a well-formed, sorted permutation of the rows, labelled 0..N-1, with no missing cell |
| FileNames.CsvName | py_paperdb.py:75 | the model of `''.join(filename.split('.')[:-1]) + '.csv'`; specified by FileNames.CsvNameSpec and FileNames.CsvNameNoDot |
| FileNames.CsvNameSpec | bibdb.py:58 | the CSV name ends in `.csv` and is the name without its last suffix and with every other dot deleted |
| FileNames.CsvNameNoDot | py_paperdb.py:75 | a name without a dot gives just `.csv` |
| FileNames.Segments | filedb.py:38-39 | a name always has at least one segment |
| FileNames.VariantsAgree | py_paperdb.py:43-50 | both parsers accept the same names; year and author agree, and the paper table's journal is the file table's with `-` deleted |
| FileNames.JoinWithoutSeparator | py_paperdb.py:43 | `''.join` is the `'-'.join` with the dashes deleted |
| FileNames.NameSegmentsJournal | filedb.py:45-52 | year, author, journal pieces and copy number come back from the segments of a name whenever the copy number is unambiguous |
| FileNames.FileDbFields | filedb.py:42-58 | the model of `read_dir`'s reading of one name's segments; specified by FileNames.FileDbFieldsOf and FileNames.FileDbRoundTrip |
| FileNames.PaperDbFields | py_paperdb.py:36-50 | the model of `build_pd`'s reading of one name's segments; specified by FileNames.PaperDbFieldsOf and FileNames.PaperDbRoundTrip |
| FileNames.FileDbFieldsOf | filedb.py:42-58 | the file table reads the year, the author with `_`→`-`, the `-`-joined journal with `_`→` `, and the copy number |
| FileNames.PaperDbFieldsOf | py_paperdb.py:36-50 | the paper table reads the same with the journal joined by `''` and the copy number discarded |
| FileNames.SegmentsOf | filedb.py:38-39 | the segments of a written path are the segments it was written from |
| FileNames.FileDbRoundTrip | filedb.py:37-58 | writing a name `dir/YEAR-AUTHOR-JOURNAL[-N].pdf` and reading it back in the file table gives its fields |
| FileNames.PaperDbRoundTrip | py_paperdb.py:32-50 | the same round trip in the paper table |
| FileNames.ShortNameRejected | filedb.py:42-44 | a name with one or two segments is rejected by both parsers |
| FileNames.FileDbExample | filedb.py:37-58 | `2020-Smith_John-Nature_Physics-2.pdf` reads as year 2020, author Smith-John, journal Nature Physics, copy 2 |
| FileNames.GoodPrefix | filedb.py:34-54 | the sticky flag lets through exactly the leading well-named files, up to the first badly named one |
| FileNames.GoodPrefixAt | filedb.py:42-44 | the first badly named file ends the prefix |
| FileNames.GoodPrefixAll | filedb.py:54 | the prefix is the whole list iff every name is well formed |
| FileNames.OneSegmentName | filedb.py:42 | `./paper.pdf` has fewer than three segments |
| FileDb.FileEntries | filedb.py:54-58 | the entries the scan appends: one per leading well-named file |
| FileDb.SplitName | filedb.py:38-53 | the loop body rejoins the journal and takes the copy number; on a well-formed name it yields that name's reading |
| FileDb.ScanNames | filedb.py:30-58 | the loop appends the reading of each leading well-named file, in order, and nothing after the first bad one |
| FileDb.ReadDirResult | filedb.py:19-70 | the model of `read_dir` on a sorted file list; specified by FileDb.ReadDirFails and FileDb.ReadDirRows |
| FileDb.ReadDir | filedb.py:19-70 | the method computes `read_dir`'s result for a sorted file list |
| FileDb.ReadDirFails | filedb.py:34-60 | `read_dir` raises, with a ValueError, exactly when some name has fewer than three segments |
| FileDb.ReadDirShortName | filedb.py:42-60 | one file named `paper.pdf` makes `read_dir` raise |
| FileDb.FileRowKeys | filedb.py:60-68 | a file row has exactly the ten file-table columns |
| FileDb.FileTableWellFormed | filedb.py:27-68 | the file table is well formed with labels 0..N-1 |
| FileDb.ReadDirRows | filedb.py:22-70 | one row per file in sorted order, with the name's fields, empty `title`/`doi`/`abstract`, `[]` keywords and `sync` False |
| FileDb.WellNamedFiles | filedb.py:42-44 | the kept files are all well formed |
| FileDb.WellNamedFilesSpec | filedb.py:42-44 | the kept files are exactly the well-formed ones of the list |
| FileDb.ReadDirSkippingSpec | filedb.py:42-58 | skipping each bad file never fails, gives one row per well-formed file in order, and agrees with `read_dir` when every name is well formed |
| FileDb.SkippingAgrees | filedb.py:54-70 | with every name well formed the two builders agree |
| PaperDb.SplitPaperName | py_paperdb.py:33-45 | the loop body rejoins the journal with `''`; on a well-formed name it yields that name's reading |
| PaperDb.ScanPaperNames | py_paperdb.py:26-50 | the loop appends the reading of each leading well-named file and nothing after the first bad one |
| PaperDb.PaperEntries | py_paperdb.py:47-50 | one entry per leading well-named file |
| PaperDb.BuildPdResult | py_paperdb.py:15-56 | the model of `build_pd` on a sorted file list; specified by PaperDb.BuildPdFails and PaperDb.BuildPdRows |
| PaperDb.BuildPd | py_paperdb.py:15-56 | the method computes `build_pd`'s result for a sorted file list |
| PaperDb.BuildPdFails | py_paperdb.py:29-56 | `build_pd` raises, with a ValueError, exactly when some name has fewer than three segments |
| PaperDb.BuildPdShortName | py_paperdb.py:36-52 | one file named `paper.pdf` makes `build_pd` raise |
| PaperDb.PaperRowKeys | py_paperdb.py:24-54 | a paper row has exactly `local-url`, `year`, `author_s`, `journal` |
| PaperDb.PaperTableWellFormed | py_paperdb.py:23-54 | the paper table is well formed with labels 0..N-1 |
| PaperDb.BuildPdRows | py_paperdb.py:18-56 | one row per file in sorted order, with the name's fields |
| PaperDb.BuildPdMatchesReadDir | py_paperdb.py:32-50 | `build_pd` fails iff `read_dir` does, and agrees with it on year and author; its journal has the dashes deleted |
| PaperDb.BuildPdSkippingSpec | py_paperdb.py:36-50 | skipping each bad file never fails, gives one row per well-formed file, and agrees with `build_pd` when all are well formed |
| PaperDb.PaperSkippingAgrees | py_paperdb.py:47-56 | with every name well formed the two builders agree |
| PaperDb.TrimText | py_paperdb.py:63-67 | the model of `read_txtpdf`'s trim chain; specified by PaperDb.TrimOneLine, PaperDb.TrimLoneBreak and PaperDb.TrimParagraph |
| PaperDb.CollapseOneLine | py_paperdb.py:65-67 | the three collapsing replaces leave a one-line text unchanged |
| PaperDb.TrimOneLine | py_paperdb.py:63-67 | trimming leaves a one-line text without the marker unchanged |
| PaperDb.ParagraphsLoneBreak | py_paperdb.py:64 | a single line break is removed and the two lines are joined |
| PaperDb.TrimLoneBreak | py_paperdb.py:63-67 | trimming `a\nb` of one-line pieces gives `ab` |
| PaperDb.TrimParagraph | py_paperdb.py:63-67 | trimming `a\n\nb` of one-line pieces keeps the paragraph break |
| PaperDb.FromDictSpec | py_paperdb.py:120 | `from_dict` gives rows 0..N-1 in order, a string cell for each value and a missing cell for each absent key |
| PaperDb.FromBibTable | py_paperdb.py:120-141 | the model of `from_bib`'s normalisation once its columns are present; specified by PaperDb.FromBibShape and PaperDb.FromBibRowSpec |
| PaperDb.FromBibColumnsMember | py_paperdb.py:124-141 | the result's columns are the originals, plus `doi` when there was a `uri`, less `uri` and the Bibdesk ones |
| PaperDb.FromBibColumnsDistinct | py_paperdb.py:124-141 | the result's column names are distinct |
| PaperDb.FromBib | py_paperdb.py:117-148 | `from_bib` raises the KeyError of the first missing column (`read`, `url`, `bdsk-url-2`, `bdsk-file-1`), or gives the normalised table with admissible urls |
| PaperDb.FromBibCellStr | py_paperdb.py:122-123 | every cell `from_bib` writes is a string |
| PaperDb.FromBibRowSpec | py_paperdb.py:122-141 | `read` is 'False' where missing; `doi` becomes `uri[31:-1]` whenever there is a `uri`; `url` is the reconciled one; every other kept cell is only NA-filled |
| PaperDb.FromBibUrl | py_paperdb.py:129-140 | the url is `''` iff all three are `''`, otherwise one of them; without Bibdesk urls it is the filled `url` |
| PaperDb.FromBibShape | py_paperdb.py:120-141 | the normalised table is well formed, labelled 0..N-1, with `url` and `read`, and without the dropped columns |
| PaperDb.SameUrlRule | py_paperdb.py:133-140 | `from_bib` admits exactly the urls `clean_db`'s loop admits |
| PaperDb.WithAuthor1 | py_paperdb.py:154-155 | the model of `search`'s `author1` step; specified by PaperDb.WithAuthor1Spec |
| PaperDb.WithAuthor1Spec | py_paperdb.py:154-155 | `author1` is added iff missing, as each author's text before the first `" and "`; it fails exactly without `author` or with a non-string author |
| PaperDb.WithAuthor1Twice | py_paperdb.py:154 | adding `author1` a second time changes nothing |
| PaperDb.ThenFilters | py_paperdb.py:165-172 | a non-default argument selects the rows whose column contains it; the default selects all |
| PaperDb.YearFilters | py_paperdb.py:157-163 | the year stage selects by integer equality on an int column with an int argument, else by `str(year)` as a substring |
| PaperDb.SearchIn | py_paperdb.py:157-174 | the model of `search`'s filter chain; specified by PaperDb.SearchSpec and PaperDb.SearchStages |
| PaperDb.Matches | py_paperdb.py:157-172 | the row test the four stages apply together; used by PaperDb.SearchSpec |
| PaperDb.SearchStages | py_paperdb.py:157-174 | `search` is the four selections in turn |
| PaperDb.FilterFour | py_paperdb.py:157-174 | four selections in turn keep exactly the rows satisfying all four, in order |
| PaperDb.SearchSpec | py_paperdb.py:151-174 | the result keeps the columns, is an order-preserving subsequence, and holds exactly the rows satisfying every non-default predicate |
| PaperDb.SearchDefaults | py_paperdb.py:157-174 | with all defaults `search` returns the whole table |
| PaperDb.ThenOk | py_paperdb.py:165-172 | a stage on an existing string column succeeds |
| PaperDb.YearOk | py_paperdb.py:157-163 | the year stage succeeds on a string year column or an int column with an int argument |
| PaperDb.SearchSucceeds | py_paperdb.py:157-174 | `search` succeeds when each column it tests exists and holds strings (or ints for the year) |
| PaperDb.Search | py_paperdb.py:151-174 | the table gains `author1` in place, and the result is the selection; when `author1` cannot be computed the table is unchanged, and when a later stage fails the added `author1` column stays |
| PaperDb.ReviewOf | py_paperdb.py:202-209 | `return quickview(p_res)` stops at the view, or raises quickview's KeyError when a column is missing |
| PaperDb.Quickview | py_paperdb.py:177-180 | the projection succeeds iff `year`, `author`, `title`, `journal` exist, and keeps labels and those cells |
| PaperDb.PdfsOf | py_paperdb.py:186-187 | one file record per row of the file table |
| PaperDb.BuildPdPdfs | py_paperdb.py:186-188 | a `build_pd` table is a valid file table, each row read as its file's path, year, author and journal |
| PaperDb.HitsSpec | py_paperdb.py:196-198 | the journal count is the number of candidates whose lowercased journal contains the file's, zero iff none does |
| PaperDb.CountHits | py_paperdb.py:196-198 | the loop counts those candidates |
| PaperDb.TitleSetOne | py_paperdb.py:205 | `len(set(titles)) == 1` iff all candidates share one title |
| PaperDb.DecideSpec | py_paperdb.py:190-211 | `found` is 1 for a lone candidate with empty journal plus the journal hits; link iff it is 1, or more with one title; review iff it is 0, or more with several titles, with quickview's KeyError when a view column is missing |
| PaperDb.Decide | py_paperdb.py:190-211 | the model of the decision on one file's candidates; specified by PaperDb.DecideSpec |
| PaperDb.DecideCandidates | py_paperdb.py:190-211 | the tests on the candidates give the decision |
| PaperDb.Link | py_paperdb.py:212-213 | the model of the two `.at` assignments; specified by PaperDb.LinkSpec |
| PaperDb.LinkSpec | py_paperdb.py:212-213 | linking sets only the `local-url` and `file` cells of the candidate's label; other rows keep their cells |
| PaperDb.CheckOne | py_paperdb.py:186-216 | the model of one pass of `check_filedb`'s loop; specified by PaperDb.CheckOneLinked and PaperDb.CheckOneUnlinked |
| PaperDb.CheckFrom | py_paperdb.py:185-216 | the model of `check_filedb`'s loop from one file on; specified by PaperDb.CheckCount, PaperDb.CheckFromNext, PaperDb.CheckFromStop and PaperDb.CheckStopsEarly |
| PaperDb.CheckFile | py_paperdb.py:187-214 | one file's search, decision and link, done in place |
| PaperDb.CheckFiledb | py_paperdb.py:182-219 | the loop links each file in turn in place, stopping at the first file that needs review or raises |
| PaperDb.CheckCountBound | py_paperdb.py:185-214 | from file i on, the count grows by at most the files left |
| PaperDb.CheckCount | py_paperdb.py:185-219 | `count` never exceeds the number of files |
| PaperDb.CheckOneUnlinked | py_paperdb.py:215-216 | a file that links nothing changes nothing, except for the `author1` column `search` may add |
| PaperDb.WithAuthor1Labels | py_paperdb.py:155 | adding `author1` keeps the labels |
| PaperDb.LinkedStep | py_paperdb.py:211-214 | a linking step links the first candidate of the search |
| PaperDb.FirstCandidate | py_paperdb.py:212 | the first candidate is a row of the table that satisfies the search |
| PaperDb.CheckOneLinked | py_paperdb.py:211-214 | a link goes to the first candidate, a row of the table matching the file's year and first author, and changes only its `local-url` and `file` |
| PaperDb.CheckFromNext | py_paperdb.py:211-216 | a link or no candidate goes on to the next file |
| PaperDb.CheckFromStop | py_paperdb.py:200-209 | a review or an error ends the loop at that file |
| PaperDb.CheckStopsEarly | py_paperdb.py:200-209 | once a file stops the loop, later files change neither the outcome nor the table |

## Left out

- I/O is not modelled: reading and writing bibtex (`read_bib`, `to_bib`, bibtexparser), CSV (`read_csv`, `to_csv`), the `os.path.exists` branch of `read_paperdb`, `glob` and `convertPDF`. The sorted glob result and the decoded entries are parameters.
- pdf_read.py, proc_newfiles.py, `update_files` and `build_filedb` in filedb.py are not part of this model. They are foreign I/O, interactive `input()` loops, or call code that is not shown.
- Printing, tqdm and the `debug` flags are not modelled. They do not affect any result.
- `find_author1` is an uninterpreted parameter `Cell -> Cell`, because its source is not shown.
- BibDb.CompareBibDictSpec: scores are exact reals, not IEEE doubles. In doubles the five weights sum to 0.7999999999999999, so the 0.8 gate of `merge_items` can then be passed only by an identifier match. Also, 0.2+0.1+0.2 exceeds 0.5 in doubles but equals it here.
- BibDb.StripDoi: `Series.str.replace` treats its pattern as a regular expression by default in pandas before 2.0, where each `.` of `https://doi.org/` matches any character; the model replaces the literal text.
- PaperDb.HitsSpec, PaperDb.DecideSpec: the model lowercases ASCII letters only, while Python's `lower()` at py_paperdb.py:197 lowercases every Unicode letter, so a journal differing from the file's only in non-ASCII case (`Études` against `études`) is a hit in the source and not here.
- BibDb.MergeOutcomeSpec: the `is ''` identity test at bibdb.py:215 is modelled as equality with `''`.
- PaperDb.SearchSpec: `str.contains` is modelled as a plain substring test instead of a regular expression, so patterns with metacharacters are not modelled.
- PaperDb.YearFilters: pandas' `dtype == 'int'` is modelled as every year cell holding an int. The year argument is restricted to an int or a string.
- PaperDb.Narrow: selecting on a column without `.str`, or on a mixed column, is modelled as an AttributeError or a ValueError. This approximates pandas' exact error kinds.
- BibDb.CleanDb: `.str` on a column holding no strings raises AttributeError in pandas; here a non-string cell becomes a missing value instead. Number cells in the url and `pmid` columns are excluded by a precondition, as their `str()` rendering is not modelled.
- BibDb.CleanDbSpec, Frames.SortReindexSpec: `sort_values` is not stable, so the order of rows with equal keys is not fixed. The model sorts by a reference insertion sort and states only sortedness and permutation.
- Bibdesk.ReconcileUrls: `set.pop` is arbitrary; the model picks some non-empty value and states only which values are admissible.
- PaperDb.FromDictSpec: the column order `DataFrame.from_dict` picks is a parameter.
- Strings.ParseIntToStr: `int()` is modelled only on an optional sign followed by decimal digits. Surrounding blanks and underscores are not accepted.
- PaperDb.BuildPd: `build_pd` returns `0` when there is no PDF, and `read_dir` returns `None`; both are modelled as `Ok(None)`.
- PaperDb.CheckFiledb: `f_db` must be a table with string `local-url`, `year`, `author_s` and `journal` cells, as `build_pd` produces (PaperDb.BuildPdPdfs). The returned outcome carries `count` (which the source only prints) and the quickview view (which the source returns).
- `read_bibfiles`' `concat` of the per-file tables is not modelled; its sort-and-fill tail is (BibDb.SortAndFill).

## Findings

| source | as written | input that shows it | evidently intended | confidence | as-written member | corrected member |
|---|---|---|---|---|---|---|
| filedb.py:34-60 | `skip` is never reset after a bad name, and `db['year'] = years` then assigns a list shorter than the file list, which pandas rejects with a ValueError | a directory holding only `paper.pdf` | report the badly named file and build the table from the other files | medium; not executed | FileDb.ReadDirShortName | FileDb.ReadDirSkippingSpec |
| py_paperdb.py:29-56 | `error_flag` is never reset, and `db['year'] = years` is shorter than `local-url`, so `build_pd` raises a ValueError | a directory holding only `paper.pdf` | report the badly named file and build the table from the other files | medium; not executed | PaperDb.BuildPdShortName | PaperDb.BuildPdSkippingSpec |
