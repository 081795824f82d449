# OCR table reconstruction and page-range parsing, in Dafny

This project models two parts of an OCR tool that turns scanned PDF pages
into tables.

**`parse_image_table`** (scripts/table_parser.py) rebuilds a table from
the per-word output of the OCR engine. It runs a fixed pipeline:

1. It drops blank and low-confidence words.
2. It takes the median word height as the tolerance, replaced by 8 when it
   is below 4.
3. It cuts the sorted word x-centres into column groups wherever a gap
   exceeds `max(2.5·median(gaps), 1.5·mean(gaps))`, and pads each group
   into a band.
4. It assigns every word to the first band that contains its centre, or
   else to the band with the nearest centre.
5. Within each column it sorts the words by vertical centre and clusters
   them greedily: a word joins the current cluster when it is at most
   `1.2·median_h` below the last word added. Each cluster becomes a pair:
   the mean vertical centre, and the members' texts in (top, left) order
   joined by spaces.
6. It merges all cluster centres, sorts them and groups them into rows by
   the same greedy rule with tolerance `row_tol = 1.5·median_h`. Each row
   centre is the mean of its group.
7. In each row, each column takes the text of its nearest cluster when
   that cluster is within `row_tol`; otherwise the cell is empty.
8. It promotes the first row to the header when the table has more than
   one row and the first row has at least as many non-empty cells as any
   other row, and at least one. Header labels
   are stripped, blank labels become `col`, and repeated labels get the
   suffixes `_1`, `_2`, and so on.

**`validate_pages`** (scripts/pdf_processor.py) reads a page spec such
as `2,4,6-8`. It returns the sorted list of distinct pages in
`1..total_pages`, or raises an error at the first invalid part.

## How the model is built

Both sources are imperative, so each loop of the source is a Dafny
`method` with a `while` or `for` loop. Each stage method is proved against
a specification function, and the properties are then proved about those
functions, as lemmas. The top-level `TableParser.ParseImageTable` is
proved only against the shape of its result (see "## Left out"):

- Greedy clustering and row grouping share one rule.
  - `Gaps.GapRuns` is the function that defines the rule.
  - `Gaps.SplitAtGaps` is the partition property: non-empty contiguous
    runs, each step inside a run at most `tol`, each step between runs
    more than `tol`.
  - `Gaps.SplitAtGapsUnique` shows that this partition is unique.
  - Column segmentation is proved to give the same runs, with the
    identity as the key.
- `sorted(..., key=...)` and the sort inside `np.median` are a stable
  insertion sort, `Sorting.SortBy`. It is proved to be a sorted
  permutation of its input.
- Coordinates are exact rationals (`real`). The constants 1.2, 1.5, 2.5,
  0.5, 4, 8 and 10 are exact.
- The confidence is an `int`, and -1 stands for a confidence that could
  not be read.
- The mutable `'col'` key of every word becomes a parallel sequence
  `cols`.
- The DataFrame becomes `Header.Table`: the rows, with an optional header.

| file | module | models |
|---|---|---|
| wrappers.dfy | Wrappers | `Option`, `Result` |
| text.dfy | Text | `str.strip`, `str.split`, `sep.join`, `str(n)` |
| sorting.dfy | Sorting | `sorted` with a key |
| stats.dfy | Stats | `np.median`, `np.mean`, `np.min`, `np.max`, `np.diff`, `np.argmin` |
| gaps.dfy | Gaps | the greedy cut into runs |
| runs.dfy | Runs | runs of sorted sequences, and their means |
| tokens.dfy | Tokens | the token filter, lines 18-54 |
| columns.dfy | Columns | the clamp, segmentation and assignment, lines 56-96 |
| clusters.dfy | Clusters | per-column clustering, lines 98-122 |
| rows.dfy | Rows | row alignment and grid assembly, lines 124-162 |
| header.dfy | Header | header promotion and label de-duplication, lines 164-189 |
| table_parser.dfy | TableParser | the whole of `parse_image_table` |
| pages.dfy | Pages | `validate_pages` |

## Model

| member | source | states |
|---|---|---|
| Tokens.FilterWords | scripts/table_parser.py:18-51 | The words are exactly the kept records, in input order. Every word has non-empty stripped text and a confidence that is negative or at least `min_conf`. |
| Tokens.KeptMembers | scripts/table_parser.py:20-51 | A word is kept exactly when some record has non-blank text and a passing confidence and produces that word. |
| Tokens.KeptContains | scripts/table_parser.py:31-51 | A record that passes both tests contributes its word. |
| Tokens.KeptFrom | scripts/table_parser.py:31-51 | Every kept word comes from a record that passes both tests. |
| Tokens.KeptWordsPass | scripts/table_parser.py:31-35 | Every kept word has non-empty text and a confidence that is unknown or at least `min_conf`. |
| Tokens.KeptEmpty | scripts/table_parser.py:31-35 | Nothing is kept exactly when every record is blank or has a known confidence below `min_conf`. |
| Text.Strip | scripts/table_parser.py:21 | The stripped text is no longer than the input, and it neither starts nor ends with whitespace. |
| Text.StripIsInfix | scripts/table_parser.py:21 | The stripped text is the part of the input between a whitespace-only prefix and a whitespace-only suffix. |
| Text.StripUnchanged | scripts/table_parser.py:21 | Text without whitespace at either end strips to itself. |
| Text.StripEmptyIffAllSpace | scripts/table_parser.py:21 | Text strips to nothing exactly when it is all whitespace: the "blank word" test of line 31. |
| Columns.MedianHeight | scripts/table_parser.py:57-60 | The tolerance is at least 4, and it equals the median height whenever that median is at least 4. |
| Stats.Median | scripts/table_parser.py:58 | The median lies between the least and the greatest value. |
| Sorting.SortByPermutes | scripts/table_parser.py:63 | Sorting rearranges the input: the same elements, each as often. |
| Sorting.SortBySorted | scripts/table_parser.py:63 | Under a total preorder the sorted result is in order. |
| Sorting.SortBySortedIdentity | scripts/table_parser.py:143 | Sorting a sequence that is already sorted leaves it unchanged. |
| Columns.ColumnBounds | scripts/table_parser.py:63-82 | With one word there is one band. Otherwise the groups are the greedy runs at the gap threshold: a split at the gaps whose concatenation is the sorted x-centres. There is one more group than there are differences above the threshold. Band `k` is group `k` padded by `median_h` on both sides. |
| Columns.CutAtBreaks | scripts/table_parser.py:68-77 | Cutting after every break index gives the greedy runs, one more than the number of differences above the threshold. |
| Columns.CutBefore | scripts/table_parser.py:72-76 | After the loop, the groups split the prefix of the x-centres up to the last break, and `start` is one past that break. |
| Columns.CutStep | scripts/table_parser.py:74-76 | One loop step: the run up to the next break extends the split. |
| Columns.CutEnd | scripts/table_parser.py:77 | The final group completes the greedy runs, one more than the breaks. |
| Columns.BreakIndices | scripts/table_parser.py:71 | The break indices are increasing, and each one has a difference above the threshold. |
| Columns.BreakIndicesComplete | scripts/table_parser.py:71 | Every index whose difference exceeds the threshold is a break index. |
| Columns.BreakIndicesCount | scripts/table_parser.py:71 | There are as many break indices as differences above the threshold. |
| Columns.PadGroups | scripts/table_parser.py:78-82 | Band `k` is `[min(g) - median_h, max(g) + median_h]` for group `g` number `k`. |
| Columns.AssignColumns | scripts/table_parser.py:85-96 | Every word gets a column in range. It is the first band that contains the word's x-centre, or, when no band does, the first band with the nearest centre. |
| Columns.BandsCover | scripts/table_parser.py:79-88 | Every x-centre lies in the band of its own group. |
| Columns.AssignedContains | scripts/table_parser.py:87-96 | So the column a word gets is always a band that contains its x-centre: the fallback at lines 92-96 never decides. |
| Stats.ArgMin | scripts/table_parser.py:96 | `argmin` returns a smallest element, the first of them. |
| Stats.FirstMinUnique | scripts/table_parser.py:96 | That index is unique. |
| Gaps.SplitGreedy | scripts/table_parser.py:106-114 | The greedy loop computes the greedy runs. |
| Gaps.GapRunsSplit | scripts/table_parser.py:106-114 | The greedy runs are non-empty, contiguous and in order, and concatenate to the input. Inside a run each step is at most `tol`; each run starts more than `tol` above the last element of the run before. |
| Gaps.SplitAtGapsUnique | scripts/table_parser.py:106-114 | Any two splits of a sequence with that property are equal, so the greedy rule cuts exactly at the gaps above `tol`. |
| Clusters.ClusterColumn | scripts/table_parser.py:101-122 | The cluster list of a column is the summary of each greedy run of its words sorted by `cy`. |
| Clusters.SummarizeRuns | scripts/table_parser.py:116-121 | One (centre, text) pair per run, in run order. |
| Clusters.ColumnClusters | scripts/table_parser.py:99-122 | Entry `ci` is the cluster list of the words assigned to column `ci`, for every column. |
| Clusters.ColumnSpecsAt | scripts/table_parser.py:99-122 | The cluster lists are indexed by column. |
| Clusters.ColumnRuns | scripts/table_parser.py:105-114 | The runs of a column split its words sorted by `cy`. Their concatenation is a sorted permutation of the column's words. Consecutive `cy` inside a run differ by at most `1.2·median_h`; between runs they differ by more. |
| Clusters.ColumnClustersEmpty | scripts/table_parser.py:101-104 | A column has no clusters exactly when it has no words. |
| Clusters.InColumnContains | scripts/table_parser.py:101 | Every word is among the words of its own column. |
| Clusters.InColumnFrom | scripts/table_parser.py:101 | Only words assigned to column `ci` are among its words. |
| Clusters.SummarizeCenter | scripts/table_parser.py:120 | A cluster's centre lies between its least and its greatest member `cy`. |
| Clusters.SummarizeText | scripts/table_parser.py:118-119 | Splitting a cluster's text at spaces gives the members' texts, sorted by (top, left), each member once. |
| Clusters.ClusterCentresIncrease | scripts/table_parser.py:105-121 | The cluster centres of a column increase, each by more than `1.2·median_h`. |
| Stats.MeanBetween | scripts/table_parser.py:120 | A mean lies between the least and the greatest value. |
| Runs.RunsSeparated | scripts/table_parser.py:105-114 | In a split of a sorted sequence, each run ends more than `tol` below the start of the next run. |
| Runs.RunMeansIncrease | scripts/table_parser.py:120 | So each run's mean exceeds the mean of the run before by more than `tol`. |
| Rows.CollectCenters | scripts/table_parser.py:125-128 | The merged centres are every column's cluster centres, column by column. |
| Rows.CenterCollected | scripts/table_parser.py:125-128 | Every cluster's centre is among the merged centres. |
| Rows.AlignRows | scripts/table_parser.py:133-142 | The row centres are the means of the greedy runs of the sorted centres at `row_tol`. |
| Rows.RowCentersIncrease | scripts/table_parser.py:131-142 | Over sorted centres there is at least one row centre, and each exceeds the one before by more than `row_tol`. |
| Rows.RowCentersAlreadySorted | scripts/table_parser.py:143 | With a non-negative `row_tol`, the sort at line 143 leaves the row centres as they are. |
| Rows.PickCell | scripts/table_parser.py:150-161 | The running minimum, started at infinity, picks the cell of the first nearest cluster. |
| Rows.CellNearest | scripts/table_parser.py:153-161 | The cell is the text of the first nearest cluster when it lies within `row_tol`, else empty. |
| Rows.CellFar | scripts/table_parser.py:158-161 | A column with no cluster within `row_tol` gives the empty cell. |
| Rows.BuildRow | scripts/table_parser.py:148-161 | A row has one cell per column, each the cell of that column. |
| Rows.AssembleGrid | scripts/table_parser.py:146-162 | One row per row centre. Row `r`, column `ci` holds the cell of row centre `r` in column `ci`. |
| Header.PromotesMeans | scripts/table_parser.py:167-171 | The first row is promoted exactly when there is more than one row, the first row has a non-empty cell, and no later row has more non-empty cells. |
| Header.MaxCountBound | scripts/table_parser.py:170 | The largest non-empty count is at most `n` exactly when every row's count is. |
| Header.PromoteHeader | scripts/table_parser.py:166-189 | When promotion applies, the header is the de-duplicated first row and the data rows are the rest. Otherwise the rows are unchanged and there is no header. |
| Header.Dedup | scripts/table_parser.py:175-187 | The loop over the header, with `seen`, computes the de-duplicated labels. |
| Header.FreeName | scripts/table_parser.py:181-185 | The `while` loop stops at the first free name: `h`, then `h_1`, `h_2`, and so on. |
| Header.Base | scripts/table_parser.py:178-180 | A label's base is never empty. |
| Header.DedupDistinct | scripts/table_parser.py:175-187 | The labels are pairwise distinct. |
| Header.DedupRule | scripts/table_parser.py:177-187 | Label `k` is the least-numbered candidate of its base not taken by an earlier label. A new base is kept as it is; a repeated one gets `_` and the least free number. |
| Header.FirstFreeLeast | scripts/table_parser.py:181-185 | The free name is the least-numbered candidate not taken. |
| Header.CandidatesCount | scripts/table_parser.py:183-185 | There are no more taken candidates than taken names, so the search ends. |
| Header.CandidateInjective | scripts/table_parser.py:184 | Different suffix numbers give different names. |
| Text.DecimalRoundTrip | scripts/table_parser.py:184 | Reading back the decimal digits of `n` gives `n`. |
| TableParser.ParseImageTable | scripts/table_parser.py:18-191 | The page text passes through. With no kept word the table is empty and has no header. Otherwise there is at least one data row, every row (and the header) has one cell per column band, and the header labels are distinct. |
| TableParser.CentresPresent | scripts/table_parser.py:125-130 | With at least one word there is a cluster centre, so the early return at lines 129-130 is never taken. |
| TableParser.RowsPresent | scripts/table_parser.py:131-143 | There is at least one row centre. |
| TableParser.Promoted | scripts/table_parser.py:166-189 | After promotion the table has a data row, is rectangular and has distinct labels. |
| Pages.ValidatePages | scripts/pdf_processor.py:15-33 | The loop returns the selection: the first part's error, or the sorted union of the parts' pages. |
| Pages.ParsePart | scripts/pdf_processor.py:22-32 | One part yields a range, a single page, or the error raised for it. |
| Pages.PagesSortedInRange | scripts/pdf_processor.py:19-33 | A successful result is strictly increasing (sorted and without duplicates), lies within `1..total_pages`, and is not empty. |
| Pages.PageFromPart | scripts/pdf_processor.py:21-33 | Every selected page comes from a valid part. |
| Pages.PartPageSelected | scripts/pdf_processor.py:21-33 | Every page a part contributes is selected. |
| Pages.PagesFirstError | scripts/pdf_processor.py:21-31 | The error reported is that of the first invalid part. |
| Pages.CombineAllOrNothing | scripts/pdf_processor.py:21-33 | Pages are returned exactly when every part is valid. |
| Pages.CombineFirstError | scripts/pdf_processor.py:21-31 | If some part fails, the result is the first failure. |
| Pages.CombineMembers | scripts/pdf_processor.py:27-32 | The pages are the union of the parts' pages. |
| Pages.PagesSameParts | scripts/pdf_processor.py:20-33 | Two specs with the same set of parts both succeed or both fail, and on success select the same pages: order and repetition of parts do not change the pages. Which error is reported can depend on the order, since the first invalid part raises. |
| Pages.SelectionSameParts | scripts/pdf_processor.py:20-32 | Any two part lists with the same parts both succeed or both fail, and on success combine to the same pages. |
| Pages.PartRange | scripts/pdf_processor.py:22-27 | A part `a-b` contributes exactly `a..b` when `1 <= a <= b <= total_pages`; otherwise it is an invalid range. |
| Pages.PartSingle | scripts/pdf_processor.py:28-32 | A part `p` contributes `{p}` when `1 <= p <= total_pages`; otherwise it is an invalid page. |
| Pages.PartLeadingDash | scripts/pdf_processor.py:22-24 | `-n` splits into an empty side and `n`; the empty side is not an integer. |
| Pages.PartManyDashes | scripts/pdf_processor.py:22-23 | A part with two or more dashes does not unpack into two sides. |
| Pages.PartInRange | scripts/pdf_processor.py:25-32 | A valid part's pages lie in `1..total_pages`. |
| Pages.PartNonEmpty | scripts/pdf_processor.py:25-32 | A valid part contributes at least one page. |
| Pages.SortedElements | scripts/pdf_processor.py:33 | `sorted(pages)` is strictly increasing and has exactly the set's elements. |
| Pages.Range | scripts/pdf_processor.py:27 | `range(start, end + 1)` holds exactly the pages from `start` to `end`. |
| Pages.ParseIntDecimal | scripts/pdf_processor.py:24 | `int()` reads a decimal numeral back as its value. |
| Text.SplitJoin | scripts/pdf_processor.py:20 | Splitting a join of separator-free pieces gives the pieces back. |
| Text.JoinSplit | scripts/pdf_processor.py:20 | Joining the pieces of a split gives the original string. |
| Text.SplitLength | scripts/pdf_processor.py:23 | A split has one piece more than the string has separators. |

## Left out

- The OCR calls at scripts/table_parser.py:14 and 16 are foreign library calls. Their outputs become parameters: `raw` is the word records and `rawText` is the page text, passed through unread.
- TableParser.ParseImageTable: its contract states the shape of the table and not its cells: the text passes through, no kept word gives an empty table, and otherwise the table is rectangular with at least one data row and distinct labels. The cell contents are stated stage by stage instead, by `Rows.AssembleGrid`, `Clusters.ColumnClusters`, `Rows.AlignRows` and `Header.PromoteHeader`, each proved against its specification function.
- The default `min_conf=30` of `parse_image_table` (scripts/table_parser.py:6) is not modelled: Dafny has no default arguments, so `minConf` is always passed by the caller.
- The coercion `data['text'][i] or ""` at scripts/table_parser.py:21 turns a missing (`None`) OCR text into the empty string. The model's records always carry a string, so a missing text is the empty string from the start.
- The confidence conversion at scripts/table_parser.py:22-30 (`int`, then `float`, then -1) is left out. The confidence arrives as an `int`, with -1 for a value that fails to convert.
- pandas and numpy are replaced by functions over sequences. Floating point is replaced by exact rationals; the model does not capture rounding.
- `float("inf")` at scripts/table_parser.py:152 becomes a flag that is false until the first distance is seen.
- `df.astype(bool)` counts a cell as non-empty when its string is not empty; the cells are always strings.
- Python's `int()` accepts non-ASCII decimal digits. The model accepts ASCII digits only, with the surrounding whitespace, the sign and the single underscores that `int()` allows.
- Sorting.SortBy: stability (equal keys keep input order) holds by construction of the insertion, but it is not stated as a lemma.
- Clusters.SummarizeText: stated only for members whose texts have no space. Stripped OCR words may still hold inner spaces, and then splitting their join does not give them back.
- Columns: the column bands may overlap; the model proves no disjointness, because lines 78-82 do not ensure it.
- The rest of scripts/pdf_processor.py (`get_pdf_files`, `pdf_to_images`, `ocr_image`, `extract_text_from_pdf`) is I/O over libraries and is not part of this model.
- main.py is not part of this model: folder creation, file writes, logging, `input()`, the process pool and the concatenation of DataFrames. It calls `parse_page_spec`, while the parser shown is named `validate_pages`.
- config/settings.py holds path constants only and is not part of this model.
