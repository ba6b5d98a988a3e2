# XMM-DM exposure bookkeeping and response-matrix expansion, in Dafny

This project models three pieces of the XMM-DM data-reduction scripts, which
prepare XMM-Newton EPIC observations for a blank-sky dark-matter decay search.
It proves properties of each piece.

- **Science exposure selection** (`ProcessXMM/get_science_exposures.py`). The
  EPIC exposure table of a PPS summary page is read row by row. A pn exposure
  in a full-frame mode (`PrimeFullWindow`, `PrimeFullWindowExten`) is appended
  to `pn_exposures.txt`. A MOS exposure is appended to `mos_exposures.txt` as
  its camera digit followed by its exposure id (`MOS1`, `S001` → `1S001`).
  Everything else is dropped. Module `ScienceExposures`; file append mode is
  modelled in module `Listing`.
- **Completion check and ranking** (`ProcessXMM/filter_reduction_results.py`).
  - Every archive entry whose name starts with ten digits is taken as an
    observation.
  - Its two exposure listings are read. Each line is stripped and upper-cased
    with Python 2 byte-string semantics (module `Text`).
  - The script builds the identifiers `obsID + 'mos' + PREFIX` and
    `obsID + 'pn' + PREFIX`.
  - Each exposure is sorted into the completed list (with the exposure time
    stored in its `<det><PREFIX>_processed.h5` file) or into the bad list,
    depending on whether that file exists.
  - The completed identifiers are ranked by exposure time, longest first.
  - Modules `ReductionResults` and `Ranking`.
- **Response-matrix expansion** (`ProcessXMM/spc2dat.py`, lines 77-105). Each
  input-energy row of an RMF's MATRIX extension holds `N_GRP` channel groups
  `(F_CHAN, N_CHAN)`. Their values are packed in the row's `MATRIX` cell, the
  layout of OGIP calibration memo CAL/GEN/92-002.
  - Every row is expanded into a dense column with numpy slice assignment,
    using a running offset `jtot`.
  - Entries below `1e-5` are cut to zero.
  - The column is scaled by the effective area of its input energy.
  - pn files store `F_CHAN` and `N_CHAN` per group. MOS files store one value
    per row, which every group of the row reuses.
  - Module `ResponseMatrix`.

Everything the scripts read from outside is an input value:
- the HTML table becomes a sequence of rows;
- the archive directory listing becomes a sequence of names;
- a text file is `Option<string>`, where `None` means the file does not exist;
- the processed HDF5 files of an observation become a map from file name to
  stored exposure time;
- the RMF columns become sequences.

Exposure times and matrix entries are `real`.

Errors the scripts raise become explicit results:
- `os.chdir` into a listed name that is not a directory gives
  `Failure(name)`;
- a numpy broadcasting error in row `i` gives `Failure(i)`.

Shape conditions, whose violation would be an `IndexError`, are preconditions.

Files: `wrappers.dfy` (Option, Result), `seqs.dfy` (filtering), `text.dfy`,
`listing.dfy`, `science_exposures.dfy`, `ranking.dfy`,
`reduction_results.dfy`, `response_matrix.dfy`.

## Model

| member | source | states |
|---|---|---|
| `ScienceExposures.Instrument` | ProcessXMM/get_science_exposures.py:43 | The instrument name is the index cell with its first character removed. An empty cell gives an empty name. |
| `ScienceExposures.Place` | ProcessXMM/get_science_exposures.py:43-59 | A row goes to the pn listing iff its instrument is `PN` and its mode is exactly `PrimeFullWindowExten` or `PrimeFullWindow`; the line is then its exposure id. A row goes to the MOS listing iff its instrument is `MOS` plus one character; the line is then that character followed by the exposure id. Any other row is dropped. |
| `ScienceExposures.WriteRowsAppends` | ProcessXMM/get_science_exposures.py:41-59 | The row loop leaves each listing equal to its old content followed by the lines of its rows, one per line, in table order. |
| `ScienceExposures.LinesCons` | ProcessXMM/get_science_exposures.py:48-59 | A row in front of the others contributes its line, if it has one, in front of the others' lines, to the one listing it belongs to. |
| `ScienceExposures.EachRowPlacedOnce` | ProcessXMM/get_science_exposures.py:48-59 | The pn lines, the MOS lines and the dropped rows add up to the number of table rows, so every row goes to at most one listing. |
| `ScienceExposures.Run` | ProcessXMM/get_science_exposures.py:41-59 | A listing file exists afterwards iff it existed before or some row qualifies for it. Its previous content is a prefix of its new content. |
| `ScienceExposures.ListingsReadBack` | ProcessXMM/get_science_exposures.py:50-59 | Suppose the listed rows have plain exposure ids, and each MOS camera character is neither whitespace nor a lower-case letter. Then the listings written by a first run read back as exactly the selected lines in table order, through the stripping and upper-casing reader. |
| `Listing.AppendLines` | ProcessXMM/get_science_exposures.py:52-53 | Append mode creates the file only when something is written. Old content stays in front. A written file ends with a newline. |
| `Listing.AppendLinesTwice` | ProcessXMM/get_science_exposures.py:56-59 | Appending in two rounds gives the same file as appending everything at once. |
| `Listing.ReadAfterAppend` | ProcessXMM/filter_reduction_results.py:41-51 | Take a listing whose old content is absent, empty or ends in a newline. Reading it after appending newline-free lines gives the old entries followed by the canonical (stripped, upper-cased) form of each new line. A missing file reads as no entries. |
| `Listing.ReadBackCanonical` | ProcessXMM/filter_reduction_results.py:41-51 | Lines already free of edge whitespace and lower-case letters are read back verbatim after an append. |
| `Text.UpperFixed` | ProcessXMM/filter_reduction_results.py:44 | `upper()` leaves a string unchanged exactly when it holds no ASCII lower-case letter. |
| `Text.UpperIdempotent` | ProcessXMM/filter_reduction_results.py:57 | Upper-casing an already upper-cased prefix changes nothing, so the second `.upper()` is harmless. |
| `Text.StripRange` | ProcessXMM/filter_reduction_results.py:44 | `strip()` keeps exactly a middle part: everything before and after it is whitespace, and the kept part starts and ends with non-whitespace. |
| `Text.StripUnique` | ProcessXMM/filter_reduction_results.py:44 | Any two cut points meeting the strip conditions give the same string, so `strip()` is determined by those conditions. |
| `Text.StripNewline` | ProcessXMM/filter_reduction_results.py:44 | Stripping a line read with its newline gives the same result as stripping the bare line. |
| `Text.SplitLines` | ProcessXMM/filter_reduction_results.py:44 | Iterating a file yields lines whose concatenation is the file. Every line but the last ends with its only newline, and the last may lack one. |
| `Text.SplitLinesUnique` | ProcessXMM/filter_reduction_results.py:49 | Only one sequence of lines has that property, so file iteration is fully determined. |
| `Text.LexLeTotal` | ProcessXMM/filter_reduction_results.py:96 | Python 2 string `<=` is total. |
| `Text.LexLeAntisymmetric` | ProcessXMM/filter_reduction_results.py:96 | Python 2 string `<=` is antisymmetric. |
| `Text.LexLeTransitive` | ProcessXMM/filter_reduction_results.py:96 | Python 2 string `<=` is transitive. |
| `ReductionResults.ObservationIds` | ProcessXMM/filter_reduction_results.py:16 | A directory entry is taken as an observation iff its name has at least ten characters and the first ten are digits. `re.match` anchors only at the start, so this is a prefix match. |
| `ReductionResults.ObservationIdsKeepOrder` | ProcessXMM/filter_reduction_results.py:16 | The selection keeps listing order: it distributes over concatenation of the listing. |
| `ReductionResults.CandidateNamesItsFile` | ProcessXMM/filter_reduction_results.py:55-67 | An exposure is complete iff its observation holds a processed file whose name, after the obsID, is the identifier `obsID + det + PREFIX` followed by `_processed.h5`. It then carries that file's stored time. |
| `ReductionResults.PartitionSingle` | ProcessXMM/filter_reduction_results.py:63-72 | A single exposure goes to the completed list with its time if its file exists, and otherwise to the bad list. |
| `ReductionResults.PartitionConcat` | ProcessXMM/filter_reduction_results.py:55-91 | Splitting the exposures in two splits every output list the same way, so the lists keep listing order. |
| `ReductionResults.PartitionMultiset` | ProcessXMM/filter_reduction_results.py:61-91 | The completed and bad lists together hold every listed identifier exactly as often as it is listed. |
| `ReductionResults.PartitionIsExact` | ProcessXMM/filter_reduction_results.py:61-91 | Every exposure lands in exactly one list. Each completed entry is an exposure whose file exists, paired with its stored time. Each bad entry is one whose file does not exist. The completed and time lists have equal length. |
| `ReductionResults.RecordIsPartition` | ProcessXMM/filter_reduction_results.py:55-72 | The per-detector loop appends exactly the partition of that detector's exposures to the running lists. |
| `ReductionResults.ScanObservationIsPartition` | ProcessXMM/filter_reduction_results.py:55-91 | One observation appends the partition of its MOS exposures followed by its pn exposures. |
| `ReductionResults.MosBeforePn` | ProcessXMM/filter_reduction_results.py:55-91 | Within an observation, MOS results precede pn results in every list. |
| `ReductionResults.FirstMissing` | ProcessXMM/filter_reduction_results.py:29-32 | The position of the first listed name that is not a directory: every name before it is one. |
| `ReductionResults.FirstMissingReported` | ProcessXMM/filter_reduction_results.py:29-32 | A failing observation loop reports the name at that first position. |
| `ReductionResults.ScanFromFails` | ProcessXMM/filter_reduction_results.py:29-32 | The observation loop fails iff some listed name is not a directory. It then names the first such entry in listing order: every name before it is a directory. |
| `ReductionResults.ScanFails` | ProcessXMM/filter_reduction_results.py:29-32 | The whole scan fails iff some observation name is not a directory. It then reports the first such name in listing order. |
| `ReductionResults.ScanFromIsPartition` | ProcessXMM/filter_reduction_results.py:29-91 | When every name is a directory, the loop extends the running lists by the partition of all exposures of all observations, in order. |
| `ReductionResults.ScanIsPartition` | ProcessXMM/filter_reduction_results.py:24-91 | Starting from empty lists, the scan result is exactly the partition of all listed exposures. |
| `ReductionResults.ScanLengths` | ProcessXMM/filter_reduction_results.py:64-67 | The completed identifiers and their exposure times grow in lockstep and end with equal length. |
| `ReductionResults.BadList` | ProcessXMM/filter_reduction_results.py:20-21 | The bad list is emptied at the start, so afterwards it holds exactly this run's failures, one per line, whatever it held before. |
| `ReductionResults.BadListReadsBack` | ProcessXMM/filter_reduction_results.py:70-72 | Read back through the listing reader, the bad list gives the upper-cased forms of the failed identifiers, in order. |
| `ReductionResults.Run` | ProcessXMM/filter_reduction_results.py:16-97 | The script succeeds iff every observation name is a directory; otherwise it reports the first name in listing order that is not one. Its ranked list is a permutation of the completed identifiers, ordered by `Ranking.Ranked`: longest exposure first, ties by the larger identifier. Its bad list holds exactly the failed identifiers. |
| `Ranking.EntryLeTotal` | ProcessXMM/filter_reduction_results.py:96 | The tuple order on (exposure time, identifier) is total. |
| `Ranking.EntryLeAntisymmetric` | ProcessXMM/filter_reduction_results.py:96 | The tuple order on (exposure time, identifier) is antisymmetric. |
| `Ranking.EntryLeTransitive` | ProcessXMM/filter_reduction_results.py:96 | The tuple order on (exposure time, identifier) is transitive. |
| `Ranking.ZipIds` | ProcessXMM/filter_reduction_results.py:96 | With as many times as identifiers, `zip` keeps every identifier, in order. |
| `Ranking.Insert` | ProcessXMM/filter_reduction_results.py:96 | Inserting into an ascending sequence keeps it ascending and adds exactly one entry. |
| `Ranking.SortAscending` | ProcessXMM/filter_reduction_results.py:96 | `sorted` returns the same entries in ascending tuple order. |
| `Ranking.IdsOfPermutation` | ProcessXMM/filter_reduction_results.py:96 | Permuted entries carry permuted identifiers. |
| `Ranking.ReverseInvolutive` | ProcessXMM/filter_reduction_results.py:97 | `[::-1]` applied twice gives the list back. |
| `Ranking.ReverseKeepsMultiset` | ProcessXMM/filter_reduction_results.py:97 | Reversal keeps the elements. |
| `Ranking.RankedEntries` | ProcessXMM/filter_reduction_results.py:96-97 | The ranked pairs are the zipped pairs in descending tuple order. |
| `Ranking.Ranked` | ProcessXMM/filter_reduction_results.py:96-97 | With as many times as identifiers, the ranked list is a permutation of the identifiers. The attached exposure times never increase along it. |
| `Ranking.DescendingUnique` | ProcessXMM/filter_reduction_results.py:96-97 | Two descending orderings of the same entries are equal. |
| `Ranking.RankingIsTheDescendingOrder` | ProcessXMM/filter_reduction_results.py:96-97 | Any descending ordering of the zipped pairs is the script's ranking: longest exposure first, ties broken by the larger identifier first. |
| `ResponseMatrix.SliceLen` | ProcessXMM/spc2dat.py:96 | A numpy slice `[lo:lo+count]` has at most `count` elements. It stays inside the array, and it is shorter than `count` only when cut off by the end of the array. |
| `ResponseMatrix.Slice` | ProcessXMM/spc2dat.py:96 | `MATRIX[i][jtot:jtot+sl]` has the clamped slice length. |
| `ResponseMatrix.SliceAt` | ProcessXMM/spc2dat.py:96 | Element `t` of the slice is element `lo + t` of the row, and that index lies inside the row. |
| `ResponseMatrix.Assign` | ProcessXMM/spc2dat.py:96 | `det_col[fc:fc+sl] = vals` succeeds iff the values match the slice length or there is exactly one value to broadcast. Otherwise it raises. A successful assignment keeps the column length. |
| `ResponseMatrix.OverwriteAt` | ProcessXMM/spc2dat.py:96 | Writing a run of values from `lo` on puts value `k - lo` into channel `k` inside the run and leaves every other channel alone. |
| `ResponseMatrix.AssignAt` | ProcessXMM/spc2dat.py:96 | After a successful slice assignment, channels outside the slice keep their values. Channels inside get the matching value, or the single broadcast one. |
| `ResponseMatrix.SumStep` | ProcessXMM/spc2dat.py:97 | The offset `jtot` reached at group `m`, counted from group `j`, is group `j`'s `N_CHAN` plus the offset counted from group `j+1`. |
| `ResponseMatrix.AllFitStep` | ProcessXMM/spc2dat.py:88-97 | Every group from `j` on fits iff group `j` fits at the current offset and the rest fit from the offset advanced by its `N_CHAN`. |
| `ResponseMatrix.ExpandStep` | ProcessXMM/spc2dat.py:88-97 | One loop step: group `j`'s assignment succeeds iff the group fits. If it raises, the row raises. Otherwise the loop continues from the new column with `jtot` advanced by `N_CHAN`. |
| `ResponseMatrix.ExpandSucceeds` | ProcessXMM/spc2dat.py:88-97 | Expanding a row raises iff some group's assignment, taken at the offset the loop reaches it with, does not fit. |
| `ResponseMatrix.ExpandUncovered` | ProcessXMM/spc2dat.py:86-96 | A channel that no remaining group covers keeps its value. |
| `ResponseMatrix.AssignGroup` | ProcessXMM/spc2dat.py:96 | A fitting group leaves its matching matrix entry, or its single broadcast entry, in each channel it covers. |
| `ResponseMatrix.KeptAfter` | ProcessXMM/spc2dat.py:88-97 | A channel that no group after `j` covers ends with the value group `j`'s assignment left there. |
| `ResponseMatrix.LastCoverHere` | ProcessXMM/spc2dat.py:88-97 | If group `j` covers a channel and no later group does, the channel ends with group `j`'s value. |
| `ResponseMatrix.ExpandLastCover` | ProcessXMM/spc2dat.py:88-97 | A covered channel holds the value written by the last group that covers it. That group reads the row at the sum of the `N_CHAN` of the groups before it. |
| `ResponseMatrix.ExpansionSpec` | ProcessXMM/spc2dat.py:86-97 | The row loop as a whole, from zero offset: it succeeds iff all groups fit, and then keeps the column length. Channels no group covers are unchanged, and covered channels follow their last group. |
| `ResponseMatrix.GroupReceivesItsSlice` | ProcessXMM/spc2dat.py:88-97 | Take a group lying inside the column and the row, and a channel of it that no later group overwrites. Channel `F_CHAN + t` then receives `MATRIX[i][jtot + t]`, where `jtot` is the `N_CHAN` total of the earlier groups. |
| `ResponseMatrix.Cut` | ProcessXMM/spc2dat.py:99-102 | Every entry below `1e-5`, negative ones included, becomes 0, and every other entry is kept. So each result is 0 or at least `1e-5`. |
| `ResponseMatrix.CutIdempotent` | ProcessXMM/spc2dat.py:99-102 | Cutting twice is cutting once. |
| `ResponseMatrix.ExpandRow` | ProcessXMM/spc2dat.py:86-97 | An expanded column has one entry per output channel. |
| `ResponseMatrix.NoGroupsZeroColumn` | ProcessXMM/spc2dat.py:86-88 | A row without groups leaves an all-zero column. |
| `ResponseMatrix.MosSingleGroup` | ProcessXMM/spc2dat.py:77-96 | Take a MOS row with one in-range group. Channels `F_CHAN .. F_CHAN+N_CHAN-1` then hold the first `N_CHAN` matrix entries, and every other channel is zero. |
| `ResponseMatrix.FilledStep` | ProcessXMM/spc2dat.py:105 | Writing column `i` with `det_res[:,i] = det_col * effA[i]` adds that column and leaves the columns already written untouched. |
| `ResponseMatrix.DetectorResponse` | ProcessXMM/spc2dat.py:77-105 | The response has `len(E_MIN)` rows of `len(ENERG_LO)` entries. Entry `[k][i]` is the cut expansion of row `i` at channel `k` times `effA[i]`. The script fails iff some row's expansion raises, and then reports the first such row. |

## Left out

- HTML parsing, FITS, HDF5 and CSV access: their results are inputs (the table rows, the RMF columns, the map of processed files and their stored `exp` values).
- Command-line parsing, the `glob` of the PPS summary page, `os.chdir` into the archive, and the `print` statements are I/O.
- The flux, region solid-angle and background-rate conversions of `spc2dat.py`: these are floating-point unit arithmetic outside the expansion.
- The D-factor table lookup and its obsID re-keying in `spc2dat.py`: external data.
- Writing `ranked_observations.h5` and the output HDF5 of `spc2dat.py`: the ranked list and the response are returned instead.
- Floating-point rounding, NaN and infinities: entries and times are exact reals. A NaN entry would escape the cut (`NaN < 1e-5` is false); this is not modelled.
- Unicode: Python 2 byte strings are modelled. `strip()` removes the six ASCII whitespace bytes, and `upper()` changes only `a`-`z`.
- Negative `F_CHAN`, `N_CHAN` or `N_GRP` values: the model takes them as natural numbers. numpy would count negative slice bounds from the end of the array.
- What a script has already written when it stops on an error: a failure result carries no partial files or lists.
- The order of `glob('*')` is taken as given by the input sequence.
- ResponseMatrix.DetectorResponse: the table's shape is a precondition rather than an `IndexError` result. This covers the column lengths, at least `N_GRP[i]` channel entries per pn row, and an effective area for every input energy.
- The value of `jtot` after a row's group loop (the sum of its `N_CHAN`) is not stated on its own: it is never read after the loop. `ResponseMatrix.ExpandLastCover` states the offset the loop reaches each group with.
- The shell pipeline that runs the reduction stages in sequence is not part of this model.
