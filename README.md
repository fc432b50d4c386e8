# HH4b analysis helpers in Dafny

This project models three small pieces of discrete logic from the HH→4b
analysis framework and proves what they promise.

- **Job helpers** (`src/run_utils.py`):
  - `add_bool_arg` derives the destination name and the paired `--name` / `--no-name` flags with their help texts.
  - `get_fileset` turns the parsed NanoAOD file index (year → sample → subsample → file names) into the fileset of a job. It either counts the files of every subsample or lists them: sliced by `starti`/`endi`, prefixed with the XRootD redirector and keyed `year_subsample`.
  - `flatten_dict` splits every two-dimensional variable with more than one column into one vector per column and squeezes every other variable.
- **Dijet pairing table** (`src/HH4b/processors/matchingSkimmer.py`): `JET_ASSIGNMENTS`, every way to split four jets into two dijets, in `itertools.combinations` order.
- **Legend title** (`src/HH4b/boosted/TrainBDT.py`): `get_legtitle`, the cut summary drawn in the legends of the BDT plots.

Modules:

- `Wrappers` holds `Option` and `Result`. A Python exception becomes an `Err`.
- `Strings` models the Python string operations the core relies on: `str.split` on one character, `str.join`, the substring test `in`, and `str()` of a natural number.
- `Merge` is the fold behind `acc = {**acc, **new}`, and its lemmas say which input's value each key ends up with. `get_fileset` in file mode and `flatten_dict` for split columns merge dictionaries this way. Count mode's `fileset[sample] = …` and the squeeze branch's `new_dict[key] = …` are single-key assignments. The model treats them as merging a one-entry map, which gives the same dictionary (`RunUtils.MergeSingleton`).
- `RunUtils`, `MatchingSkimmer` and `TrainBDT` follow the three source files.

The style of each operation follows its source:

- `get_fileset` and `flatten_dict` grow dictionaries in loops. They are modelled as methods, `RunUtils.GetFileset` and `RunUtils.FlattenDict`. Each is proved equal to a function (`FilesetOf`, `Flatten`), and the lemmas are stated about that function.
- The inner `for subsample, fnames in sample_set.items()` loops are the methods `CollectSampleFiles` and `CountSampleFiles`. They run over the subsamples in an unspecified order, as iteration over the set intersection does in Python.
- The pairing table, the flag names and the legend title are pure expressions in the source. They are pure functions here.

Choices made where the code and its surroundings disagree:

- The signature of `get_fileset` types `year` as `int`. The code uses `year` only as a key of the JSON index and inside an f-string, and the command line passes it as a string. It is modelled as a string.
- The docstring of `flatten_dict` says every key ends up with a one-dimensional array. The code calls `np.squeeze`, so a variable holding a single element becomes zero-dimensional, and an `(n, 0)` matrix with `n != 1` stays two-dimensional. `FlattenShapes` proves what the code gives.
- `get_fileset` raises `KeyError` only when it looks up a sample. With an empty sample list it returns an empty fileset even for a year missing from the index.

## Model

| member | source | states |
|---|---|---|
| RunUtils.VarName | src/run_utils.py:12 | the destination is the flag name with every `-` replaced by `_` |
| Strings.JoinSplitReplaces | src/run_utils.py:12 | joining the pieces of a split on one character with another character replaces every occurrence of the first by the second |
| Strings.Join | src/run_utils.py:12 | `sep.join(parts)`: the parts in order with `sep` between consecutive ones, `""` for no parts; `JoinSplit`, `SplitJoin` and `JoinSplitReplaces` characterise it against `Split` |
| Strings.JoinSplit | src/run_utils.py:12 | joining the pieces of `split(sep)` with `sep` gives back the original string |
| Strings.SplitJoin | src/run_utils.py:12 | splitting a join of separator-free parts gives back the parts |
| Strings.Split | src/run_utils.py:12 | `str.split` on one character gives at least one part, and no part contains the separator |
| RunUtils.AddBoolArg | src/run_utils.py:10-21 | the positive flag is `--name` storing true with the given help; both flags share the destination, which defaults to `default`; without `no_name` the negative flag is `--no-name` with help `don't help` and differs from the positive one; with `no_name` it is `--` followed by `no_name`, with the same help |
| RunUtils.SliceBound | src/run_utils.py:75 | a Python slice bound normalised for a list of length `n` lies in `0..n` |
| RunUtils.Slice | src/run_utils.py:75 | Python's `s[start:stop]`: both bounds normalised by `SliceBound`, empty when they cross; `SliceFilesWindow` states what it gives |
| RunUtils.SliceFrom | src/run_utils.py:75 | Python's `s[start:]`, the start normalised by `SliceBound`; `SliceFilesWindow` states what it gives |
| RunUtils.SliceFiles | src/run_utils.py:75 | `fnames[starti:] if endi < 0 else fnames[starti:endi]`; `SliceFilesWindow` states which run of the list it is, and `FileListWindow` what a job gets |
| RunUtils.SliceFilesWindow | src/run_utils.py:75 | the files a job takes are one contiguous run of the list, no longer than the list; `fnames[starti:]` when `endi < 0` or when `endi` runs past the end, `fnames[starti:endi]` for in-range bounds, empty when `0 <= endi <= starti`, a negative `starti` counts from the end, both when `endi < 0` and when `endi` is in range and not before the position it gives, and the default `starti=0`, `endi=-1` takes the whole list |
| RunUtils.WithRedirector | src/run_utils.py:76 | `[redirector + fname for fname in fnames]`: the redirector prepended to every name, in order; see `FileListWindow` |
| RunUtils.FileListWindow | src/run_utils.py:75-76 | a job's file list is the redirector prepended, in order, to one contiguous run of the subsample's files, so it is never longer than that list |
| RunUtils.LookupSample | src/run_utils.py:53 | the lookup succeeds exactly when the year and the sample are in the index; otherwise it reports `KeyError` of the year, or of the sample |
| RunUtils.SelectSubsamples | src/run_utils.py:55-62 | when a requested subsample exists, exactly the intersection is kept; when none does, the sample's subsamples are all kept; kept subsamples keep their file lists |
| RunUtils.RequestedSamples | src/run_utils.py:42-43 | the samples the loop visits: `["Muon"]` for `trigger_boosted`, the requested ones otherwise; see `TriggerBoostedRunsMuon` |
| RunUtils.FileKey | src/run_utils.py:76 | the key `f"{year}_{subsample}"`; `FileKeyInjective` shows it tells subsamples of one year apart |
| RunUtils.FileKeyInjective | src/run_utils.py:76 | different subsamples of one year get different `year_subsample` keys |
| RunUtils.SampleFiles | src/run_utils.py:72-76 | the `sample_fileset` one sample builds: its sliced, prefixed file lists under `year_subsample`; `SampleFilesEntries` characterises it and `CollectSampleFiles` computes it by the loop |
| RunUtils.SampleFilesEntries | src/run_utils.py:72-76 | every selected subsample has the entry `year_subsample` with its sliced, prefixed files, and there is no other entry |
| RunUtils.SampleCounts | src/run_utils.py:66-68 | count mode has one entry per selected subsample, holding the full length of its file list |
| RunUtils.InsertSubsample | src/run_utils.py:74-76 | `sample_fileset` after one more subsample is stored; `InsertSubsampleKey` and `SampleFilesInsert` relate it to `SampleFiles` |
| RunUtils.InsertSubsampleKey | src/run_utils.py:74-76 | adding one subsample leaves every other subsample's entry as it was and adds the new one |
| RunUtils.SampleFilesInsert | src/run_utils.py:74-76 | one more turn of the inner file-mode loop adds exactly that subsample's entry |
| RunUtils.CollectSampleFiles | src/run_utils.py:72-76 | the inner file-mode loop builds exactly the entries `SampleFiles` describes |
| RunUtils.CountSampleFiles | src/run_utils.py:66-68 | the inner count-mode loop builds exactly the counts `SampleCounts` describes |
| RunUtils.CountStepAdvance | src/run_utils.py:52-68 | one turn of the outer loop in count mode either raises the lookup's `KeyError` or sets `fileset[sample]` and moves on |
| RunUtils.FileStepAdvance | src/run_utils.py:52-78 | one turn of the outer loop in file mode either raises the lookup's `KeyError` or merges that sample's entries and moves on |
| RunUtils.GetFileset | src/run_utils.py:31-80 | the loops of `get_fileset` return exactly `FilesetOf`: the muon override, per-sample lookups that abort with `KeyError`, subsample selection, and count or file mode |
| RunUtils.SampleFileStep | src/run_utils.py:53-76 | one sample's file-mode contribution: the lookup's `KeyError`, or `SampleFiles` of its selected subsamples; see `StepsSucceedIff`, `FileStepWrites`, `FileStepWritesKey` |
| RunUtils.SampleCountStep | src/run_utils.py:53-68 | one sample's count-mode contribution: the lookup's `KeyError`, or the one entry `sample` holding its subsample counts; see `StepsSucceedIff`, `CountStepWrites` |
| RunUtils.FileStep | src/run_utils.py:52-76 | `SampleFileStep` as the step of the outer loop's fold; see `FileStepAdvance` |
| RunUtils.CountStep | src/run_utils.py:52-68 | `SampleCountStep` as the step of the outer loop's fold; see `CountStepAdvance` |
| RunUtils.FilesetOf | src/run_utils.py:31-80 | what `get_fileset` returns or raises: the requested samples folded in order from `{}`, in count or file mode; `GetFileset` computes it by the loops, and `FilesetErrors`, `CountModeKeys`, `CountModeContents`, `FileModeKeys` and `FileModeLastSampleWins` characterise it |
| RunUtils.StepsSucceedIff | src/run_utils.py:53 | one sample's contribution succeeds exactly when the year and the sample are in the index, and names the missing key otherwise |
| RunUtils.FilesetErrors | src/run_utils.py:52-53 | the fileset is returned exactly when every requested sample is in the index for the year; otherwise the `KeyError` names the missing year, or the first requested sample the year lacks |
| RunUtils.TriggerBoostedRunsMuon | src/run_utils.py:42-43 | for `trigger_boosted` the fileset is what any other processor gets for exactly `["Muon"]`, whatever samples were requested |
| RunUtils.CountStepWrites | src/run_utils.py:66-68 | in count mode a sample writes exactly one key, its own name, holding its subsample counts |
| RunUtils.CountModeKeys | src/run_utils.py:64-68 | in count mode the result has exactly one entry per requested sample |
| RunUtils.CountModeContents | src/run_utils.py:53-68 | in count mode every sample in the result is in the index, and `fileset[sample][subsample]` is the full length of the file list of each subsample kept for it |
| RunUtils.CountModeIgnoresSlice | src/run_utils.py:64-68 | `starti` and `endi` do not affect count mode |
| RunUtils.FileStepWrites | src/run_utils.py:74-78 | in file mode a sample writes the keys `year_sub` of its selected subsamples and nothing else |
| RunUtils.FileStepWritesKey | src/run_utils.py:74-78 | the key `year_sub` is written by a sample exactly when the sample provides `sub`, and then holds the sliced, prefixed files |
| RunUtils.FileModeKeys | src/run_utils.py:72-78 | the keys of the file-mode result are exactly `year_sub` for the selected subsamples of the requested samples |
| RunUtils.FileModeLastSampleWins | src/run_utils.py:74-78 | the entry `year_sub` holds the sliced, prefixed files from the last requested sample that provides `sub` |
| RunUtils.AppendSampleFiles | src/run_utils.py:52-78 | requesting one more sample in file mode keeps an earlier error; otherwise the new sample raises its `KeyError`, or its entries are merged last, overwriting equal keys and changing no others |
| RunUtils.AppendSampleCounts | src/run_utils.py:52-68 | requesting one more sample in count mode keeps an earlier error; otherwise the new sample raises its `KeyError`, or `fileset[sample]` is set last |
| Merge.MergeFrom | src/run_utils.py:78 | the fold of `acc = {**acc, **step(x)}` over the inputs in order, the first exception aborting it (also the fold at line 147); `MergeFromOkIff`, `MergeFromSnoc`, `MergeFromLastWriter` and `MergeFromValue` characterise it |
| Merge.MergeFromOkIff | src/run_utils.py:52-78 | the dictionary fold succeeds exactly when every step does, and otherwise reports the first failure |
| Merge.MergeFromSnoc | src/run_utils.py:78 | one more input merges its dictionary last, over the accumulated one |
| Merge.MergeFromLastWriter | src/run_utils.py:78 | a key is in the result exactly when the start or some input has it, and it holds the value of the last input that writes it |
| Merge.MergeFromValue | src/run_utils.py:147 | every key of the result holds the value of its last writer, or its starting value when no input writes it |
| RunUtils.Shape | src/run_utils.py:144 | `var.shape`: `()` for a scalar, `(n,)` for a vector, `(rows, cols)` for a matrix |
| RunUtils.Elements | src/run_utils.py:149 | the entries in row-major order; `SqueezeKeepsElements` shows squeezing keeps them |
| RunUtils.DropUnitAxes | src/run_utils.py:149 | a shape with its axes of length one removed, the shape `np.squeeze` gives; see `Squeeze` |
| RunUtils.Squeeze | src/run_utils.py:149 | `np.squeeze` gives an array whose shape is the input's with every axis of length one removed |
| RunUtils.SqueezeKeepsElements | src/run_utils.py:149 | squeezing keeps the entries in row-major order |
| RunUtils.Column | src/run_utils.py:146 | `var[:, obj]` has one entry per row, the row's entry at column `obj` |
| Strings.NatToString | src/run_utils.py:146 | `str(obj)` is non-empty, is a single digit exactly for numbers below ten, and ends with the last decimal digit |
| Strings.NatToStringInjective | src/run_utils.py:146 | different numbers have different decimal strings |
| RunUtils.ColumnKeyInjective | src/run_utils.py:146 | different columns of one key get different names `key + str(obj)` |
| RunUtils.ColumnKey | src/run_utils.py:146 | the name `f"{key}{obj}"`; `ColumnKeyInjective` shows it tells the columns of one key apart |
| RunUtils.ColumnEntries | src/run_utils.py:146 | `temp_dict`: column `obj` of the matrix under `key + str(obj)` for every `obj` below the column count; see `FlattenEntriesContents` |
| RunUtils.FlattenEntries | src/run_utils.py:144-149 | what one variable contributes: `IndexError` for a zero-dimensional array, the columns of a matrix with more than one column, the squeezed array otherwise; see `FlattenEntriesContents`, `FlattenEntriesShapes` |
| RunUtils.FlattenStep | src/run_utils.py:143-149 | `FlattenEntries` as the step of the loop's fold; see `FlattenAppend` |
| RunUtils.Flatten | src/run_utils.py:138-151 | what `flatten_dict` returns or raises: the items folded in order from `{}`; `FlattenDict` computes it by the loop, and `FlattenOkIff`, `FlattenShapes` and `FlattenLastEntryWins` characterise it |
| RunUtils.FlattenDict | src/run_utils.py:138-151 | the loop of `flatten_dict` returns exactly `Flatten` of the items in iteration order |
| RunUtils.FlattenOkIff | src/run_utils.py:144 | `flatten_dict` raises exactly when some variable is zero-dimensional, and then raises `IndexError` |
| RunUtils.FlattenEntriesContents | src/run_utils.py:144-149 | a matrix with `k > 1` columns becomes exactly the entries `key0` … `key(k-1)`, each the vector of that column; any other variable stays under its key, squeezed |
| RunUtils.FlattenEntriesShapes | src/run_utils.py:144-149 | what one variable contributes is at most one-dimensional, except a squeezed `(n, 0)` matrix with `n != 1` |
| RunUtils.FlattenShapes | src/run_utils.py:138-151 | every value of the result is at most one-dimensional, except a squeezed `(n, 0)` matrix with `n != 1` |
| RunUtils.FlattenAppend | src/run_utils.py:143-149 | one more variable merges its entries last, overwriting existing keys and changing no others |
| RunUtils.FlattenLastEntryWins | src/run_utils.py:143-149 | the value under a name is the column, or the squeezed variable, of the last variable that produces that name |
| MatchingSkimmer.Range | src/HH4b/processors/matchingSkimmer.py:68 | `range(nj)` lists `0 .. nj-1` in order |
| MatchingSkimmer.Combinations2 | src/HH4b/processors/matchingSkimmer.py:68-70 | `itertools.combinations(s, 2)` holds exactly the pairs of elements at two increasing positions |
| MatchingSkimmer.Combinations2Sorted | src/HH4b/processors/matchingSkimmer.py:68-70 | the combinations of a sorted sequence come in lexicographic order |
| MatchingSkimmer.FourDistinct | src/HH4b/processors/matchingSkimmer.py:70 | the filter `len(set(i + j)) == MIN_JETS`; `FourDistinctIff` shows it means four pairwise different indices |
| MatchingSkimmer.KeepFourDistinct | src/HH4b/processors/matchingSkimmer.py:70 | the filter keeps exactly the candidates whose four jet indices are distinct, as counted against `MIN_JETS` |
| MatchingSkimmer.KeepFourDistinctSorted | src/HH4b/processors/matchingSkimmer.py:70 | filtering keeps the order |
| MatchingSkimmer.JetAssignments | src/HH4b/processors/matchingSkimmer.py:66-72 | the table has exactly the key 4, since `MIN_JETS = MAX_JETS = 4`, and each entry is the filtered pairs of pairs for its `nj` |
| MatchingSkimmer.JetPairsInRange | src/HH4b/processors/matchingSkimmer.py:68 | a dijet is in `combinations(range(nj), 2)` exactly when it is `(i, j)` with `0 <= i < j < nj` |
| MatchingSkimmer.FourDistinctIff | src/HH4b/processors/matchingSkimmer.py:70 | `len(set(i + j)) == 4` holds exactly when the four indices are pairwise different, so the two dijets are disjoint |
| MatchingSkimmer.JetPairsSorted | src/HH4b/processors/matchingSkimmer.py:68 | the dijets come in lexicographic order |
| MatchingSkimmer.Assignments | src/HH4b/processors/matchingSkimmer.py:68-71 | the filtered pairs of dijets of `range(nj)`, in `itertools` order; `AssignmentIff`, `AssignmentsSorted`, `SplitListed` and `SplitListedOnce` characterise it |
| MatchingSkimmer.AssignmentIff | src/HH4b/processors/matchingSkimmer.py:68-71 | a pairing is in the entry for `nj` exactly when both dijets are increasing pairs below `nj`, the first is lexicographically smaller, and the two are disjoint |
| MatchingSkimmer.AssignmentsExactly | src/HH4b/processors/matchingSkimmer.py:68-71 | the same, for all pairings at once |
| MatchingSkimmer.AssignmentsSorted | src/HH4b/processors/matchingSkimmer.py:68-71 | the entries are in strictly increasing lexicographic order, so none is repeated |
| MatchingSkimmer.FirstPairHoldsSmallest | src/HH4b/processors/matchingSkimmer.py:68-70 | in every pairing the smallest jet index opens the first dijet |
| MatchingSkimmer.FirstPairHasJetZero | src/HH4b/processors/matchingSkimmer.py:66-72 | with four jets, every first dijet contains jet 0 |
| MatchingSkimmer.SameSplitIsCanonical | src/HH4b/processors/matchingSkimmer.py:68-71 | a listed pairing of a given split into two unordered dijets is that split's canonical form |
| MatchingSkimmer.CanonicalDescribesSplit | src/HH4b/processors/matchingSkimmer.py:68-71 | the canonical form of a split of four distinct jets below `nj` is a canonical pairing that describes that split |
| MatchingSkimmer.ListedSplitUnique | src/HH4b/processors/matchingSkimmer.py:68-71 | two listed pairings that describe the same split into unordered dijets are equal |
| MatchingSkimmer.SplitListed | src/HH4b/processors/matchingSkimmer.py:68-71 | completeness: each split of four distinct jets below `nj` into two unordered dijets appears in the entry |
| MatchingSkimmer.SplitListedOnce | src/HH4b/processors/matchingSkimmer.py:68-71 | uniqueness: no split into two unordered dijets appears at two positions |
| MatchingSkimmer.CanonicalSplitsOfFour | src/HH4b/processors/matchingSkimmer.py:68-71 | with four jets there are exactly three canonical pairings, `((0,1),(2,3))`, `((0,2),(1,3))` and `((0,3),(1,2))` |
| MatchingSkimmer.SameEntriesAsFour | src/HH4b/processors/matchingSkimmer.py:68-71 | the entry for four jets holds exactly those three pairings |
| MatchingSkimmer.FourJetAssignments | src/HH4b/processors/matchingSkimmer.py:68-72 | the entry for four jets is exactly those three pairings, in that order |
| MatchingSkimmer.FourJetTable | src/HH4b/processors/matchingSkimmer.py:66-72 | the whole table is `{4: [((0,1),(2,3)), ((0,2),(1,3)), ((0,3),(1,2))]}` |
| MatchingSkimmer.SortedSameElements | src/HH4b/processors/matchingSkimmer.py:68-72 | two strictly increasing lists of pairings with the same elements are equal |
| Strings.Contains | src/HH4b/boosted/TrainBDT.py:91 | Python's `sub in s` holds exactly when `sub` occurs in `s` at some position |
| TrainBDT.LegTitle | src/HH4b/boosted/TrainBDT.py:89-100 | the title always begins with the $p_T$ line, a newline and the Xbb line, and continues after them |
| TrainBDT.LegTitleIsJoin | src/HH4b/boosted/TrainBDT.py:89-100 | the concatenated title is its intended lines joined by newlines |
| TrainBDT.LegTitleLines | src/HH4b/boosted/TrainBDT.py:89-100 | splitting the title at newlines gives exactly the $p_T$ line, the Xbb line, the "PNet Legacy" line when the branch name contains "Legacy", and the mass-cut line |
| TrainBDT.PNetLegacyLineIff | src/HH4b/boosted/TrainBDT.py:91-92 | the "PNet Legacy" line appears exactly when "Legacy" is a substring of the Xbb branch name |
| TrainBDT.MassCutLine | src/HH4b/boosted/TrainBDT.py:94-97 | the mass-cut line, the legacy one exactly when `legacy` holds; see `MassLineExactlyOne` |
| TrainBDT.MassLineExactlyOne | src/HH4b/boosted/TrainBDT.py:94-97 | the last line is the legacy mass cut when `legacy` holds and the plain one otherwise, and the other mass-cut line does not appear |
| TrainBDT.LineCount | src/HH4b/boosted/TrainBDT.py:90-99 | the title has three lines without the "PNet Legacy" line and four with it; the first two are fixed, and the "PNet Legacy" line comes right before the mass-cut line |
| TrainBDT.FlagsIndependent | src/HH4b/boosted/TrainBDT.py:91-97 | `legacy` alone adds no "PNet Legacy" line, and a "Legacy" branch name alone does not change the mass-cut line |

## Left out

- The read of `data/nanoindex_{version}.json` is left out because it is file I/O. The parsed index is a parameter, and `version` with it.
- `coffea_casa` is left out: the modelled code never reads it.
- Python's default arguments are not modelled as defaults. `get_fileset`'s `starti=0`, `endi=-1` and `get_num_files=False`, and `add_bool_arg`'s `default=False`, are explicit parameters of `FilesetOf`, `GetFileset` and `AddBoolArg`. `SliceFilesWindow` states that the default slice takes every file.
- Python dictionary and set iteration order is left out. The subsample intersection is a set, so the model uses maps and claims no order of keys. The items of `var_dict` are an ordered sequence, because a generated name `key + str(obj)` can collide with another key, and then the order decides which value survives.
- In `add_bool_arg` the argparse calls themselves are left out, because they are side effects on a library object. The model returns the two flags and the default they register.
- `add_mixins`, `get_processor` and `parse_common_args` are left out. They mutate library schema state, import and construct processors, or only wire argparse.
- Arrays of three or more dimensions are left out of `flatten_dict`, because the model's arrays have at most two axes. The code splits such an array too when its last axis is longer than one. It splits along axis 1 (`var[:, obj]`) while `obj` ranges over the last axis. It therefore raises `IndexError` when the last axis is longer than axis 1, and otherwise yields entries that are still multi-dimensional. Element values are a type parameter, so no numeric semantics are involved.
- The `IndexError` of `shape[-1]` on a zero-dimensional array carries no message in the model.
- `JET_ASSIGNMENTS[nj]` is a NumPy array of shape `(3, 2, 2)` in the source; the model keeps it as a sequence of pairs of pairs.
- The rest of `matchingSkimmer.py` is not part of this model: event processing, parquet output, and the floating-point Lorentz-vector work in `getJetAssignmentVars`.
- The rest of `TrainBDT.py` is not part of this model: training, loading, weight normalisation, scores, cuts and plotting are floating-point or library code.
- `src/HH4b/processors/objects.py` is not part of this model. Its selections are floating-point thresholds over event arrays.
