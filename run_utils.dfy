/**
 * Job helpers of the processor runner: the names and help texts of a paired
 * boolean command-line flag, the construction of the fileset a job runs on
 * from the parsed NanoAOD file index, and the flattening of a dictionary of
 * per-event arrays into one-dimensional columns.
 */
module RunUtils {
  import opened Wrappers
  import opened Strings
  import opened Merge

  /** The exceptions the modelled code can raise. */
  datatype Error =
    | KeyError(key: string)    // a year or sample missing from the file index
    | IndexError               // `var.shape[-1]` of a zero-dimensional array

  // =====================================================================
  // add_bool_arg: the derived names and help texts

  /** One `parser.add_argument` call: the option string, its destination, its action and its help. */
  datatype Flag = Flag(option: string, dest: string, storeTrue: bool, help: string)

  /** The two mutually exclusive flags and the default registered with `set_defaults`. */
  datatype BoolArg = BoolArg(positive: Flag, negative: Flag, defaults: map<string, bool>)

  /** `"_".join(name.split("-"))` */
  function VarName(name: string): (varname: string)
    ensures varname == Replace(name, '-', '_')
  {
    JoinSplitReplaces(name, '-', '_');
    Join("_", Split(name, '-'))
  }

  /** The flags `add_bool_arg(parser, name, help, default, no_name)` registers. */
  function AddBoolArg(name: string, help: string, default: bool, noName: Option<string>): (arg: BoolArg)
    ensures arg.positive == Flag("--" + name, Replace(name, '-', '_'), true, help)
    ensures arg.negative.dest == arg.positive.dest && !arg.negative.storeTrue
    ensures arg.defaults == map[arg.positive.dest := default]
    ensures noName.None? ==> arg.negative.option == "--no-" + name && arg.negative.help == "don't " + help
    ensures noName.Some? ==> arg.negative.option == "--" + noName.value && arg.negative.help == help
    ensures noName.None? ==> arg.positive.option != arg.negative.option
  {
    var varname := VarName(name);
    var positive := Flag("--" + name, varname, true, help);
    var (flagName, noHelp) :=
      match noName
      case None => ("no-" + name, "don't " + help)
      case Some(n) => (n, help);
    assert noName.None? ==> |"--" + flagName| == |"--" + name| + 3;
    BoolArg(positive, Flag("--" + flagName, varname, false, noHelp), map[varname := default])
  }

  // =====================================================================
  // Python slicing

  /** A slice bound as Python normalises it for a sequence of length `n`: negative counts from the end, then clamped. */
  function SliceBound(i: int, n: nat): (k: nat)
    ensures k <= n
  {
    if i < 0 then (if i + n < 0 then 0 else i + n)
    else if i > n then n
    else i
  }

  /** `s[start:stop]` */
  function Slice<T>(s: seq<T>, start: int, stop: int): seq<T>
  {
    var lo := SliceBound(start, |s|);
    var hi := SliceBound(stop, |s|);
    if lo < hi then s[lo..hi] else []
  }

  /** `s[start:]` */
  function SliceFrom<T>(s: seq<T>, start: int): seq<T>
  {
    s[SliceBound(start, |s|)..]
  }

  /** `fnames[starti:] if endi < 0 else fnames[starti:endi]` */
  function SliceFiles(fnames: seq<string>, starti: int, endi: int): seq<string>
  {
    if endi < 0 then SliceFrom(fnames, starti) else Slice(fnames, starti, endi)
  }

  /**
   * The files a job takes form one contiguous run of the list, never longer
   * than the list; in range, the bounds mean what they say, a negative
   * `endi` means "to the end", an `endi` past the end is clamped to it, and
   * a negative `starti` counts from the end. The default call (`starti=0`,
   * `endi=-1`) takes the whole list.
   */
  lemma SliceFilesWindow(fnames: seq<string>, starti: int, endi: int)
    ensures var r := SliceFiles(fnames, starti, endi);
      && |r| <= |fnames|
      && (exists lo, hi :: 0 <= lo <= hi <= |fnames| && r == fnames[lo..hi])
      && (endi < 0 && 0 <= starti <= |fnames| ==> r == fnames[starti..])
      && (endi < 0 && 0 < -starti <= |fnames| ==> r == fnames[|fnames| + starti..])
      && (0 <= starti <= endi <= |fnames| ==> r == fnames[starti..endi])
      && (0 <= endi <= starti ==> r == [])
      && (0 <= starti <= |fnames| < endi ==> r == fnames[starti..])
      && (0 < -starti <= |fnames| && |fnames| + starti <= endi <= |fnames| ==> r == fnames[|fnames| + starti..endi])
      && SliceFiles(fnames, 0, -1) == fnames
  {
    var n := |fnames|;
    var r := SliceFiles(fnames, starti, endi);
    if endi < 0 {
      assert r == fnames[SliceBound(starti, n)..n];
    } else if SliceBound(starti, n) < SliceBound(endi, n) {
      assert r == fnames[SliceBound(starti, n)..SliceBound(endi, n)];
    } else {
      assert r == fnames[0..0];
    }
  }

  // =====================================================================
  // get_fileset

  const TriggerBoosted := "trigger_boosted"
  const Redirector := "root://cmsxrootd.fnal.gov//"

  /** The files of one sample, by subsample. */
  type SampleSet = map<string, seq<string>>

  /** The parsed NanoAOD index: year, then sample, then subsample, then file names. */
  type NanoIndex = map<string, map<string, SampleSet>>

  /** What `get_fileset` returns: file counts by sample and subsample, or file lists by `year_subsample`. */
  datatype Fileset =
    | FileCounts(counts: map<string, map<string, nat>>)
    | FileLists(files: map<string, seq<string>>)

  /** The samples a processor runs on: the boosted trigger study always runs on the muon dataset. */
  function RequestedSamples(processor: string, samples: seq<string>): seq<string>
  {
    if processor == TriggerBoosted then ["Muon"] else samples
  }

  /** `full_fileset_nano[year][sample]` */
  function LookupSample(index: NanoIndex, year: string, sample: string): (r: Result<SampleSet, Error>)
    ensures r.Ok? <==> year in index && sample in index[year]
    ensures r.Ok? ==> r.value == index[year][sample]
    ensures year !in index ==> r == Err(KeyError(year))
    ensures year in index && sample !in index[year] ==> r == Err(KeyError(sample))
  {
    if year !in index then Err(KeyError(year))
    else if sample !in index[year] then Err(KeyError(sample))
    else Ok(index[year][sample])
  }

  /**
   * The subsamples kept for one sample: only the requested ones when at
   * least one of them exists in the sample, otherwise all of them.
   */
  function SelectSubsamples(sampleSet: SampleSet, subsamples: seq<string>): (r: SampleSet)
    ensures (exists s :: s in subsamples && s in sampleSet) ==>
      r.Keys == set s | s in subsamples && s in sampleSet
    ensures (forall s :: s in subsamples ==> s !in sampleSet) ==> r == sampleSet
    ensures forall s :: s in r ==> s in sampleSet && r[s] == sampleSet[s]
  {
    var getSubsamples := sampleSet.Keys * set s | s in subsamples;
    if |getSubsamples| > 0 then map s | s in getSubsamples :: sampleSet[s]
    else
      assert forall s :: s in subsamples && s in sampleSet ==> s in getSubsamples;
      sampleSet
  }

  /** `f"{year}_{subsample}"` */
  function FileKey(year: string, subsample: string): string
  {
    year + "_" + subsample
  }

  /** Different subsamples of one year give different keys. */
  lemma FileKeyInjective(year: string, a: string, b: string)
    requires FileKey(year, a) == FileKey(year, b)
    ensures a == b
  {
    assert a == FileKey(year, a)[|year| + 1..];
    assert b == FileKey(year, b)[|year| + 1..];
  }

  /** `[redirector + fname for fname in fnames]` */
  function WithRedirector(fnames: seq<string>): seq<string>
  {
    seq(|fnames|, i requires 0 <= i < |fnames| => Redirector + fnames[i])
  }

  /**
   * A job's file list is the redirector prepended, in order, to one
   * contiguous run of the subsample's files, so it is never longer than
   * that list.
   */
  lemma FileListWindow(fnames: seq<string>, starti: int, endi: int)
    ensures var r := WithRedirector(SliceFiles(fnames, starti, endi));
      && |r| <= |fnames|
      && exists lo, hi :: 0 <= lo <= hi <= |fnames| && r == WithRedirector(fnames[lo..hi])
  {
    SliceFilesWindow(fnames, starti, endi);
  }

  /** `sample_fileset` for one sample: its selected subsamples' files, sliced and prefixed, keyed `year_subsample`. */
  function SampleFiles(year: string, sel: SampleSet, starti: int, endi: int): map<string, seq<string>>
  {
    forall a, b | FileKey(year, a) == FileKey(year, b) ensures a == b {
      FileKeyInjective(year, a, b);
    }
    map sub | sub in sel :: FileKey(year, sub) := WithRedirector(SliceFiles(sel[sub], starti, endi))
  }

  /** Every selected subsample has its entry under `year_subsample`, and there is no other entry. */
  lemma SampleFilesEntries(year: string, sel: SampleSet, starti: int, endi: int)
    ensures forall sub :: sub in sel ==>
      FileKey(year, sub) in SampleFiles(year, sel, starti, endi) &&
      SampleFiles(year, sel, starti, endi)[FileKey(year, sub)] == WithRedirector(SliceFiles(sel[sub], starti, endi))
    ensures forall k :: k in SampleFiles(year, sel, starti, endi) ==> exists sub :: sub in sel && k == FileKey(year, sub)
  {
    forall a, b | FileKey(year, a) == FileKey(year, b) ensures a == b {
      FileKeyInjective(year, a, b);
    }
  }

  /** `fileset[sample]` in count mode: the number of files of each selected subsample. */
  function SampleCounts(sel: SampleSet): (r: map<string, nat>)
    ensures r.Keys == sel.Keys
    ensures forall sub :: sub in r ==> r[sub] == |sel[sub]|
  {
    map sub | sub in sel :: |sel[sub]|
  }

  /** What one sample contributes in file mode. */
  function SampleFileStep(index: NanoIndex, year: string, subsamples: seq<string>, starti: int, endi: int, sample: string)
    : Result<map<string, seq<string>>, Error>
  {
    match LookupSample(index, year, sample)
    case Err(e) => Err(e)
    case Ok(sampleSet) => Ok(SampleFiles(year, SelectSubsamples(sampleSet, subsamples), starti, endi))
  }

  /** What one sample contributes in count mode. */
  function SampleCountStep(index: NanoIndex, year: string, subsamples: seq<string>, sample: string)
    : Result<map<string, map<string, nat>>, Error>
  {
    match LookupSample(index, year, sample)
    case Err(e) => Err(e)
    case Ok(sampleSet) => Ok(map[sample := SampleCounts(SelectSubsamples(sampleSet, subsamples))])
  }

  /** One turn of the outer loop in file mode, as the step of the fold over the samples. */
  function FileStep(index: NanoIndex, year: string, subsamples: seq<string>, starti: int, endi: int)
    : string -> Result<map<string, seq<string>>, Error>
  {
    sample => SampleFileStep(index, year, subsamples, starti, endi, sample)
  }

  /** One turn of the outer loop in count mode, as the step of the fold over the samples. */
  function CountStep(index: NanoIndex, year: string, subsamples: seq<string>)
    : string -> Result<map<string, map<string, nat>>, Error>
  {
    sample => SampleCountStep(index, year, subsamples, sample)
  }

  /** What `get_fileset` returns or raises. */
  function FilesetOf(
    processor: string, year: string, index: NanoIndex, samples: seq<string>, subsamples: seq<string>,
    starti: int, endi: int, getNumFiles: bool): Result<Fileset, Error>
  {
    var requested := RequestedSamples(processor, samples);
    if getNumFiles then
      match MergeFrom(CountStep(index, year, subsamples), requested, map[])
      case Err(e) => Err(e)
      case Ok(counts) => Ok(FileCounts(counts))
    else
      match MergeFrom(FileStep(index, year, subsamples, starti, endi), requested, map[])
      case Err(e) => Err(e)
      case Ok(files) => Ok(FileLists(files))
  }

  /** `sample_fileset` once one more subsample has been handled. */
  function InsertSubsample(year: string, before: SampleSet, sub: string, files: seq<string>, starti: int, endi: int)
    : map<string, seq<string>>
  {
    SampleFiles(year, before, starti, endi)[FileKey(year, sub) := WithRedirector(SliceFiles(files, starti, endi))]
  }

  /** The entry of one subsample is the same before and after the insertion. */
  lemma InsertSubsampleKey(year: string, before: SampleSet, sub: string, files: seq<string>, starti: int, endi: int, s: string)
    requires sub !in before && s in before[sub := files]
    ensures FileKey(year, s) in SampleFiles(year, before[sub := files], starti, endi)
    ensures FileKey(year, s) in InsertSubsample(year, before, sub, files, starti, endi)
    ensures SampleFiles(year, before[sub := files], starti, endi)[FileKey(year, s)] ==
      InsertSubsample(year, before, sub, files, starti, endi)[FileKey(year, s)]
  {
    var after := before[sub := files];
    SampleFilesEntries(year, after, starti, endi);
    if s != sub {
      SampleFilesEntries(year, before, starti, endi);
      assert FileKey(year, s) != FileKey(year, sub) by {
        if FileKey(year, s) == FileKey(year, sub) { FileKeyInjective(year, s, sub); }
      }
    }
  }

  /** Every entry of the larger sample's fileset is in the insertion, with the same files. */
  lemma InsertSubsampleCovers(year: string, before: SampleSet, sub: string, files: seq<string>, starti: int, endi: int)
    requires sub !in before
    ensures forall k :: k in SampleFiles(year, before[sub := files], starti, endi) ==>
      k in InsertSubsample(year, before, sub, files, starti, endi) &&
      SampleFiles(year, before[sub := files], starti, endi)[k] == InsertSubsample(year, before, sub, files, starti, endi)[k]
  {
    var after := before[sub := files];
    var lhs := SampleFiles(year, after, starti, endi);
    var rhs := InsertSubsample(year, before, sub, files, starti, endi);
    forall k | k in lhs ensures k in rhs && lhs[k] == rhs[k] {
      var s :| s in after && k == FileKey(year, s);
      InsertSubsampleKey(year, before, sub, files, starti, endi, s);
    }
  }

  /** The insertion has no entry the larger sample's fileset lacks. */
  lemma InsertSubsampleWithin(year: string, before: SampleSet, sub: string, files: seq<string>, starti: int, endi: int)
    requires sub !in before
    ensures forall k :: k in InsertSubsample(year, before, sub, files, starti, endi) ==>
      k in SampleFiles(year, before[sub := files], starti, endi)
  {
    var after := before[sub := files];
    SampleFilesEntries(year, after, starti, endi);
    SampleFilesEntries(year, before, starti, endi);
    forall k | k in InsertSubsample(year, before, sub, files, starti, endi) ensures k in SampleFiles(year, after, starti, endi) {
      if k != FileKey(year, sub) {
        var s :| s in before && k == FileKey(year, s);
        assert s in after;
      }
    }
  }

  /** Handling one more subsample adds exactly its entry to `sample_fileset`. */
  lemma SampleFilesInsert(year: string, before: SampleSet, sub: string, files: seq<string>, starti: int, endi: int)
    requires sub !in before
    ensures SampleFiles(year, before[sub := files], starti, endi) == InsertSubsample(year, before, sub, files, starti, endi)
  {
    InsertSubsampleCovers(year, before, sub, files, starti, endi);
    InsertSubsampleWithin(year, before, sub, files, starti, endi);
  }

  /** The inner loop of file mode: build `sample_fileset` one subsample at a time. */
  method CollectSampleFiles(year: string, sampleSet: SampleSet, starti: int, endi: int)
    returns (sampleFileset: map<string, seq<string>>)
    ensures sampleFileset == SampleFiles(year, sampleSet, starti, endi)
  {
    sampleFileset := map[];
    var todo := sampleSet.Keys;
    ghost var done: SampleSet := map[];
    assert SampleFiles(year, done, starti, endi) == map[];
    while todo != {}
      invariant todo <= sampleSet.Keys
      invariant done.Keys == sampleSet.Keys - todo
      invariant forall s :: s in done ==> done[s] == sampleSet[s]
      invariant sampleFileset == SampleFiles(year, done, starti, endi)
      decreases todo
    {
      var subsample :| subsample in todo;
      var fnames := SliceFiles(sampleSet[subsample], starti, endi);
      SampleFilesInsert(year, done, subsample, sampleSet[subsample], starti, endi);
      sampleFileset := sampleFileset[FileKey(year, subsample) := WithRedirector(fnames)];
      done := done[subsample := sampleSet[subsample]];
      todo := todo - {subsample};
    }
    assert done == sampleSet;
  }

  /** The inner loop of count mode: count the files of each subsample. */
  method CountSampleFiles(sampleSet: SampleSet) returns (sampleCounts: map<string, nat>)
    ensures sampleCounts == SampleCounts(sampleSet)
  {
    sampleCounts := map[];
    var todo := sampleSet.Keys;
    ghost var done: SampleSet := map[];
    while todo != {}
      invariant todo <= sampleSet.Keys
      invariant done.Keys == sampleSet.Keys - todo
      invariant forall s :: s in done ==> done[s] == sampleSet[s]
      invariant sampleCounts == SampleCounts(done)
      decreases todo
    {
      var subsample :| subsample in todo;
      sampleCounts := sampleCounts[subsample := |sampleSet[subsample]|];
      done := done[subsample := sampleSet[subsample]];
      todo := todo - {subsample};
    }
    assert done == sampleSet;
  }

  /** One turn of the file-mode loop: the first sample either raises or is merged in. */
  lemma FileStepAdvance(
    index: NanoIndex, year: string, subsamples: seq<string>, starti: int, endi: int,
    xs: seq<string>, acc: map<string, seq<string>>)
    requires xs != []
    ensures year !in index ==> MergeFrom(FileStep(index, year, subsamples, starti, endi), xs, acc) == Err(KeyError(year))
    ensures year in index && xs[0] !in index[year] ==>
      MergeFrom(FileStep(index, year, subsamples, starti, endi), xs, acc) == Err(KeyError(xs[0]))
    ensures year in index && xs[0] in index[year] ==>
      MergeFrom(FileStep(index, year, subsamples, starti, endi), xs, acc) ==
      MergeFrom(FileStep(index, year, subsamples, starti, endi), xs[1..],
        acc + SampleFiles(year, SelectSubsamples(index[year][xs[0]], subsamples), starti, endi))
  {
  }

  /** One turn of the count-mode loop: the first sample either raises or is merged in. */
  lemma CountStepAdvance(
    index: NanoIndex, year: string, subsamples: seq<string>,
    xs: seq<string>, acc: map<string, map<string, nat>>)
    requires xs != []
    ensures year !in index ==> MergeFrom(CountStep(index, year, subsamples), xs, acc) == Err(KeyError(year))
    ensures year in index && xs[0] !in index[year] ==>
      MergeFrom(CountStep(index, year, subsamples), xs, acc) == Err(KeyError(xs[0]))
    ensures year in index && xs[0] in index[year] ==>
      MergeFrom(CountStep(index, year, subsamples), xs, acc) ==
      MergeFrom(CountStep(index, year, subsamples), xs[1..],
        acc[xs[0] := SampleCounts(SelectSubsamples(index[year][xs[0]], subsamples))])
  {
    if year in index && xs[0] in index[year] {
      MergeSingleton(acc, xs[0], SampleCounts(SelectSubsamples(index[year][xs[0]], subsamples)));
    }
  }

  /** The imperative `get_fileset`: the loop over samples, merging what each one contributes. */
  method GetFileset(
    processor: string, year: string, index: NanoIndex, samples: seq<string>, subsamples: seq<string>,
    starti: int, endi: int, getNumFiles: bool) returns (r: Result<Fileset, Error>)
    ensures r == FilesetOf(processor, year, index, samples, subsamples, starti, endi, getNumFiles)
  {
    var requested := samples;
    if processor == TriggerBoosted {
      requested := ["Muon"];
    }
    assert requested == RequestedSamples(processor, samples);
    ghost var fileResult := MergeFrom(FileStep(index, year, subsamples, starti, endi), requested, map[]);
    ghost var countResult := MergeFrom(CountStep(index, year, subsamples), requested, map[]);
    var files: map<string, seq<string>> := map[];
    var counts: map<string, map<string, nat>> := map[];
    var i := 0;
    while i < |requested|
      invariant 0 <= i <= |requested|
      invariant !getNumFiles ==> MergeFrom(FileStep(index, year, subsamples, starti, endi), requested[i..], files) == fileResult
      invariant getNumFiles ==> MergeFrom(CountStep(index, year, subsamples), requested[i..], counts) == countResult
    {
      var sample := requested[i];
      assert requested[i..][0] == sample && requested[i..][1..] == requested[i + 1..];
      FileStepAdvance(index, year, subsamples, starti, endi, requested[i..], files);
      CountStepAdvance(index, year, subsamples, requested[i..], counts);
      if year !in index {
        return Err(KeyError(year));
      }
      if sample !in index[year] {
        return Err(KeyError(sample));
      }
      var sampleSet := SelectSubsamples(index[year][sample], subsamples);
      if getNumFiles {
        var sampleCounts := CountSampleFiles(sampleSet);
        counts := counts[sample := sampleCounts];
      } else {
        var sampleFileset := CollectSampleFiles(year, sampleSet, starti, endi);
        files := files + sampleFileset;
      }
      i := i + 1;
    }
    if getNumFiles {
      r := Ok(FileCounts(counts));
    } else {
      r := Ok(FileLists(files));
    }
  }

  // ---------------------------------------------------------------------
  // What `get_fileset` promises

  /** `full_fileset_nano[year][sample]` does not raise. */
  predicate Found(index: NanoIndex, year: string, sample: string)
  {
    year in index && sample in index[year]
  }

  /** The subsamples kept for a sample that is in the index. */
  function Selected(index: NanoIndex, year: string, subsamples: seq<string>, sample: string): SampleSet
    requires Found(index, year, sample)
  {
    SelectSubsamples(index[year][sample], subsamples)
  }

  /** `requested[i]` is the first requested sample that `samplesOfYear` lacks. */
  predicate FirstMissing(samplesOfYear: map<string, SampleSet>, requested: seq<string>, i: int)
  {
    && 0 <= i < |requested|
    && requested[i] !in samplesOfYear
    && forall j :: 0 <= j < i ==> requested[j] in samplesOfYear
  }

  /** A sample's step succeeds exactly when it is in the index, and says which key is missing otherwise. */
  lemma StepsSucceedIff(index: NanoIndex, year: string, subsamples: seq<string>, starti: int, endi: int, sample: string)
    ensures FileStep(index, year, subsamples, starti, endi)(sample).Ok? <==> Found(index, year, sample)
    ensures CountStep(index, year, subsamples)(sample).Ok? <==> Found(index, year, sample)
    ensures year !in index ==>
      FileStep(index, year, subsamples, starti, endi)(sample) == Err(KeyError(year)) &&
      CountStep(index, year, subsamples)(sample) == Err(KeyError(year))
    ensures year in index && sample !in index[year] ==>
      FileStep(index, year, subsamples, starti, endi)(sample) == Err(KeyError(sample)) &&
      CountStep(index, year, subsamples)(sample) == Err(KeyError(sample))
  {
  }

  /**
   * `get_fileset` returns exactly when every requested sample is in the
   * index for that year; otherwise it raises a `KeyError` naming the year,
   * or naming the first requested sample the year lacks.
   */
  lemma FilesetErrors(
    processor: string, year: string, index: NanoIndex, samples: seq<string>, subsamples: seq<string>,
    starti: int, endi: int, getNumFiles: bool)
    ensures var requested := RequestedSamples(processor, samples);
      FilesetOf(processor, year, index, samples, subsamples, starti, endi, getNumFiles).Ok? <==>
      forall i :: 0 <= i < |requested| ==> Found(index, year, requested[i])
    ensures var requested := RequestedSamples(processor, samples);
      var r := FilesetOf(processor, year, index, samples, subsamples, starti, endi, getNumFiles);
      r.Err? ==>
        || (year !in index && r.error == KeyError(year))
        || (year in index && exists i :: FirstMissing(index[year], requested, i) && r.error == KeyError(requested[i]))
  {
    var requested := RequestedSamples(processor, samples);
    var fileStep := FileStep(index, year, subsamples, starti, endi);
    var countStep := CountStep(index, year, subsamples);
    forall x ensures (fileStep(x).Ok? <==> Found(index, year, x)) && (countStep(x).Ok? <==> Found(index, year, x)) {
      StepsSucceedIff(index, year, subsamples, starti, endi, x);
    }
    var r := FilesetOf(processor, year, index, samples, subsamples, starti, endi, getNumFiles);
    if getNumFiles {
      MergeFromOkIff(countStep, requested, map[]);
      if r.Err? {
        var i :| 0 <= i < |requested| && countStep(requested[i]) == Err(r.error) &&
          forall j :: 0 <= j < i ==> countStep(requested[j]).Ok?;
        StepsSucceedIff(index, year, subsamples, starti, endi, requested[i]);
        if year in index {
          assert FirstMissing(index[year], requested, i);
        }
      }
    } else {
      MergeFromOkIff(fileStep, requested, map[]);
      if r.Err? {
        var i :| 0 <= i < |requested| && fileStep(requested[i]) == Err(r.error) &&
          forall j :: 0 <= j < i ==> fileStep(requested[j]).Ok?;
        StepsSucceedIff(index, year, subsamples, starti, endi, requested[i]);
        if year in index {
          assert FirstMissing(index[year], requested, i);
        }
      }
    }
  }

  /** The boosted trigger study gives what any other processor gives for the muon dataset alone. */
  lemma TriggerBoostedRunsMuon(
    other: string, year: string, index: NanoIndex, samples: seq<string>, subsamples: seq<string>,
    starti: int, endi: int, getNumFiles: bool)
    requires other != TriggerBoosted
    ensures FilesetOf(TriggerBoosted, year, index, samples, subsamples, starti, endi, getNumFiles) ==
      FilesetOf(other, year, index, ["Muon"], subsamples, starti, endi, getNumFiles)
  {
  }

  /** In count mode a sample writes exactly one key: its own name. */
  lemma CountStepWrites(index: NanoIndex, year: string, subsamples: seq<string>, x: string, k: string)
    ensures Writes(CountStep(index, year, subsamples), x, k) <==> Found(index, year, x) && k == x
    ensures Writes(CountStep(index, year, subsamples), x, k) ==>
      CountStep(index, year, subsamples)(x).value[k] == SampleCounts(Selected(index, year, subsamples, x))
  {
  }

  /** In count mode the result has one entry per requested sample. */
  lemma CountModeKeys(
    processor: string, year: string, index: NanoIndex, samples: seq<string>, subsamples: seq<string>,
    starti: int, endi: int)
    requires FilesetOf(processor, year, index, samples, subsamples, starti, endi, true).Ok?
    ensures FilesetOf(processor, year, index, samples, subsamples, starti, endi, true).value.FileCounts?
    ensures FilesetOf(processor, year, index, samples, subsamples, starti, endi, true).value.counts.Keys ==
      set s | s in RequestedSamples(processor, samples)
  {
    var requested := RequestedSamples(processor, samples);
    var step := CountStep(index, year, subsamples);
    var m := MergeFrom(step, requested, map[]).value;
    FilesetErrors(processor, year, index, samples, subsamples, starti, endi, true);
    MergeFromLastWriter(step, requested, map[], m);
    forall k ensures k in m <==> k in requested {
      if k in m {
        var i :| 0 <= i < |requested| && Writes(step, requested[i], k);
        CountStepWrites(index, year, subsamples, requested[i], k);
      }
      if k in requested {
        var i :| 0 <= i < |requested| && requested[i] == k;
        CountStepWrites(index, year, subsamples, requested[i], k);
      }
    }
  }

  /**
   * In count mode `fileset[sample][subsample]` is the full length of that
   * subsample's file list, for every subsample kept for the sample.
   */
  lemma CountModeContents(
    processor: string, year: string, index: NanoIndex, samples: seq<string>, subsamples: seq<string>,
    starti: int, endi: int, sample: string)
    requires FilesetOf(processor, year, index, samples, subsamples, starti, endi, true).Ok?
    requires sample in FilesetOf(processor, year, index, samples, subsamples, starti, endi, true).value.counts
    ensures Found(index, year, sample)
    ensures FilesetOf(processor, year, index, samples, subsamples, starti, endi, true).value.counts[sample] ==
      SampleCounts(Selected(index, year, subsamples, sample))
  {
    var requested := RequestedSamples(processor, samples);
    var step := CountStep(index, year, subsamples);
    var m := MergeFrom(step, requested, map[]).value;
    MergeFromValue(step, requested, map[], m);
    var i :| LastWriter(step, requested, sample, i) && m[sample] == step(requested[i]).value[sample];
    CountStepWrites(index, year, subsamples, requested[i], sample);
  }

  /** The slice bounds do not affect count mode. */
  lemma CountModeIgnoresSlice(
    processor: string, year: string, index: NanoIndex, samples: seq<string>, subsamples: seq<string>,
    starti: int, endi: int, starti': int, endi': int)
    ensures FilesetOf(processor, year, index, samples, subsamples, starti, endi, true) ==
      FilesetOf(processor, year, index, samples, subsamples, starti', endi', true)
  {
  }

  /** `sample` is in the index and `sub` is one of its selected subsamples. */
  predicate Provides(index: NanoIndex, year: string, subsamples: seq<string>, sample: string, sub: string)
  {
    Found(index, year, sample) && sub in Selected(index, year, subsamples, sample)
  }

  /** In file mode a sample writes the keys `year_sub` of its selected subsamples and nothing else. */
  lemma FileStepWrites(index: NanoIndex, year: string, subsamples: seq<string>, starti: int, endi: int, x: string, k: string)
    ensures Writes(FileStep(index, year, subsamples, starti, endi), x, k) <==>
      exists sub :: Provides(index, year, subsamples, x, sub) && k == FileKey(year, sub)
  {
    if Found(index, year, x) {
      SampleFilesEntries(year, Selected(index, year, subsamples, x), starti, endi);
    }
  }

  /** The key `year_sub` is written by a sample exactly when it provides `sub`, with the sliced, prefixed files. */
  lemma FileStepWritesKey(index: NanoIndex, year: string, subsamples: seq<string>, starti: int, endi: int, x: string, sub: string)
    ensures Writes(FileStep(index, year, subsamples, starti, endi), x, FileKey(year, sub)) <==>
      Provides(index, year, subsamples, x, sub)
    ensures Provides(index, year, subsamples, x, sub) ==>
      FileStep(index, year, subsamples, starti, endi)(x).value[FileKey(year, sub)] ==
      WithRedirector(SliceFiles(Selected(index, year, subsamples, x)[sub], starti, endi))
  {
    if Found(index, year, x) {
      var sel := Selected(index, year, subsamples, x);
      SampleFilesEntries(year, sel, starti, endi);
      if FileKey(year, sub) in SampleFiles(year, sel, starti, endi) {
        var t :| t in sel && FileKey(year, sub) == FileKey(year, t);
        FileKeyInjective(year, sub, t);
      }
    }
  }

  /**
   * In file mode the result holds one entry `year_sub` for every selected
   * subsample of every requested sample, and no other entry.
   */
  lemma FileModeKeys(
    processor: string, year: string, index: NanoIndex, samples: seq<string>, subsamples: seq<string>,
    starti: int, endi: int)
    requires FilesetOf(processor, year, index, samples, subsamples, starti, endi, false).Ok?
    ensures FilesetOf(processor, year, index, samples, subsamples, starti, endi, false).value.FileLists?
    ensures var requested := RequestedSamples(processor, samples);
      var files := FilesetOf(processor, year, index, samples, subsamples, starti, endi, false).value.files;
      forall k :: k in files <==>
        exists i, sub :: 0 <= i < |requested| && Provides(index, year, subsamples, requested[i], sub) && k == FileKey(year, sub)
  {
    var requested := RequestedSamples(processor, samples);
    var step := FileStep(index, year, subsamples, starti, endi);
    var m := MergeFrom(step, requested, map[]).value;
    MergeFromLastWriter(step, requested, map[], m);
    forall k ensures k in m <==>
      exists i, sub :: 0 <= i < |requested| && Provides(index, year, subsamples, requested[i], sub) && k == FileKey(year, sub)
    {
      if k in m {
        var i :| 0 <= i < |requested| && Writes(step, requested[i], k);
        FileStepWrites(index, year, subsamples, starti, endi, requested[i], k);
      } else {
        forall i, sub | 0 <= i < |requested| && Provides(index, year, subsamples, requested[i], sub)
          ensures k != FileKey(year, sub)
        {
          FileStepWritesKey(index, year, subsamples, starti, endi, requested[i], sub);
        }
      }
    }
  }

  /**
   * In file mode the entry `year_sub` holds the sliced, prefixed files of
   * `sub` from the last requested sample that provides it: later samples
   * overwrite earlier ones.
   */
  lemma FileModeLastSampleWins(
    processor: string, year: string, index: NanoIndex, samples: seq<string>, subsamples: seq<string>,
    starti: int, endi: int, i: int, sub: string)
    requires FilesetOf(processor, year, index, samples, subsamples, starti, endi, false).Ok?
    requires 0 <= i < |RequestedSamples(processor, samples)|
    requires Provides(index, year, subsamples, RequestedSamples(processor, samples)[i], sub)
    requires forall j :: i < j < |RequestedSamples(processor, samples)| ==>
      !Provides(index, year, subsamples, RequestedSamples(processor, samples)[j], sub)
    ensures var files := FilesetOf(processor, year, index, samples, subsamples, starti, endi, false).value.files;
      && FileKey(year, sub) in files
      && files[FileKey(year, sub)] ==
         WithRedirector(SliceFiles(Selected(index, year, subsamples, RequestedSamples(processor, samples)[i])[sub], starti, endi))
  {
    var requested := RequestedSamples(processor, samples);
    var step := FileStep(index, year, subsamples, starti, endi);
    var m := MergeFrom(step, requested, map[]).value;
    MergeFromLastWriter(step, requested, map[], m);
    FileStepWritesKey(index, year, subsamples, starti, endi, requested[i], sub);
    forall j | i < j < |requested| ensures !Writes(step, requested[j], FileKey(year, sub)) {
      FileStepWritesKey(index, year, subsamples, starti, endi, requested[j], sub);
    }
  }

  /** Requesting one more sample in file mode: an earlier error stands, otherwise the new sample raises or is merged last. */
  lemma AppendSampleFiles(
    processor: string, year: string, index: NanoIndex, samples: seq<string>, x: string, subsamples: seq<string>,
    starti: int, endi: int)
    requires processor != TriggerBoosted
    ensures var before := FilesetOf(processor, year, index, samples, subsamples, starti, endi, false);
      var after := FilesetOf(processor, year, index, samples + [x], subsamples, starti, endi, false);
      && (before.Err? ==> after == before)
      && (before.Ok? && !Found(index, year, x) ==> after == Err(if year in index then KeyError(x) else KeyError(year)))
      && (before.Ok? && Found(index, year, x) ==>
            before.value.FileLists? && after == Ok(FileLists(before.value.files + SampleFiles(year, Selected(index, year, subsamples, x), starti, endi))))
  {
    var step := FileStep(index, year, subsamples, starti, endi);
    MergeFromSnoc(step, samples, x, map[]);
    StepsSucceedIff(index, year, subsamples, starti, endi, x);
  }

  /** Requesting one more sample in count mode: an earlier error stands, otherwise the new sample raises or is set last. */
  lemma AppendSampleCounts(
    processor: string, year: string, index: NanoIndex, samples: seq<string>, x: string, subsamples: seq<string>,
    starti: int, endi: int)
    requires processor != TriggerBoosted
    ensures var before := FilesetOf(processor, year, index, samples, subsamples, starti, endi, true);
      var after := FilesetOf(processor, year, index, samples + [x], subsamples, starti, endi, true);
      && (before.Err? ==> after == before)
      && (before.Ok? && !Found(index, year, x) ==> after == Err(if year in index then KeyError(x) else KeyError(year)))
      && (before.Ok? && Found(index, year, x) ==>
            before.value.FileCounts? && after == Ok(FileCounts(before.value.counts[x := SampleCounts(Selected(index, year, subsamples, x))])))
  {
    var step := CountStep(index, year, subsamples);
    MergeFromSnoc(step, samples, x, map[]);
    StepsSucceedIff(index, year, subsamples, starti, endi, x);
    if Found(index, year, x) && MergeFrom(step, samples, map[]).Ok? {
      MergeSingleton(MergeFrom(step, samples, map[]).value, x, SampleCounts(Selected(index, year, subsamples, x)));
    }
  }

  /** Merging a one-entry dictionary is setting that entry. */
  lemma MergeSingleton<K, V>(m: map<K, V>, k: K, v: V)
    ensures m + map[k := v] == m[k := v]
  {
  }

  // =====================================================================
  // flatten_dict

  /** A numpy array of at most two dimensions: zero-dimensional, a vector, or `rows` of `cols` entries each. */
  datatype NdArray<T> =
    | Scalar(value: T)
    | Vector(elems: seq<T>)
    | Matrix(rows: seq<seq<T>>, cols: nat)

  /** Every row of a matrix has `cols` entries. */
  predicate Rectangular<T>(v: NdArray<T>)
  {
    v.Matrix? ==> forall i :: 0 <= i < |v.rows| ==> |v.rows[i]| == v.cols
  }

  /** `var.shape` */
  function Shape<T>(v: NdArray<T>): seq<nat>
  {
    match v
    case Scalar(_) => []
    case Vector(elems) => [|elems|]
    case Matrix(rows, cols) => [|rows|, cols]
  }

  /** The entries in row-major order, as `var.flatten()` lists them. */
  function Elements<T>(v: NdArray<T>): seq<T>
  {
    match v
    case Scalar(x) => [x]
    case Vector(elems) => elems
    case Matrix(rows, _) => Concat(rows)
  }

  /** The rows laid end to end. */
  function Concat<T>(rows: seq<seq<T>>): seq<T>
  {
    if rows == [] then [] else rows[0] + Concat(rows[1..])
  }

  /** The axes of a shape that are not of length one. */
  function DropUnitAxes(shape: seq<nat>): seq<nat>
  {
    if shape == [] then [] else (if shape[0] == 1 then [] else [shape[0]]) + DropUnitAxes(shape[1..])
  }

  /** Squeezing a two-dimensional shape drops each of its two axes that has length one. */
  lemma DropUnitAxesOfPair(a: nat, b: nat)
    ensures DropUnitAxes([a, b]) == (if a == 1 then [] else [a]) + (if b == 1 then [] else [b])
  {
    var one: seq<nat> := [b];
    var two: seq<nat> := [a, b];
    assert two[1..] == one && one[1..] == [];
    assert DropUnitAxes(one) == if b == 1 then [] else [b];
    assert DropUnitAxes(two) == (if a == 1 then [] else [a]) + DropUnitAxes(one);
  }

  /** `var[:, obj]` of a matrix. */
  function Column<T>(v: NdArray<T>, obj: nat): (c: seq<T>)
    requires v.Matrix? && Rectangular(v) && obj < v.cols
    ensures |c| == |v.rows|
    ensures forall i :: 0 <= i < |c| ==> c[i] == v.rows[i][obj]
  {
    seq(|v.rows|, i requires 0 <= i < |v.rows| => v.rows[i][obj])
  }

  /** `np.squeeze(var)`: the same entries with every axis of length one removed. */
  function Squeeze<T>(v: NdArray<T>): (r: NdArray<T>)
    requires Rectangular(v)
    ensures Rectangular(r)
    ensures Shape(r) == DropUnitAxes(Shape(v))
  {
    match v
    case Scalar(_) => v
    case Vector(elems) => if |elems| == 1 then Scalar(elems[0]) else v
    case Matrix(rows, cols) =>
      DropUnitAxesOfPair(|rows|, cols);
      if |rows| == 1 && cols == 1 then Scalar(rows[0][0])
      else if |rows| == 1 then assert |v.rows[0]| == cols; Vector(rows[0])
      else if cols == 1 then Vector(Column(v, 0))
      else v
  }

  /** Squeezing keeps the entries and their order. */
  lemma SqueezeKeepsElements<T>(v: NdArray<T>)
    requires Rectangular(v)
    ensures Elements(Squeeze(v)) == Elements(v)
  {
    if v.Matrix? && v.cols == 1 && |v.rows| != 1 {
      ConcatSingletons(v.rows);
    }
    if v.Matrix? && |v.rows| == 1 {
      assert Concat(v.rows) == v.rows[0] + Concat(v.rows[1..]);
    }
  }

  /** Rows of one entry each concatenate to the column of those entries. */
  lemma {:induction false} ConcatSingletons<T>(rows: seq<seq<T>>)
    requires forall i :: 0 <= i < |rows| ==> |rows[i]| == 1
    ensures Concat(rows) == seq(|rows|, i requires 0 <= i < |rows| => rows[i][0])
    decreases |rows|
  {
    if rows != [] {
      ConcatSingletons(rows[1..]);
      assert rows[0] == [rows[0][0]];
    }
  }

  /** `f"{key}{obj}"` */
  function ColumnKey(key: string, obj: nat): string
  {
    key + NatToString(obj)
  }

  /** Different columns of one key get different names. */
  lemma ColumnKeyInjective(key: string, a: nat, b: nat)
    requires ColumnKey(key, a) == ColumnKey(key, b)
    ensures a == b
  {
    assert NatToString(a) == ColumnKey(key, a)[|key|..];
    assert NatToString(b) == ColumnKey(key, b)[|key|..];
    NatToStringInjective(a, b);
  }

  /** `temp_dict`: one vector per column of a matrix, named by the key and the column number. */
  function ColumnEntries<T>(key: string, v: NdArray<T>): map<string, NdArray<T>>
    requires v.Matrix? && Rectangular(v)
  {
    forall a, b | ColumnKey(key, a) == ColumnKey(key, b) ensures a == b {
      ColumnKeyInjective(key, a, b);
    }
    map obj | 0 <= obj < v.cols :: ColumnKey(key, obj) := Vector(Column(v, obj))
  }

  /** What one item of `var_dict` contributes, or the `IndexError` that `var.shape[-1]` raises. */
  function FlattenEntries<T>(key: string, v: NdArray<T>): Result<map<string, NdArray<T>>, Error>
    requires Rectangular(v)
  {
    var shape := Shape(v);
    if |shape| == 0 then Err(IndexError)
    else if |shape| >= 2 && shape[|shape| - 1] > 1 then Ok(ColumnEntries(key, v))
    else Ok(map[key := Squeeze(v)])
  }

  /** One turn of the loop of `flatten_dict`, as the step of the fold over the items. */
  function FlattenStep<T>(): ((string, NdArray<T>)) --> Result<map<string, NdArray<T>>, Error>
  {
    (item: (string, NdArray<T>)) requires Rectangular(item.1) => FlattenEntries(item.0, item.1)
  }

  /** All entries of `var_dict`, in its iteration order, are arrays. */
  predicate AllRectangular<T>(items: seq<(string, NdArray<T>)>)
  {
    forall i :: 0 <= i < |items| ==> Rectangular(items[i].1)
  }

  /** What `flatten_dict` returns or raises for the items of `var_dict` in iteration order. */
  function Flatten<T>(items: seq<(string, NdArray<T>)>): Result<map<string, NdArray<T>>, Error>
    requires AllRectangular(items)
  {
    MergeFrom(FlattenStep(), items, map[])
  }

  /** The imperative `flatten_dict`. */
  method FlattenDict<T>(items: seq<(string, NdArray<T>)>) returns (r: Result<map<string, NdArray<T>>, Error>)
    requires AllRectangular(items)
    ensures r == Flatten(items)
  {
    var newDict: map<string, NdArray<T>> := map[];
    var i := 0;
    while i < |items|
      invariant 0 <= i <= |items|
      invariant MergeFrom(FlattenStep(), items[i..], newDict) == Flatten(items)
    {
      var (key, v) := items[i];
      assert items[i..][0] == items[i] && items[i..][1..] == items[i + 1..];
      var shape := Shape(v);
      if |shape| == 0 {
        return Err(IndexError);
      }
      var numObjects := shape[|shape| - 1];
      if |shape| >= 2 && numObjects > 1 {
        var tempDict := ColumnEntries(key, v);
        newDict := newDict + tempDict;
      } else {
        assert newDict[key := Squeeze(v)] == newDict + map[key := Squeeze(v)];
        newDict := newDict[key := Squeeze(v)];
      }
      i := i + 1;
    }
    r := Ok(newDict);
  }

  // ---------------------------------------------------------------------
  // What `flatten_dict` promises

  /** `flatten_dict` raises exactly when some entry is a zero-dimensional array, and then raises `IndexError`. */
  lemma FlattenOkIff<T>(items: seq<(string, NdArray<T>)>)
    requires AllRectangular(items)
    ensures Flatten(items).Ok? <==> forall i :: 0 <= i < |items| ==> !items[i].1.Scalar?
    ensures Flatten(items).Err? ==> Flatten(items).error == IndexError
  {
    MergeFromOkIff(FlattenStep(), items, map[]);
  }

  /**
   * A matrix with more than one column becomes one vector per column,
   * named `key0`, `key1`, ...; anything else is kept under its own key,
   * squeezed.
   */
  lemma FlattenEntriesContents<T>(key: string, v: NdArray<T>)
    requires Rectangular(v) && !v.Scalar?
    ensures FlattenEntries(key, v).Ok?
    ensures v.Matrix? && v.cols > 1 ==>
      && (forall k :: k in FlattenEntries(key, v).value <==> exists obj: nat :: obj < v.cols && k == ColumnKey(key, obj))
      && (forall obj: nat :: obj < v.cols ==> FlattenEntries(key, v).value[ColumnKey(key, obj)] == Vector(Column(v, obj)))
    ensures !(v.Matrix? && v.cols > 1) ==> FlattenEntries(key, v).value == map[key := Squeeze(v)]
  {
    if v.Matrix? && v.cols > 1 {
      forall a: nat, b: nat | ColumnKey(key, a) == ColumnKey(key, b) ensures a == b {
        ColumnKeyInjective(key, a, b);
      }
      var e := ColumnEntries(key, v);
      assert FlattenEntries(key, v).value == e;
    }
  }

  /** What one entry contributes is at most one-dimensional, except a squeezed matrix with no columns. */
  lemma FlattenEntriesShapes<T>(key: string, v: NdArray<T>, k: string)
    requires Rectangular(v)
    requires FlattenEntries(key, v).Ok? && k in FlattenEntries(key, v).value
    ensures var shape := Shape(FlattenEntries(key, v).value[k]);
      |shape| <= 1 || (|shape| == 2 && shape[0] != 1 && shape[1] == 0)
  {
    if !(v.Matrix? && v.cols > 1) {
      var shape := Shape(v);
      if v.Matrix? {
        DropUnitAxesOfPair(shape[0], shape[1]);
        assert shape == [shape[0], shape[1]];
      } else {
        assert shape == [shape[0]] && shape[1..] == [];
      }
    }
  }

  /**
   * Every value `flatten_dict` returns is a vector or a scalar (the
   * "1d-array" of its docstring), except that a matrix with no columns and
   * more than one row survives squeezing as a matrix.
   */
  lemma FlattenShapes<T>(items: seq<(string, NdArray<T>)>)
    requires AllRectangular(items)
    requires Flatten(items).Ok?
    ensures forall k :: k in Flatten(items).value ==>
      var shape := Shape(Flatten(items).value[k]);
      |shape| <= 1 || (|shape| == 2 && shape[0] != 1 && shape[1] == 0)
  {
    var m := Flatten(items).value;
    MergeFromValue(FlattenStep(), items, map[], m);
    forall k | k in m
      ensures var shape := Shape(m[k]); |shape| <= 1 || (|shape| == 2 && shape[0] != 1 && shape[1] == 0)
    {
      var i :| LastWriter(FlattenStep(), items, k, i) && m[k] == FlattenStep()(items[i]).value[k];
      FlattenEntriesShapes(items[i].0, items[i].1, k);
    }
  }

  /** Flattening one more entry merges its contribution last, overwriting keys already present. */
  lemma FlattenAppend<T>(items: seq<(string, NdArray<T>)>, key: string, v: NdArray<T>)
    requires AllRectangular(items) && Rectangular(v)
    ensures AllRectangular(items + [(key, v)])
    ensures Flatten(items + [(key, v)]) ==
      match Flatten(items)
      case Err(e) => Err(e)
      case Ok(m) => (match FlattenEntries(key, v) case Err(e) => Err(e) case Ok(n) => Ok(m + n))
  {
    MergeFromSnoc(FlattenStep(), items, (key, v), map[]);
  }

  /**
   * A column `key<obj>` of a multi-column matrix, or the squeezed entry of
   * any other array, is what the result holds under that name unless a
   * later entry produces the same name.
   */
  lemma FlattenLastEntryWins<T>(items: seq<(string, NdArray<T>)>, i: int, k: string)
    requires AllRectangular(items)
    requires Flatten(items).Ok?
    requires LastWriter(FlattenStep(), items, k, i)
    ensures k in Flatten(items).value
    ensures items[i].1.Matrix? && items[i].1.cols > 1 ==>
      exists obj: nat :: obj < items[i].1.cols && k == ColumnKey(items[i].0, obj) &&
        Flatten(items).value[k] == Vector(Column(items[i].1, obj))
    ensures !(items[i].1.Matrix? && items[i].1.cols > 1) ==> k == items[i].0 && Flatten(items).value[k] == Squeeze(items[i].1)
  {
    MergeFromLastWriter(FlattenStep(), items, map[], Flatten(items).value);
    FlattenEntriesContents(items[i].0, items[i].1);
  }
}
