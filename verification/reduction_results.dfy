/**
 * Sorting the reduced exposures of an archive into completed and failed ones
 * (`ProcessXMM/filter_reduction_results.py`). The directory listing, each
 * observation directory's two exposure listings, and which
 * `<det><prefix>_processed.h5` files exist (with the exposure time stored in
 * each) are given as values.
 */
module ReductionResults {
  import opened Wrappers
  import opened Seqs
  import opened Text
  import Listing
  import Ranking

  /** What the script sees of one observation directory. `processed` maps each existing processed file to its stored exposure time. */
  datatype ObservationDir = ObservationDir(mosListing: Option<string>, pnListing: Option<string>, processed: map<string, real>)

  datatype Detector = Mos | Pn

  /** One exposure named by a listing: its identifier, and its exposure time when its processed file exists. */
  datatype Candidate = Candidate(id: string, exposure: Option<real>)

  /** The lists the loop builds: completed identifiers, their exposure times, and failed identifiers. */
  datatype Reduction = Reduction(completed: seq<string>, exposures: seq<real>, bad: seq<string>)

  /** What a successful run leaves: the ranked identifiers and the bad-exposure list file. */
  datatype RunResult = RunResult(ranked: seq<string>, badList: Option<string>)

  // ---------------------------------------------------------------------------
  // Observation directories

  /** `re.match(r'[0-9]{10}', name)`: anchored at the start only, so longer names match too. */
  predicate IsObservationName(name: string) {
    |name| >= 10 && forall k :: 0 <= k < 10 ==> IsDigit(name[k])
  }

  /** The directory entries taken as observations, in listing order. */
  function ObservationIds(entries: seq<string>): (ids: seq<string>)
    ensures forall x :: x in ids <==> x in entries && |x| >= 10 && forall k :: 0 <= k < 10 ==> '0' <= x[k] <= '9'
  {
    Filter(IsObservationName, entries)
  }

  /** The selection keeps the order of the listing: it works piecewise over a split listing. */
  lemma ObservationIdsKeepOrder(a: seq<string>, b: seq<string>)
    ensures ObservationIds(a + b) == ObservationIds(a) + ObservationIds(b)
  {
    FilterConcat(IsObservationName, a, b);
  }

  // ---------------------------------------------------------------------------
  // Identifiers and completion

  function DetectorName(det: Detector): string {
    match det
    case Mos => "mos"
    case Pn => "pn"
  }

  /** `detpref + '_processed.h5'` for `detpref = det + prefix.upper()`. */
  function ProcessedFile(det: Detector, prefix: string): string {
    DetectorName(det) + Upper(prefix) + "_processed.h5"
  }

  function MakeCandidate(obsId: string, det: Detector, dir: ObservationDir, prefix: string): Candidate {
    var file := ProcessedFile(det, prefix);
    Candidate(obsId + DetectorName(det) + Upper(prefix),
              if file in dir.processed then Some(dir.processed[file]) else None)
  }

  /** The exposures of one detector, named as `obsID + det + PREFIX`, completed exactly when the processed file exists. */
  function CandidatesFor(obsId: string, det: Detector, dir: ObservationDir, prefixes: seq<string>): (cs: seq<Candidate>)
    ensures |cs| == |prefixes|
    ensures forall i :: 0 <= i < |cs| ==> cs[i].id == obsId + DetectorName(det) + Upper(prefixes[i])
    ensures forall i :: 0 <= i < |cs| ==> (cs[i].exposure.Some? <==> ProcessedFile(det, prefixes[i]) in dir.processed)
    ensures forall i :: 0 <= i < |cs| && cs[i].exposure.Some? ==> cs[i].exposure.value == dir.processed[ProcessedFile(det, prefixes[i])]
  {
    seq(|prefixes|, i requires 0 <= i < |prefixes| => MakeCandidate(obsId, det, dir, prefixes[i]))
  }

  /**
   * The identifier names the processed file it is judged by: an exposure is
   * complete exactly when the observation holds a processed file whose name,
   * written after the obsID, is the identifier followed by `_processed.h5`,
   * and it then carries that file's stored time.
   */
  lemma CandidateNamesItsFile(obsId: string, det: Detector, dir: ObservationDir, prefixes: seq<string>, i: nat)
    requires i < |prefixes|
    ensures CandidatesFor(obsId, det, dir, prefixes)[i].exposure.Some?
            <==> exists f :: f in dir.processed && obsId + f == CandidatesFor(obsId, det, dir, prefixes)[i].id + "_processed.h5"
    ensures forall f :: f in dir.processed && obsId + f == CandidatesFor(obsId, det, dir, prefixes)[i].id + "_processed.h5" ==>
              CandidatesFor(obsId, det, dir, prefixes)[i].exposure == Some(dir.processed[f])
  {
    var c := CandidatesFor(obsId, det, dir, prefixes)[i];
    var file := ProcessedFile(det, prefixes[i]);
    assert c.id + "_processed.h5" == obsId + file;
    forall f | obsId + f == c.id + "_processed.h5"
      ensures f == file
    {
      assert f == (obsId + f)[|obsId|..];
      assert file == (obsId + file)[|obsId|..];
    }
  }

  /** The prefixes a detector's listing holds; none when the listing file is missing. */
  function Prefixes(dir: ObservationDir, det: Detector): seq<string> {
    Listing.ReadListing(if det == Mos then dir.mosListing else dir.pnListing)
  }

  /** All exposures of one observation: the MOS ones, then the pn ones. */
  function Candidates(obsId: string, dir: ObservationDir): seq<Candidate> {
    CandidatesFor(obsId, Mos, dir, Prefixes(dir, Mos)) + CandidatesFor(obsId, Pn, dir, Prefixes(dir, Pn))
  }

  /** All exposures of the listed observations, observation by observation. */
  function AllCandidates(ids: seq<string>, fs: map<string, ObservationDir>): seq<Candidate>
    requires forall i :: 0 <= i < |ids| ==> ids[i] in fs
  {
    if ids == [] then [] else Candidates(ids[0], fs[ids[0]]) + AllCandidates(ids[1..], fs)
  }

  // ---------------------------------------------------------------------------
  // The completion split as a reference definition

  predicate IsDone(c: Candidate) {
    c.exposure.Some?
  }

  predicate IsBad(c: Candidate) {
    c.exposure.None?
  }

  function IdsOf(cs: seq<Candidate>): (ids: seq<string>)
    ensures |ids| == |cs|
    ensures forall i :: 0 <= i < |cs| ==> ids[i] == cs[i].id
  {
    seq(|cs|, i requires 0 <= i < |cs| => cs[i].id)
  }

  function ExposuresOf(cs: seq<Candidate>): (exps: seq<real>)
    requires forall i :: 0 <= i < |cs| ==> IsDone(cs[i])
    ensures |exps| == |cs|
    ensures forall i :: 0 <= i < |cs| ==> Some(exps[i]) == cs[i].exposure
  {
    seq(|cs|, i requires 0 <= i < |cs| && IsDone(cs[i]) => cs[i].exposure.value)
  }

  /** The completed exposures with their times, and the failed ones, each in listing order. */
  function Partition(cs: seq<Candidate>): Reduction {
    var done := Filter(IsDone, cs);
    Reduction(IdsOf(done), ExposuresOf(done), IdsOf(Filter(IsBad, cs)))
  }

  /** `acc` with the lists of `more` appended. */
  function Extend(acc: Reduction, more: Reduction): Reduction {
    Reduction(acc.completed + more.completed, acc.exposures + more.exposures, acc.bad + more.bad)
  }

  const Empty := Reduction([], [], [])

  lemma ExtendAssociative(a: Reduction, b: Reduction, c: Reduction)
    ensures Extend(Extend(a, b), c) == Extend(a, Extend(b, c))
  {
    assert (a.completed + b.completed) + c.completed == a.completed + (b.completed + c.completed);
    assert (a.exposures + b.exposures) + c.exposures == a.exposures + (b.exposures + c.exposures);
    assert (a.bad + b.bad) + c.bad == a.bad + (b.bad + c.bad);
  }

  lemma ExtendEmpty(a: Reduction)
    ensures Extend(Empty, a) == a && Extend(a, Empty) == a
  {
    assert [] + a.completed == a.completed && a.completed + [] == a.completed;
    assert [] + a.exposures == a.exposures && a.exposures + [] == a.exposures;
    assert [] + a.bad == a.bad && a.bad + [] == a.bad;
  }

  /** A single exposure goes to the completed list with its time, or to the failed list. */
  lemma PartitionSingle(c: Candidate)
    ensures c.exposure.Some? ==> Partition([c]) == Reduction([c.id], [c.exposure.value], [])
    ensures c.exposure.None? ==> Partition([c]) == Reduction([], [], [c.id])
  {
    assert Filter(IsDone, [c]) == if IsDone(c) then [c] else [];
    assert Filter(IsBad, [c]) == if IsBad(c) then [c] else [];
  }

  lemma IdsOfConcat(a: seq<Candidate>, b: seq<Candidate>)
    ensures IdsOf(a + b) == IdsOf(a) + IdsOf(b)
  {
  }

  lemma ExposuresOfConcat(a: seq<Candidate>, b: seq<Candidate>)
    requires forall i :: 0 <= i < |a| ==> IsDone(a[i])
    requires forall i :: 0 <= i < |b| ==> IsDone(b[i])
    ensures ExposuresOf(a + b) == ExposuresOf(a) + ExposuresOf(b)
  {
  }

  /** Splitting the exposures in two splits each list the same way. */
  lemma PartitionConcat(a: seq<Candidate>, b: seq<Candidate>)
    ensures Partition(a + b) == Extend(Partition(a), Partition(b))
  {
    var da, db := Filter(IsDone, a), Filter(IsDone, b);
    var ba, bb := Filter(IsBad, a), Filter(IsBad, b);
    FilterConcat(IsDone, a, b);
    FilterConcat(IsBad, a, b);
    IdsOfConcat(da, db);
    ExposuresOfConcat(da, db);
    IdsOfConcat(ba, bb);
  }

  /** The completed and failed identifiers together are the listed identifiers, each as often as it is listed. */
  lemma {:induction false} PartitionMultiset(cs: seq<Candidate>)
    ensures multiset(Partition(cs).completed) + multiset(Partition(cs).bad) == multiset(IdsOf(cs))
    decreases |cs|
  {
    if cs == [] {
      assert Partition(cs) == Empty;
    } else {
      var c, rest := cs[0], cs[1..];
      assert cs == [c] + rest;
      PartitionMultiset(rest);
      PartitionConcat([c], rest);
      PartitionSingle(c);
      IdsOfConcat([c], rest);
      var p1, p := Partition([c]), Partition(rest);
      ExtendMultiset(p1, p);
      assert multiset(p1.completed) + multiset(p1.bad) == multiset(IdsOf([c])) by {
        assert IdsOf([c]) == [c.id];
      }
      assert multiset(IdsOf(cs)) == multiset(IdsOf([c])) + multiset(IdsOf(rest));
    }
  }

  lemma ExtendMultiset(a: Reduction, b: Reduction)
    ensures multiset(Extend(a, b).completed) + multiset(Extend(a, b).bad)
         == (multiset(a.completed) + multiset(a.bad)) + (multiset(b.completed) + multiset(b.bad))
  {
  }

  /**
   * Every exposure lands in exactly one list: the completed and failed lists
   * together hold each identifier as often as the listings name it; every
   * completed entry is an exposure whose processed file exists, paired with its
   * stored time; every failed entry is one whose file does not exist.
   */
  lemma PartitionIsExact(cs: seq<Candidate>)
    ensures |Partition(cs).completed| == |Partition(cs).exposures|
    ensures |Partition(cs).completed| + |Partition(cs).bad| == |cs|
    ensures multiset(Partition(cs).completed) + multiset(Partition(cs).bad) == multiset(IdsOf(cs))
    ensures forall i :: 0 <= i < |Partition(cs).completed| ==>
              Candidate(Partition(cs).completed[i], Some(Partition(cs).exposures[i])) in cs
    ensures forall i :: 0 <= i < |Partition(cs).bad| ==> Candidate(Partition(cs).bad[i], None) in cs
  {
    var p := Partition(cs);
    var done, failed := Filter(IsDone, cs), Filter(IsBad, cs);
    FilterPartition(IsDone, IsBad, cs);
    PartitionMultiset(cs);
    forall i | 0 <= i < |p.completed|
      ensures Candidate(p.completed[i], Some(p.exposures[i])) in cs
    {
      assert done[i] in done;
    }
    forall i | 0 <= i < |p.bad|
      ensures Candidate(p.bad[i], None) in cs
    {
      assert failed[i] in failed;
    }
  }

  // ---------------------------------------------------------------------------
  // The script's loops

  /** `for exp in <det>_exposures:` appending to the completed or to the failed list. */
  function Record(obsId: string, det: Detector, dir: ObservationDir, prefixes: seq<string>, acc: Reduction): (r: Reduction)
    ensures |r.completed| - |r.exposures| == |acc.completed| - |acc.exposures|
    ensures |r.completed| + |r.bad| == |acc.completed| + |acc.bad| + |prefixes|
    decreases |prefixes|
  {
    if prefixes == [] then acc
    else
      var c := MakeCandidate(obsId, det, dir, prefixes[0]);
      var next :=
        match c.exposure
        case Some(e) => Reduction(acc.completed + [c.id], acc.exposures + [e], acc.bad)
        case None => Reduction(acc.completed, acc.exposures, acc.bad + [c.id]);
      Record(obsId, det, dir, prefixes[1..], next)
  }

  /** The body of the loop over observations: the MOS loop, then the pn loop. */
  function ScanObservation(obsId: string, dir: ObservationDir, acc: Reduction): Reduction {
    Record(obsId, Pn, dir, Prefixes(dir, Pn), Record(obsId, Mos, dir, Prefixes(dir, Mos), acc))
  }

  /** The loop over observations; `os.chdir` fails on the first name that is not a directory. */
  function ScanFrom(ids: seq<string>, fs: map<string, ObservationDir>, acc: Reduction): Result<Reduction, string>
    decreases |ids|
  {
    if ids == [] then Success(acc)
    else if ids[0] !in fs then Failure(ids[0])
    else ScanFrom(ids[1..], fs, ScanObservation(ids[0], fs[ids[0]], acc))
  }

  /** The whole scan over the archive directory, starting from empty lists. */
  function Scan(entries: seq<string>, fs: map<string, ObservationDir>): Result<Reduction, string> {
    ScanFrom(ObservationIds(entries), fs, Empty)
  }

  lemma {:induction false} RecordIsPartition(obsId: string, det: Detector, dir: ObservationDir, prefixes: seq<string>, acc: Reduction)
    ensures Record(obsId, det, dir, prefixes, acc) == Extend(acc, Partition(CandidatesFor(obsId, det, dir, prefixes)))
    decreases |prefixes|
  {
    var cs := CandidatesFor(obsId, det, dir, prefixes);
    if prefixes == [] {
      assert Partition(cs) == Empty;
      ExtendEmpty(acc);
    } else {
      var c := MakeCandidate(obsId, det, dir, prefixes[0]);
      var one := Partition([c]);
      var rest := CandidatesFor(obsId, det, dir, prefixes[1..]);
      RecordStep(obsId, det, dir, prefixes, acc);
      RecordIsPartition(obsId, det, dir, prefixes[1..], Extend(acc, one));
      CandidatesForCons(obsId, det, dir, prefixes);
      PartitionConcat([c], rest);
      ExtendAssociative(acc, one, Partition(rest));
    }
  }

  /** One iteration of the per-detector loop appends the partition of its one exposure. */
  lemma RecordStep(obsId: string, det: Detector, dir: ObservationDir, prefixes: seq<string>, acc: Reduction)
    requires prefixes != []
    ensures Record(obsId, det, dir, prefixes, acc)
         == Record(obsId, det, dir, prefixes[1..], Extend(acc, Partition([MakeCandidate(obsId, det, dir, prefixes[0])])))
  {
    PartitionSingle(MakeCandidate(obsId, det, dir, prefixes[0]));
    assert acc.completed + [] == acc.completed && acc.exposures + [] == acc.exposures && acc.bad + [] == acc.bad;
  }

  lemma CandidatesForCons(obsId: string, det: Detector, dir: ObservationDir, prefixes: seq<string>)
    requires prefixes != []
    ensures CandidatesFor(obsId, det, dir, prefixes)
         == [MakeCandidate(obsId, det, dir, prefixes[0])] + CandidatesFor(obsId, det, dir, prefixes[1..])
  {
  }

  lemma ScanObservationIsPartition(obsId: string, dir: ObservationDir, acc: Reduction)
    ensures ScanObservation(obsId, dir, acc) == Extend(acc, Partition(Candidates(obsId, dir)))
  {
    var mos := CandidatesFor(obsId, Mos, dir, Prefixes(dir, Mos));
    var pn := CandidatesFor(obsId, Pn, dir, Prefixes(dir, Pn));
    RecordIsPartition(obsId, Mos, dir, Prefixes(dir, Mos), acc);
    RecordIsPartition(obsId, Pn, dir, Prefixes(dir, Pn), Extend(acc, Partition(mos)));
    PartitionConcat(mos, pn);
    ExtendAssociative(acc, Partition(mos), Partition(pn));
  }

  /** All listed observations are directories. */
  predicate AllPresent(ids: seq<string>, fs: map<string, ObservationDir>) {
    forall i :: 0 <= i < |ids| ==> ids[i] in fs
  }

  /** The position of the first name that is not a directory; `|ids|` when every name is one. */
  function FirstMissing(ids: seq<string>, fs: map<string, ObservationDir>): (k: nat)
    ensures k <= |ids| && AllPresent(ids[..k], fs)
    ensures k < |ids| ==> ids[k] !in fs
    decreases |ids|
  {
    if ids == [] || ids[0] !in fs then 0
    else
      var r := FirstMissing(ids[1..], fs);
      assert ids[..r + 1] == [ids[0]] + ids[1..][..r];
      r + 1
  }

  /** A failing loop reports the first name that is not a directory. */
  lemma {:induction false} FirstMissingReported(ids: seq<string>, fs: map<string, ObservationDir>, acc: Reduction)
    ensures ScanFrom(ids, fs, acc).Failure? ==>
              FirstMissing(ids, fs) < |ids| && ScanFrom(ids, fs, acc).error == ids[FirstMissing(ids, fs)]
    decreases |ids|
  {
    if ids != [] && ids[0] in fs {
      FirstMissingReported(ids[1..], fs, ScanObservation(ids[0], fs[ids[0]], acc));
    }
  }

  /**
   * The observation loop fails exactly when some name is not a directory, and
   * then reports the first such name in listing order, where `os.chdir` stops.
   */
  lemma {:induction false} ScanFromFails(ids: seq<string>, fs: map<string, ObservationDir>, acc: Reduction)
    ensures ScanFrom(ids, fs, acc).Success? <==> AllPresent(ids, fs)
    ensures ScanFrom(ids, fs, acc).Failure? ==> ScanFrom(ids, fs, acc).error in ids && ScanFrom(ids, fs, acc).error !in fs
    ensures ScanFrom(ids, fs, acc).Failure? ==>
              exists k :: 0 <= k < |ids| && ids[k] == ScanFrom(ids, fs, acc).error && AllPresent(ids[..k], fs)
    decreases |ids|
  {
    FirstMissingReported(ids, fs, acc);
    if ids != [] && ids[0] in fs {
      ScanFromFails(ids[1..], fs, ScanObservation(ids[0], fs[ids[0]], acc));
      assert AllPresent(ids, fs) <==> AllPresent(ids[1..], fs) by {
        if AllPresent(ids[1..], fs) {
          forall i | 0 <= i < |ids| ensures ids[i] in fs {
            if i > 0 { assert ids[i] == ids[1..][i - 1]; }
          }
        }
      }
    }
  }

  lemma {:induction false} ScanFromIsPartition(ids: seq<string>, fs: map<string, ObservationDir>, acc: Reduction)
    requires AllPresent(ids, fs)
    ensures ScanFrom(ids, fs, acc) == Success(Extend(acc, Partition(AllCandidates(ids, fs))))
    decreases |ids|
  {
    if ids == [] {
      assert Partition([]) == Empty;
      ExtendEmpty(acc);
    } else {
      var here := Candidates(ids[0], fs[ids[0]]);
      var rest := AllCandidates(ids[1..], fs);
      ScanFromIsPartition(ids[1..], fs, ScanObservation(ids[0], fs[ids[0]], acc));
      ScanObservationIsPartition(ids[0], fs[ids[0]], acc);
      PartitionConcat(here, rest);
      ExtendAssociative(acc, Partition(here), Partition(rest));
    }
  }

  /** The scan fails exactly when some observation name is not a directory, and then names the first such. */
  lemma ScanFails(entries: seq<string>, fs: map<string, ObservationDir>)
    ensures Scan(entries, fs).Success? <==> forall x :: x in ObservationIds(entries) ==> x in fs
    ensures Scan(entries, fs).Failure? ==> Scan(entries, fs).error in ObservationIds(entries) && Scan(entries, fs).error !in fs
    ensures Scan(entries, fs).Failure? ==>
              exists k :: 0 <= k < |ObservationIds(entries)| && ObservationIds(entries)[k] == Scan(entries, fs).error
                          && AllPresent(ObservationIds(entries)[..k], fs)
  {
    var ids := ObservationIds(entries);
    ScanFromFails(ids, fs, Empty);
    assert AllPresent(ids, fs) <==> forall x :: x in ids ==> x in fs;
  }

  /**
   * When every observation name is a directory, the scan splits the listed
   * exposures of all observations, in order, into completed (with times) and
   * failed, as `Partition` describes.
   */
  lemma ScanIsPartition(entries: seq<string>, fs: map<string, ObservationDir>)
    requires AllPresent(ObservationIds(entries), fs)
    ensures Scan(entries, fs) == Success(Partition(AllCandidates(ObservationIds(entries), fs)))
  {
    var ids := ObservationIds(entries);
    ScanFromIsPartition(ids, fs, Empty);
    ExtendEmpty(Partition(AllCandidates(ids, fs)));
  }

  /** Within one observation, its MOS results come before its pn results in every list. */
  lemma MosBeforePn(obsId: string, dir: ObservationDir)
    ensures Partition(Candidates(obsId, dir))
         == Extend(Partition(CandidatesFor(obsId, Mos, dir, Prefixes(dir, Mos))),
                   Partition(CandidatesFor(obsId, Pn, dir, Prefixes(dir, Pn))))
  {
    PartitionConcat(CandidatesFor(obsId, Mos, dir, Prefixes(dir, Mos)), CandidatesFor(obsId, Pn, dir, Prefixes(dir, Pn)));
  }

  // ---------------------------------------------------------------------------
  // The failed-exposure list and the whole run

  /**
   * `open(bad, 'a+')` and `truncate(0)` at the start, then one appended line
   * per failed exposure: whatever the file held before is gone, and it holds
   * exactly this run's failures.
   */
  function BadList(before: Option<string>, failed: seq<string>): (r: Option<string>)
    ensures r == Some(Listing.Terminated(failed))
  {
    assert [] + Listing.Terminated(failed) == Listing.Terminated(failed);
    Listing.AppendLines(Some([]), failed)
  }

  /** The failed list reads back as the upper-cased failed identifiers, in order. */
  lemma BadListReadsBack(before: Option<string>, failed: seq<string>)
    requires forall i :: 0 <= i < |failed| ==> '\n' !in failed[i]
    ensures Listing.ReadListing(BadList(before, failed)) == Listing.CanonicalAll(failed)
  {
    Listing.ReadAfterAppend(Some([]), failed);
    assert Listing.ReadListing(Some([])) == [];
  }

  /** A successful scan pairs every completed identifier with one exposure time. */
  lemma ScanLengths(entries: seq<string>, fs: map<string, ObservationDir>)
    requires Scan(entries, fs).Success?
    ensures |Scan(entries, fs).value.completed| == |Scan(entries, fs).value.exposures|
  {
    ScanFails(entries, fs);
    var ids := ObservationIds(entries);
    assert AllPresent(ids, fs) by {
      forall i | 0 <= i < |ids| ensures ids[i] in fs {
        assert ids[i] in ids;
      }
    }
    ScanIsPartition(entries, fs);
    PartitionIsExact(AllCandidates(ids, fs));
  }

  /**
   * The whole script: scan, write the failed exposures into the emptied bad
   * list, and rank the completed ones by exposure time.
   */
  function Run(entries: seq<string>, fs: map<string, ObservationDir>, badBefore: Option<string>): (r: Result<RunResult, string>)
    ensures r.Success? <==> Scan(entries, fs).Success?
    ensures r.Success? <==> forall x :: x in ObservationIds(entries) ==> x in fs
    ensures r.Failure? ==> r.error in ObservationIds(entries) && r.error !in fs
    ensures r.Failure? ==>
              exists k :: 0 <= k < |ObservationIds(entries)| && ObservationIds(entries)[k] == r.error
                          && AllPresent(ObservationIds(entries)[..k], fs)
    ensures r.Success? ==> multiset(r.value.ranked) == multiset(Scan(entries, fs).value.completed)
    ensures r.Success? ==> r.value.ranked == Ranking.Ranked(Scan(entries, fs).value.exposures, Scan(entries, fs).value.completed)
    ensures r.Success? ==> r.value.badList == Some(Listing.Terminated(Scan(entries, fs).value.bad))
  {
    ScanFails(entries, fs);
    var s := Scan(entries, fs);
    if s.Failure? then Failure(s.error)
    else
      ScanLengths(entries, fs);
      var red := s.value;
      Success(RunResult(Ranking.Ranked(red.exposures, red.completed), BadList(badBefore, red.bad)))
  }
}
