/**
 * Expanding the sparse redistribution matrix of an RMF file into the dense
 * detector response (`ProcessXMM/spc2dat.py`, lines 77-105). Each input-energy
 * row of the MATRIX extension stores `N_GRP` channel groups, each a first
 * channel `F_CHAN` and a channel count `N_CHAN`, whose values lie packed one
 * after another in the row's `MATRIX` cell (the layout of OGIP calibration
 * memo CAL/GEN/92-002). Every row becomes one column of the response: zeros,
 * the groups written in with numpy slice assignment, entries below 1e-5 cut to
 * zero, then scaled by the effective area of that input energy.
 */
module ResponseMatrix {
  import opened Wrappers

  /** Entries of an expanded column below this are set to zero. */
  const Threshold: real := 0.00001

  /**
   * The channel columns of the MATRIX extension. In pn files `F_CHAN` and
   * `N_CHAN` are two-dimensional, one entry per group of a row; in MOS files
   * they hold a single value per row.
   */
  datatype ChannelColumns =
    | PerGroup(groupFirst: seq<seq<nat>>, groupCount: seq<seq<nat>>)
    | PerRow(rowFirst: seq<nat>, rowCount: seq<nat>)

  /** The columns of the MATRIX extension the expansion reads, one entry per input-energy row. */
  datatype MatrixExtension = MatrixExtension(energLo: seq<real>, nGrp: seq<nat>, chans: ChannelColumns, matrix: seq<seq<real>>)

  /** One channel group: the first output channel and the number of channels. */
  datatype Group = Group(first: nat, count: nat)

  /** The layout switch: pn exactly when `F_CHAN` is two-dimensional. */
  predicate IsPnLayout(ext: MatrixExtension) {
    ext.chans.PerGroup?
  }

  /** Every column has an entry for each input-energy row, and a pn row has a channel entry for each of its groups. */
  predicate WellShaped(ext: MatrixExtension) {
    var n := |ext.energLo|;
    && |ext.nGrp| >= n
    && |ext.matrix| >= n
    && match ext.chans
       case PerGroup(f, c) =>
         |f| >= n && |c| >= n && forall i :: 0 <= i < n ==> ext.nGrp[i] <= |f[i]| && ext.nGrp[i] <= |c[i]|
       case PerRow(f, c) => |f| >= n && |c| >= n
  }

  /**
   * The groups of row `i`, one per `j in range(N_GRP[i])`: pn reads
   * `F_CHAN[i][j]`, `N_CHAN[i][j]`; MOS reads `F_CHAN[i]`, `N_CHAN[i]` for every
   * group.
   */
  function Groups(ext: MatrixExtension, i: nat): (gs: seq<Group>)
    requires WellShaped(ext) && i < |ext.energLo|
    ensures |gs| == ext.nGrp[i]
    ensures IsPnLayout(ext) ==> forall j :: 0 <= j < |gs| ==> gs[j] == Group(ext.chans.groupFirst[i][j], ext.chans.groupCount[i][j])
    ensures !IsPnLayout(ext) ==> forall j :: 0 <= j < |gs| ==> gs[j] == Group(ext.chans.rowFirst[i], ext.chans.rowCount[i])
  {
    match ext.chans
    case PerGroup(f, c) => seq(ext.nGrp[i], j requires 0 <= j < ext.nGrp[i] => Group(f[i][j], c[i][j]))
    case PerRow(f, c) => seq(ext.nGrp[i], _ => Group(f[i], c[i]))
  }

  // ---------------------------------------------------------------------------
  // numpy slices

  /**
   * The length of the slice `[lo:lo+count]` of a sequence of length `len`: the
   * requested count, cut short by the end of the sequence.
   */
  function SliceLen(lo: nat, count: nat, len: nat): (n: nat)
    ensures n <= count
    ensures n > 0 ==> lo + n <= len
    ensures n < count ==> lo + n >= len
  {
    if lo >= len then 0 else if lo + count <= len then count else len - lo
  }

  /** `s[lo:lo+count]`: the elements from `lo` on, as many as there are up to `count`. */
  function Slice<T>(s: seq<T>, lo: nat, count: nat): (r: seq<T>)
    ensures |r| == SliceLen(lo, count, |s|)
    decreases count
  {
    if count == 0 || lo >= |s| then [] else [s[lo]] + Slice(s, lo + 1, count - 1)
  }

  /** Element `t` of the slice is element `lo + t` of the sequence. */
  lemma {:induction false} SliceAt<T>(s: seq<T>, lo: nat, count: nat, t: nat)
    requires t < |Slice(s, lo, count)|
    ensures lo + t < |s| && Slice(s, lo, count)[t] == s[lo + t]
    decreases count
  {
    if t > 0 {
      SliceAt(s, lo + 1, count - 1, t - 1);
    }
  }

  /**
   * `col[lo:lo+count] = vals`: the values are written in when they fit the
   * slice exactly, a single value is broadcast over it, and anything else is a
   * broadcasting error.
   */
  function Assign(col: seq<real>, lo: nat, count: nat, vals: seq<real>): (r: Option<seq<real>>)
    ensures r.Some? <==> |vals| == SliceLen(lo, count, |col|) || |vals| == 1
    ensures r.Some? ==> |r.value| == |col|
  {
    var n := SliceLen(lo, count, |col|);
    if |vals| != n && |vals| != 1 then None
    else if n == 0 then Some(col)
    else
      var fill := if |vals| == n then vals else Repeat(vals[0], n);
      Some(Overwrite(col, lo, fill))
  }

  /** `col` with the elements from `lo` on replaced by `fill`. */
  function Overwrite(col: seq<real>, lo: nat, fill: seq<real>): (r: seq<real>)
    requires lo + |fill| <= |col|
    ensures |r| == |col|
    decreases |fill|
  {
    if fill == [] then col else Overwrite(col[lo := fill[0]], lo + 1, fill[1..])
  }

  /** Inside the overwritten range a channel holds the matching element of `fill`; outside it keeps its value. */
  lemma {:induction false} OverwriteAt(col: seq<real>, lo: nat, fill: seq<real>, k: nat)
    requires lo + |fill| <= |col| && k < |col|
    ensures Overwrite(col, lo, fill)[k] == if lo <= k < lo + |fill| then fill[k - lo] else col[k]
    decreases |fill|
  {
    if fill != [] {
      OverwriteAt(col[lo := fill[0]], lo + 1, fill[1..], k);
    }
  }

  /** `n` copies of `x`: a one-element right-hand side broadcast over a slice of length `n`. */
  function Repeat(x: real, n: nat): (r: seq<real>)
    ensures |r| == n
    ensures forall t :: 0 <= t < n ==> r[t] == x
  {
    if n == 0 then [] else [x] + Repeat(x, n - 1)
  }

  /**
   * After a successful slice assignment, a channel outside the slice keeps its
   * value, and one inside holds the matching value or the broadcast one.
   */
  lemma AssignAt(col: seq<real>, lo: nat, count: nat, vals: seq<real>, k: nat)
    requires Assign(col, lo, count, vals).Some? && k < |col|
    ensures !(lo <= k < lo + SliceLen(lo, count, |col|)) ==> Assign(col, lo, count, vals).value[k] == col[k]
    ensures lo <= k < lo + SliceLen(lo, count, |col|) ==>
              Assign(col, lo, count, vals).value[k] == if |vals| == SliceLen(lo, count, |col|) then vals[k - lo] else vals[0]
  {
    var n := SliceLen(lo, count, |col|);
    if n > 0 {
      OverwriteAt(col, lo, if |vals| == n then vals else Repeat(vals[0], n), k);
    }
  }

  // ---------------------------------------------------------------------------
  // Expanding the groups of one row

  /** The channel counts of groups `lo .. hi-1` added up: how far `jtot` advances over them. */
  function Sum(gs: seq<Group>, lo: nat, hi: nat): nat
    requires hi <= |gs|
    decreases hi
  {
    if hi <= lo then 0 else Sum(gs, lo, hi - 1) + gs[hi - 1].count
  }

  /** Taking the first of the groups out of the sum. */
  lemma {:induction false} SumStep(gs: seq<Group>, lo: nat, hi: nat)
    requires lo < hi <= |gs|
    ensures Sum(gs, lo, hi) == gs[lo].count + Sum(gs, lo + 1, hi)
    decreases hi
  {
    if hi > lo + 1 {
      SumStep(gs, lo, hi - 1);
    }
  }

  /** The values group `g` takes from the row when the offset is `jtot`. */
  function Values(g: Group, row: seq<real>, jtot: nat): seq<real> {
    Slice(row, jtot, g.count)
  }

  /** Group `g` writes channel `k` of a column of length `len`. */
  predicate Covers(g: Group, len: nat, k: nat) {
    g.first <= k < g.first + g.count && k < len
  }

  /** The slice assignment of group `g` at offset `jtot` does not raise. */
  predicate Fits(g: Group, row: seq<real>, len: nat, jtot: nat) {
    var m := |Values(g, row, jtot)|;
    m == SliceLen(g.first, g.count, len) || m == 1
  }

  /** The value group `g` at offset `jtot` leaves in a channel it covers: its matching matrix entry, or its one broadcast entry. */
  function GroupValue(g: Group, row: seq<real>, len: nat, jtot: nat, k: nat): real
    requires Fits(g, row, len, jtot) && Covers(g, len, k)
  {
    if |Values(g, row, jtot)| == SliceLen(g.first, g.count, len) then row[jtot + (k - g.first)] else row[jtot]
  }

  /**
   * `for j in range(N_GRP[i])` from group `j` on, with the running offset
   * `jtot`: each group's slice of the row written into the column, `jtot`
   * advancing by the group's channel count. `None` is the broadcasting error
   * that stops the script.
   */
  function Expand(gs: seq<Group>, row: seq<real>, col: seq<real>, j: nat, jtot: nat): (r: Option<seq<real>>)
    ensures r.Some? ==> |r.value| == |col|
    decreases |gs| - j
  {
    if |gs| <= j then Some(col)
    else
      match Assign(col, gs[j].first, gs[j].count, Values(gs[j], row, jtot))
      case None => None
      case Some(next) => Expand(gs, row, next, j + 1, jtot + gs[j].count)
  }

  /** Every group from `j` on fits, each taken at the offset the loop reaches it with. */
  predicate AllFit(gs: seq<Group>, row: seq<real>, len: nat, j: nat, jtot: nat) {
    forall m {:trigger Sum(gs, j, m)} :: j <= m < |gs| ==> Fits(gs[m], row, len, jtot + Sum(gs, j, m))
  }

  /** No group from `lo` on covers channel `k`. */
  predicate Untouched(gs: seq<Group>, lo: nat, len: nat, k: nat) {
    forall m :: lo <= m < |gs| ==> !Covers(gs[m], len, k)
  }

  lemma AllFitStep(gs: seq<Group>, row: seq<real>, len: nat, j: nat, jtot: nat)
    requires j < |gs|
    ensures AllFit(gs, row, len, j, jtot) <==> Fits(gs[j], row, len, jtot) && AllFit(gs, row, len, j + 1, jtot + gs[j].count)
  {
    assert Sum(gs, j, j) == 0;
    if AllFit(gs, row, len, j, jtot) {
      forall m | j + 1 <= m < |gs|
        ensures Fits(gs[m], row, len, jtot + gs[j].count + Sum(gs, j + 1, m))
      {
        SumStep(gs, j, m);
      }
    }
    if Fits(gs[j], row, len, jtot) && AllFit(gs, row, len, j + 1, jtot + gs[j].count) {
      forall m | j + 1 <= m < |gs|
        ensures Fits(gs[m], row, len, jtot + Sum(gs, j, m))
      {
        SumStep(gs, j, m);
      }
    }
  }

  /** One step of the loop: group `j`'s assignment, then the rest from the advanced offset. */
  lemma ExpandStep(gs: seq<Group>, row: seq<real>, col: seq<real>, j: nat, jtot: nat)
    requires j < |gs|
    ensures Assign(col, gs[j].first, gs[j].count, Values(gs[j], row, jtot)).Some? <==> Fits(gs[j], row, |col|, jtot)
    ensures Assign(col, gs[j].first, gs[j].count, Values(gs[j], row, jtot)).None? ==> Expand(gs, row, col, j, jtot).None?
    ensures Assign(col, gs[j].first, gs[j].count, Values(gs[j], row, jtot)).Some? ==>
              (Expand(gs, row, col, j, jtot)
               == Expand(gs, row, Assign(col, gs[j].first, gs[j].count, Values(gs[j], row, jtot)).value, j + 1, jtot + gs[j].count))
  {
  }

  /** The expansion raises exactly when some group's slice assignment does not fit. */
  lemma {:induction false} ExpandSucceeds(gs: seq<Group>, row: seq<real>, col: seq<real>, j: nat, jtot: nat)
    ensures Expand(gs, row, col, j, jtot).Some? <==> AllFit(gs, row, |col|, j, jtot)
    decreases |gs| - j
  {
    if j < |gs| {
      var g := gs[j];
      var a := Assign(col, g.first, g.count, Values(g, row, jtot));
      ExpandStep(gs, row, col, j, jtot);
      AllFitStep(gs, row, |col|, j, jtot);
      if a.Some? {
        ExpandSucceeds(gs, row, a.value, j + 1, jtot + g.count);
      }
    }
  }

  /** A channel no group covers keeps the value it had. */
  lemma {:induction false} ExpandUncovered(gs: seq<Group>, row: seq<real>, col: seq<real>, j: nat, jtot: nat, k: nat)
    requires Expand(gs, row, col, j, jtot).Some? && k < |col|
    requires Untouched(gs, j, |col|, k)
    ensures Expand(gs, row, col, j, jtot).value[k] == col[k]
    decreases |gs| - j
  {
    if j < |gs| {
      var g := gs[j];
      var a := Assign(col, g.first, g.count, Values(g, row, jtot));
      ExpandStep(gs, row, col, j, jtot);
      assert !Covers(g, |col|, k);
      AssignAt(col, g.first, g.count, Values(g, row, jtot), k);
      ExpandUncovered(gs, row, a.value, j + 1, jtot + g.count, k);
    }
  }

  /** Group `g` at offset `jtot` leaves `GroupValue` in a covered channel. */
  lemma AssignGroup(g: Group, row: seq<real>, col: seq<real>, jtot: nat, k: nat)
    requires Fits(g, row, |col|, jtot) && Covers(g, |col|, k)
    ensures Assign(col, g.first, g.count, Values(g, row, jtot)).Some?
    ensures Assign(col, g.first, g.count, Values(g, row, jtot)).value[k] == GroupValue(g, row, |col|, jtot, k)
  {
    var vals := Values(g, row, jtot);
    AssignAt(col, g.first, g.count, vals, k);
    if |vals| == SliceLen(g.first, g.count, |col|) {
      SliceAt(row, jtot, g.count, k - g.first);
    } else {
      SliceAt(row, jtot, g.count, 0);
    }
  }

  /** No group after `j` covers `k`: `k` keeps what group `j`'s assignment left there. */
  lemma KeptAfter(gs: seq<Group>, row: seq<real>, col: seq<real>, j: nat, jtot: nat, k: nat)
    requires Expand(gs, row, col, j, jtot).Some? && k < |col| && j < |gs|
    requires Untouched(gs, j + 1, |col|, k)
    ensures Assign(col, gs[j].first, gs[j].count, Values(gs[j], row, jtot)).Some?
    ensures Expand(gs, row, col, j, jtot).value[k] == Assign(col, gs[j].first, gs[j].count, Values(gs[j], row, jtot)).value[k]
  {
    var g := gs[j];
    var next := Assign(col, g.first, g.count, Values(g, row, jtot)).value;
    ExpandStep(gs, row, col, j, jtot);
    ExpandUncovered(gs, row, next, j + 1, jtot + g.count, k);
  }

  /** Group `j` covers `k` and no later group does: `k` keeps what group `j` wrote. */
  lemma LastCoverHere(gs: seq<Group>, row: seq<real>, col: seq<real>, j: nat, jtot: nat, k: nat)
    requires Expand(gs, row, col, j, jtot).Some? && k < |col| && j < |gs|
    requires Fits(gs[j], row, |col|, jtot) && Covers(gs[j], |col|, k)
    requires Untouched(gs, j + 1, |col|, k)
    ensures Expand(gs, row, col, j, jtot).value[k] == GroupValue(gs[j], row, |col|, jtot, k)
  {
    KeptAfter(gs, row, col, j, jtot, k);
    AssignGroup(gs[j], row, col, jtot, k);
  }

  /**
   * A channel takes its value from the last group that covers it, at the
   * offset `off` the loop reaches that group with.
   */
  lemma {:induction false} ExpandLastCover(gs: seq<Group>, row: seq<real>, col: seq<real>, j: nat, jtot: nat, m: nat, k: nat, off: nat)
    requires Expand(gs, row, col, j, jtot).Some? && k < |col| && j <= m < |gs|
    requires off == jtot + Sum(gs, j, m)
    requires Fits(gs[m], row, |col|, off) && Covers(gs[m], |col|, k)
    requires Untouched(gs, m + 1, |col|, k)
    ensures Expand(gs, row, col, j, jtot).value[k] == GroupValue(gs[m], row, |col|, off, k)
    decreases |gs| - j
  {
    if m == j {
      assert Sum(gs, j, j) == 0;
      LastCoverHere(gs, row, col, j, jtot, k);
    } else {
      var g := gs[j];
      var next := Assign(col, g.first, g.count, Values(g, row, jtot)).value;
      ExpandStep(gs, row, col, j, jtot);
      SumStep(gs, j, m);
      ExpandLastCover(gs, row, next, j + 1, jtot + g.count, m, k, off);
    }
  }

  /**
   * The expansion of a row as the script runs it, from group 0 with
   * `jtot = 0`: it succeeds exactly when every group fits; then the column
   * keeps its length, a channel no group covers keeps its value, and a covered
   * channel holds the value of the last group that covers it, taken at the
   * channel count of the groups before that one.
   */
  lemma ExpansionSpec(gs: seq<Group>, row: seq<real>, col: seq<real>)
    ensures Expand(gs, row, col, 0, 0).Some? <==> AllFit(gs, row, |col|, 0, 0)
    ensures Expand(gs, row, col, 0, 0).Some? ==> |Expand(gs, row, col, 0, 0).value| == |col|
    ensures Expand(gs, row, col, 0, 0).Some? ==>
              forall k :: 0 <= k < |col| && Untouched(gs, 0, |col|, k) ==> Expand(gs, row, col, 0, 0).value[k] == col[k]
    ensures Expand(gs, row, col, 0, 0).Some? ==>
              forall m, k :: 0 <= m < |gs| && 0 <= k < |col| && Covers(gs[m], |col|, k) && Untouched(gs, m + 1, |col|, k) ==>
                Expand(gs, row, col, 0, 0).value[k] == GroupValue(gs[m], row, |col|, Sum(gs, 0, m), k)
  {
    ExpandSucceeds(gs, row, col, 0, 0);
    if Expand(gs, row, col, 0, 0).Some? {
      AllUncovered(gs, row, col);
      AllLastCover(gs, row, col);
    }
  }

  lemma AllUncovered(gs: seq<Group>, row: seq<real>, col: seq<real>)
    requires Expand(gs, row, col, 0, 0).Some?
    ensures forall k :: 0 <= k < |col| && Untouched(gs, 0, |col|, k) ==> Expand(gs, row, col, 0, 0).value[k] == col[k]
  {
    forall k | 0 <= k < |col| && Untouched(gs, 0, |col|, k)
      ensures Expand(gs, row, col, 0, 0).value[k] == col[k]
    {
      ExpandUncovered(gs, row, col, 0, 0, k);
    }
  }

  lemma AllLastCover(gs: seq<Group>, row: seq<real>, col: seq<real>)
    requires Expand(gs, row, col, 0, 0).Some? && AllFit(gs, row, |col|, 0, 0)
    ensures forall m, k :: 0 <= m < |gs| && 0 <= k < |col| && Covers(gs[m], |col|, k) && Untouched(gs, m + 1, |col|, k) ==>
              Expand(gs, row, col, 0, 0).value[k] == GroupValue(gs[m], row, |col|, Sum(gs, 0, m), k)
  {
    forall m, k | 0 <= m < |gs| && 0 <= k < |col| && Covers(gs[m], |col|, k) && Untouched(gs, m + 1, |col|, k)
      ensures Expand(gs, row, col, 0, 0).value[k] == GroupValue(gs[m], row, |col|, Sum(gs, 0, m), k)
    {
      ExpandLastCover(gs, row, col, 0, 0, m, k, Sum(gs, 0, m));
    }
  }

  /**
   * A group that lies inside the column and the row, and whose channels no
   * later group overwrites: channel `F_CHAN + t` receives `MATRIX[i][jtot + t]`,
   * where `jtot` is the channel count of the groups before it.
   */
  lemma GroupReceivesItsSlice(gs: seq<Group>, row: seq<real>, col: seq<real>, m: nat, t: nat)
    requires Expand(gs, row, col, 0, 0).Some? && m < |gs| && t < gs[m].count
    requires gs[m].first + gs[m].count <= |col|
    requires Sum(gs, 0, m) + gs[m].count <= |row|
    requires Untouched(gs, m + 1, |col|, gs[m].first + t)
    ensures Expand(gs, row, col, 0, 0).value[gs[m].first + t] == row[Sum(gs, 0, m) + t]
  {
    var g, k, start := gs[m], gs[m].first + t, Sum(gs, 0, m);
    ExpandSucceeds(gs, row, col, 0, 0);
    assert Fits(g, row, |col|, start);
    assert SliceLen(g.first, g.count, |col|) == g.count;
    assert |Values(g, row, start)| == g.count;
    assert GroupValue(g, row, |col|, start, k) == row[start + t];
    ExpandLastCover(gs, row, col, 0, 0, m, k, start);
  }

  // ---------------------------------------------------------------------------
  // One response column and the whole response

  function Zeros(n: nat): (z: seq<real>)
    ensures |z| == n && forall k :: 0 <= k < n ==> z[k] == 0.0
  {
    seq(n, _ => 0.0)
  }

  /** `det_col[tocut] = 0.` for `tocut = np.where(det_col < 1.e-5)`. */
  function Cut(col: seq<real>): (r: seq<real>)
    ensures |r| == |col|
    ensures forall k :: 0 <= k < |r| ==> r[k] == 0.0 || r[k] >= Threshold
    ensures forall k :: 0 <= k < |col| && col[k] < Threshold ==> r[k] == 0.0
    ensures forall k :: 0 <= k < |r| ==> (r[k] == col[k] <==> col[k] >= Threshold || col[k] == 0.0)
  {
    seq(|col|, k requires 0 <= k < |col| => if col[k] < Threshold then 0.0 else col[k])
  }

  /** Cutting twice changes nothing more. */
  lemma CutIdempotent(col: seq<real>)
    ensures Cut(Cut(col)) == Cut(col)
  {
  }

  /** Row `i` expanded into a column of `outLen` output channels, starting from zeros with `jtot = 0`. */
  function ExpandRow(ext: MatrixExtension, outLen: nat, i: nat): (r: Option<seq<real>>)
    requires WellShaped(ext) && i < |ext.energLo|
    ensures r.Some? ==> |r.value| == outLen
  {
    Expand(Groups(ext, i), ext.matrix[i], Zeros(outLen), 0, 0)
  }

  /** A row without groups leaves an all-zero column. */
  lemma NoGroupsZeroColumn(ext: MatrixExtension, outLen: nat, i: nat)
    requires WellShaped(ext) && i < |ext.energLo| && ext.nGrp[i] == 0
    ensures ExpandRow(ext, outLen, i) == Some(Zeros(outLen))
  {
  }

  /**
   * A MOS row with its one group inside the column and the row: channels
   * `F_CHAN[i] .. F_CHAN[i]+N_CHAN[i]-1` hold the first `N_CHAN[i]` matrix
   * entries and every other channel is zero.
   */
  lemma MosSingleGroup(ext: MatrixExtension, outLen: nat, i: nat)
    requires WellShaped(ext) && i < |ext.energLo| && !IsPnLayout(ext) && ext.nGrp[i] == 1
    requires ext.chans.rowFirst[i] + ext.chans.rowCount[i] <= outLen
    requires ext.chans.rowCount[i] <= |ext.matrix[i]|
    ensures ExpandRow(ext, outLen, i).Some?
    ensures forall k :: 0 <= k < outLen ==>
              (ExpandRow(ext, outLen, i).value[k]
               == if ext.chans.rowFirst[i] <= k < ext.chans.rowFirst[i] + ext.chans.rowCount[i]
                  then ext.matrix[i][k - ext.chans.rowFirst[i]] else 0.0)
  {
    var gs := Groups(ext, i);
    var g := gs[0];
    var row := ext.matrix[i];
    assert Sum(gs, 0, 0) == 0;
    ExpansionSpec(gs, row, Zeros(outLen));
    assert Fits(g, row, outLen, 0);
    forall k | 0 <= k < outLen
      ensures ExpandRow(ext, outLen, i).value[k]
           == if g.first <= k < g.first + g.count then row[k - g.first] else 0.0
    {
      if g.first <= k < g.first + g.count {
        assert Covers(gs[0], outLen, k);
      } else {
        assert !Covers(gs[0], outLen, k);
      }
    }
  }

  /** `col * a`: every entry multiplied by the effective area `a`. */
  function Scale(col: seq<real>, a: real): (r: seq<real>)
    ensures |r| == |col| && forall k :: 0 <= k < |col| ==> r[k] == col[k] * a
  {
    seq(|col|, k requires 0 <= k < |col| => col[k] * a)
  }

  /** `m` with column `i` replaced by `col`: `det_res[:,i] = col`. */
  function SetColumn(m: seq<seq<real>>, i: nat, col: seq<real>): (r: seq<seq<real>>)
    requires |col| == |m| && forall k :: 0 <= k < |m| ==> i < |m[k]|
    ensures |r| == |m|
    ensures forall k :: 0 <= k < |m| ==> r[k] == m[k][i := col[k]]
  {
    seq(|m|, k requires 0 <= k < |m| => m[k][i := col[k]])
  }

  /** Columns `0 .. n-1` of `res` hold the cut, scaled expansions of their rows, and none of those rows raised. */
  ghost predicate FilledUpTo(ext: MatrixExtension, outLen: nat, effA: seq<real>, res: seq<seq<real>>, n: nat)
    requires WellShaped(ext) && n <= |ext.energLo| <= |effA|
  {
    && |res| == outLen
    && (forall k :: 0 <= k < outLen ==> |res[k]| == |ext.energLo|)
    && (forall i :: 0 <= i < n ==> ExpandRow(ext, outLen, i).Some?)
    && forall k, i :: 0 <= k < outLen && 0 <= i < n ==> res[k][i] == Cut(ExpandRow(ext, outLen, i).value)[k] * effA[i]
  }

  /** Writing row `n`'s column extends the filled part by one column and disturbs none of the earlier ones. */
  lemma FilledStep(ext: MatrixExtension, outLen: nat, effA: seq<real>, res: seq<seq<real>>, n: nat)
    requires WellShaped(ext) && n < |ext.energLo| <= |effA|
    requires FilledUpTo(ext, outLen, effA, res, n) && ExpandRow(ext, outLen, n).Some?
    ensures FilledUpTo(ext, outLen, effA, SetColumn(res, n, Scale(Cut(ExpandRow(ext, outLen, n).value), effA[n])), n + 1)
  {
    var col := Scale(Cut(ExpandRow(ext, outLen, n).value), effA[n]);
    var next := SetColumn(res, n, col);
    forall k, i | 0 <= k < outLen && 0 <= i < n + 1
      ensures next[k][i] == Cut(ExpandRow(ext, outLen, i).value)[k] * effA[i]
    {
      assert next[k] == res[k][n := col[k]];
    }
  }

  /**
   * The detector response: `len(E_MIN)` rows by `len(ENERG_LO)` columns, column
   * `i` the cut expansion of row `i` times `effA[i]`. A broadcasting error
   * stops the script at the first row that raises, reported as `Failure(i)`.
   */
  method DetectorResponse(ext: MatrixExtension, outLen: nat, effA: seq<real>) returns (r: Result<seq<seq<real>>, nat>)
    requires WellShaped(ext) && |effA| >= |ext.energLo|
    ensures r.Success? <==> forall i :: 0 <= i < |ext.energLo| ==> ExpandRow(ext, outLen, i).Some?
    ensures r.Failure? ==> r.error < |ext.energLo| && ExpandRow(ext, outLen, r.error).None?
    ensures r.Failure? ==> forall i :: 0 <= i < r.error ==> ExpandRow(ext, outLen, i).Some?
    ensures r.Success? ==> |r.value| == outLen && forall k :: 0 <= k < outLen ==> |r.value[k]| == |ext.energLo|
    ensures r.Success? ==> forall k, i :: 0 <= k < outLen && 0 <= i < |ext.energLo| ==>
              r.value[k][i] == Cut(ExpandRow(ext, outLen, i).value)[k] * effA[i]
  {
    var n := |ext.energLo|;
    var res := seq(outLen, _ => Zeros(n));
    var i := 0;
    while i < n
      invariant 0 <= i <= n
      invariant FilledUpTo(ext, outLen, effA, res, i)
    {
      var expanded := ExpandRow(ext, outLen, i);
      if expanded.None? {
        return Failure(i);
      }
      FilledStep(ext, outLen, effA, res, i);
      res := SetColumn(res, i, Scale(Cut(expanded.value), effA[i]));
      i := i + 1;
    }
    r := Success(res);
  }
}
