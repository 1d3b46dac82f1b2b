/** Gap analysis of absorb: where, in the newest revision's line numbering,
    lines of other revisions were deleted, and whether a line range is free
    of such gaps.

    A gap recorded by the source as the half-integer position `k + 0.5`
    (between line `k` and line `k + 1`) is stored here as the integer `k`.
    Comparing `k + 0.5` with an integer `x` gives the same answers as
    comparing `k` with `x` (`k + 0.5 < x` iff `k < x`), so no fractions are
    needed. */
module AbsorbGaps {
  import opened AbsorbRevisions

  predicate StrictlyIncreasing(s: seq<int>) {
    forall i, j :: 0 <= i < j < |s| ==> s[i] < s[j]
  }

  /** Number of entries flagged deleted. */
  function CountDeleted(es: seq<HistoryEntry>): nat {
    if es == [] then 0 else CountDeleted(es[..|es| - 1]) + (if es[|es| - 1].deleted then 1 else 0)
  }

  /** Number of entries NOT flagged deleted, i.e. lines of the newest revision. */
  function Visible(es: seq<HistoryEntry>): nat {
    if es == [] then 0 else Visible(es[..|es| - 1]) + (if es[|es| - 1].deleted then 0 else 1)
  }

  /** Locals of the scan in `_calculate_gap_lines`: the running line number,
      the line after which the last gap was recorded, and the gaps so far. */
  datatype GapScan = GapScan(lineno: int, lastGap: int, gaps: seq<int>)

  const InitialScan := GapScan(-1, -1, [])

  // ----- the scan as written -----

  /** One iteration of the loop as written: a deleted entry right after a new
      line records a gap; EVERY other entry, deleted or not, advances the
      line number. */
  function ScanStep(s: GapScan, e: HistoryEntry): GapScan {
    if e.deleted && s.lineno != s.lastGap && s.lineno >= 0 then
      GapScan(s.lineno, s.lineno, s.gaps + [s.lineno])
    else
      GapScan(s.lineno + 1, s.lastGap, s.gaps)
  }

  function ScanAll(es: seq<HistoryEntry>): GapScan {
    if es == [] then InitialScan else ScanStep(ScanAll(es[..|es| - 1]), es[|es| - 1])
  }

  /** The gap list `_calculate_gap_lines` returns for a full-history checkout. */
  function GapLines(es: seq<HistoryEntry>): seq<int> { ScanAll(es).gaps }

  /** `_calculate_gap_lines`, as written. */
  method CalculateGapLines(allLines: seq<HistoryEntry>) returns (gapLines: seq<int>)
    ensures gapLines == GapLines(allLines)
  {
    gapLines := [];
    var lineno := -1;
    var lastGapLine := -1;
    for i := 0 to |allLines|
      invariant ScanAll(allLines[..i]) == GapScan(lineno, lastGapLine, gapLines)
    {
      assert allLines[..i + 1][..i] == allLines[..i];
      if allLines[i].deleted && lineno != lastGapLine && lineno >= 0 {
        lastGapLine := lineno;
        gapLines := gapLines + [lineno];
      } else {
        lineno := lineno + 1;
      }
    }
    assert allLines[..|allLines|] == allLines;
  }

  ghost predicate ScanInvariant(s: GapScan) {
    && -1 <= s.lastGap <= s.lineno
    && StrictlyIncreasing(s.gaps)
    && (forall j :: 0 <= j < |s.gaps| ==> 0 <= s.gaps[j] <= s.lastGap)
  }

  lemma {:induction false} ScanAllInvariant(es: seq<HistoryEntry>)
    ensures ScanInvariant(ScanAll(es))
    ensures ScanAll(es).lineno + 1 + |ScanAll(es).gaps| == |es|
    ensures |ScanAll(es).gaps| <= CountDeleted(es)
  {
    if es != [] {
      ScanAllInvariant(es[..|es| - 1]);
    }
  }

  /** The gap list is strictly increasing (so bisecting it is meaningful),
      every gap is a position `k + 0.5` with `k >= 0`, and there is at most
      one gap per deleted entry. */
  lemma GapLinesWellFormed(es: seq<HistoryEntry>)
    ensures StrictlyIncreasing(GapLines(es))
    ensures forall j :: 0 <= j < |GapLines(es)| ==> GapLines(es)[j] >= 0
    ensures |GapLines(es)| <= CountDeleted(es)
  {
    ScanAllInvariant(es);
  }

  // ----- the scan as evidently intended -----

  /** One iteration of the loop with the evidently intended numbering:
      deleted entries never advance the line number. */
  function ScanStepFixed(s: GapScan, e: HistoryEntry): GapScan {
    if e.deleted then
      if s.lineno != s.lastGap && s.lineno >= 0 then GapScan(s.lineno, s.lineno, s.gaps + [s.lineno]) else s
    else
      GapScan(s.lineno + 1, s.lastGap, s.gaps)
  }

  function ScanAllFixed(es: seq<HistoryEntry>): GapScan {
    if es == [] then InitialScan else ScanStepFixed(ScanAllFixed(es[..|es| - 1]), es[|es| - 1])
  }

  function GapLinesFixed(es: seq<HistoryEntry>): seq<int> { ScanAllFixed(es).gaps }

  /** `_calculate_gap_lines` with deleted entries kept out of the numbering. */
  method CalculateGapLinesFixed(allLines: seq<HistoryEntry>) returns (gapLines: seq<int>)
    ensures gapLines == GapLinesFixed(allLines)
  {
    gapLines := [];
    var lineno := -1;
    var lastGapLine := -1;
    for i := 0 to |allLines|
      invariant ScanAllFixed(allLines[..i]) == GapScan(lineno, lastGapLine, gapLines)
    {
      assert allLines[..i + 1][..i] == allLines[..i];
      if allLines[i].deleted {
        if lineno != lastGapLine && lineno >= 0 {
          lastGapLine := lineno;
          gapLines := gapLines + [lineno];
        }
      } else {
        lineno := lineno + 1;
      }
    }
    assert allLines[..|allLines|] == allLines;
  }

  /** Visible line `k` of the newest revision is immediately followed, in the
      full history, by a deleted entry: some other revision's line was
      deleted right after it. */
  ghost predicate GapAfter(es: seq<HistoryEntry>, k: int) {
    exists p :: 0 <= p < |es| - 1 && !es[p].deleted && es[p + 1].deleted && Visible(es[..p]) == k
  }

  ghost predicate FixedScanShape(es: seq<HistoryEntry>, s: GapScan) {
    && s.lineno == Visible(es) - 1
    && s.lastGap <= s.lineno
    && (s.lastGap == s.lineno <==> Visible(es) == 0 || es[|es| - 1].deleted)
    && StrictlyIncreasing(s.gaps)
    && (forall j :: 0 <= j < |s.gaps| ==> 0 <= s.gaps[j] <= s.lastGap)
  }

  lemma {:induction false} ScanAllFixedShape(es: seq<HistoryEntry>)
    ensures FixedScanShape(es, ScanAllFixed(es))
  {
    if es != [] {
      ScanAllFixedShape(es[..|es| - 1]);
    }
  }

  /** Appending one entry adds at most the gap after the previous last entry. */
  lemma GapAfterSnoc(init: seq<HistoryEntry>, e: HistoryEntry, k: int)
    ensures GapAfter(init + [e], k) <==>
      GapAfter(init, k) || (init != [] && !init[|init| - 1].deleted && e.deleted && Visible(init[..|init| - 1]) == k)
  {
    var es := init + [e];
    if GapAfter(es, k) {
      var p :| 0 <= p < |es| - 1 && !es[p].deleted && es[p + 1].deleted && Visible(es[..p]) == k;
      assert es[..p] == init[..p];
      if p < |init| - 1 {
        assert 0 <= p < |init| - 1 && !init[p].deleted && init[p + 1].deleted && Visible(init[..p]) == k;
      }
    }
    if GapAfter(init, k) {
      var p :| 0 <= p < |init| - 1 && !init[p].deleted && init[p + 1].deleted && Visible(init[..p]) == k;
      assert es[..p] == init[..p];
      assert 0 <= p < |es| - 1 && !es[p].deleted && es[p + 1].deleted && Visible(es[..p]) == k;
    }
    if init != [] && !init[|init| - 1].deleted && e.deleted && Visible(init[..|init| - 1]) == k {
      var p := |init| - 1;
      assert es[..p] == init[..p];
      assert 0 <= p < |es| - 1 && !es[p].deleted && es[p + 1].deleted && Visible(es[..p]) == k;
    }
  }

  /** One more entry, for one position: the intended scan records `k` after
      the entry exactly when the gap relation holds for the longer history. */
  lemma ScanFixedGapStep(init: seq<HistoryEntry>, e: HistoryEntry, k: int)
    requires FixedScanShape(init, ScanAllFixed(init))
    requires k in ScanAllFixed(init).gaps <==> GapAfter(init, k)
    ensures k in ScanAllFixed(init + [e]).gaps <==> GapAfter(init + [e], k)
  {
    var es := init + [e];
    assert es[..|es| - 1] == init;
    assert ScanAllFixed(es) == ScanStepFixed(ScanAllFixed(init), e);
    if init != [] {
      assert init == init[..|init| - 1] + [init[|init| - 1]];
      assert Visible(init) == Visible(init[..|init| - 1]) + (if init[|init| - 1].deleted then 0 else 1);
    }
    GapAfterSnoc(init, e, k);
  }

  lemma {:induction false} ScanAllFixedGaps(es: seq<HistoryEntry>)
    ensures forall k :: k in ScanAllFixed(es).gaps <==> GapAfter(es, k)
  {
    if es != [] {
      var init := es[..|es| - 1];
      var e := es[|es| - 1];
      assert es == init + [e];
      ScanAllFixedGaps(init);
      ScanAllFixedShape(init);
      forall k
        ensures k in ScanAllFixed(es).gaps <==> GapAfter(es, k)
      {
        ScanFixedGapStep(init, e, k);
      }
    }
  }

  /** With the intended numbering, `k` is recorded as a gap exactly when
      visible line `k` is directly followed by a deleted entry; the list is
      strictly increasing and names only existing lines. */
  lemma GapLinesFixedCorrect(es: seq<HistoryEntry>)
    ensures StrictlyIncreasing(GapLinesFixed(es))
    ensures forall k :: k in GapLinesFixed(es) <==> GapAfter(es, k)
    ensures forall j :: 0 <= j < |GapLinesFixed(es)| ==> 0 <= GapLinesFixed(es)[j] < Visible(es)
  {
    ScanAllFixedShape(es);
    ScanAllFixedGaps(es);
  }

  /** Every deleted entry directly follows a visible one: the histories on
      which no deleted entry reaches the `else` branch of the scan. */
  predicate NoSilentDeletion(es: seq<HistoryEntry>) {
    forall i :: 0 <= i < |es| && es[i].deleted ==> i > 0 && !es[i - 1].deleted
  }

  lemma {:induction false} ScansAgree(es: seq<HistoryEntry>)
    requires NoSilentDeletion(es)
    ensures ScanAll(es) == ScanAllFixed(es)
    ensures es != [] && !es[|es| - 1].deleted ==> 0 <= ScanAll(es).lineno && ScanAll(es).lastGap < ScanAll(es).lineno
  {
    if es != [] {
      var init := es[..|es| - 1];
      assert forall i :: 0 <= i < |init| ==> init[i] == es[i];
      ScansAgree(init);
      ScanAllInvariant(init);
      if es[|es| - 1].deleted {
        assert init[|init| - 1] == es[|es| - 2];
      }
    }
  }

  /** The scan as written and the intended scan give the same gap list on
      every history in which each deleted entry directly follows a visible
      one; they can differ only when a deleted entry leads the history or
      follows another deleted entry. */
  lemma GapLinesAgree(es: seq<HistoryEntry>)
    requires NoSilentDeletion(es)
    ensures GapLines(es) == GapLinesFixed(es)
  {
    ScansAgree(es);
  }

  /** The discrepancy, on a full history "deleted, kept, deleted, kept": as
      written the first (leading) deleted entry advances the line number, so
      the gap after kept line 0 is recorded at 1.5 instead of 0.5, after a
      line that is not followed by a deletion at all. */
  lemma GapLinesMisnumbered()
    ensures var es := [HistoryEntry(LineInfo(1, 0), true), HistoryEntry(LineInfo(3, 0), false),
                       HistoryEntry(LineInfo(3, 1), true), HistoryEntry(LineInfo(3, 2), false)];
      && GapLines(es) == [1]
      && GapLinesFixed(es) == [0]
      && !GapAfter(es, 1)
  {
    var es := [HistoryEntry(LineInfo(1, 0), true), HistoryEntry(LineInfo(3, 0), false),
               HistoryEntry(LineInfo(3, 1), true), HistoryEntry(LineInfo(3, 2), false)];
    assert es[..1][..0] == [];
    assert es[..2][..1] == es[..1];
    assert es[..3][..2] == es[..2];
    assert es[..4] == es && es[..4][..3] == es[..3];
    assert ScanAll(es[..1]) == GapScan(0, -1, []);
    assert ScanAll(es[..2]) == GapScan(1, -1, []);
    assert ScanAll(es[..3]) == GapScan(1, 1, [1]);
    assert ScanAll(es) == GapScan(2, 1, [1]);
    assert ScanAllFixed(es[..1]) == GapScan(-1, -1, []);
    assert ScanAllFixed(es[..2]) == GapScan(0, -1, []);
    assert ScanAllFixed(es[..3]) == GapScan(0, 0, [0]);
    assert ScanAllFixed(es) == GapScan(1, 0, [0]);
    GapLinesFixedCorrect(es);
  }

  // ----- continuity -----

  predicate Sorted(s: seq<int>) {
    forall i, j :: 0 <= i < j < |s| ==> s[i] <= s[j]
  }

  lemma StrictlyIncreasingIsSorted(s: seq<int>)
    requires StrictlyIncreasing(s)
    ensures Sorted(s)
  {
  }

  /** `bisect.bisect_left` on `[lo, hi)`: the first index whose element is at
      least `x`. */
  function BisectLeft(a: seq<int>, x: int, lo: nat, hi: nat): (i: nat)
    requires lo <= hi <= |a|
    requires Sorted(a)
    requires forall j :: 0 <= j < lo ==> a[j] < x
    requires forall j :: hi <= j < |a| ==> a[j] >= x
    ensures lo <= i <= hi
    ensures forall j :: 0 <= j < i ==> a[j] < x
    ensures forall j :: i <= j < |a| ==> a[j] >= x
    decreases hi - lo
  {
    if lo == hi then lo
    else
      var mid := (lo + hi) / 2;
      if a[mid] < x then BisectLeft(a, x, mid + 1, hi) else BisectLeft(a, x, lo, mid)
  }

  /** `_iscontinuous(a1, a2)`: no insertion or deletion of another revision
      lies among lines `a1..a2`. True when `a1 >= a2`; otherwise true iff no
      recorded gap position lies strictly between `a1` and `a2`. */
  function IsContinuous(gaps: seq<int>, a1: int, a2: int): (r: bool)
    requires Sorted(gaps)
    ensures a1 >= a2 ==> r
    ensures r <==> forall j :: 0 <= j < |gaps| ==> !(a1 as real < gaps[j] as real + 0.5 < a2 as real)
  {
    if a1 >= a2 then true
    else
      var i := BisectLeft(gaps, a1, 0, |gaps|);
      if i >= |gaps| then true else gaps[i] >= a2
  }
}
