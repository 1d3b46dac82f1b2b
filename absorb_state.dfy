/** The per-file state of absorb (`filefixupstate`): the contents of the
    file along the stack, the gap positions of its history, and the fixups
    and chunk statistics that `diffwith` accumulates. */
module AbsorbState {
  import opened Wrappers
  import opened AbsorbRevisions
  import opened AbsorbGaps
  import opened AbsorbChunks
  import opened AbsorbEditor

  predicate HunksFit(hunks: seq<Hunk>, n: int) {
    forall h :: h in hunks ==> ValidHunk(h, n)
  }

  lemma HunksFitPrefix(hunks: seq<Hunk>, n: int, k: nat)
    requires HunksFit(hunks, n) && k <= |hunks|
    ensures HunksFit(hunks[..k], n)
  {
    assert forall h :: h in hunks[..k] ==> h in hunks;
  }

  /** The fixups of all hunks, hunk after hunk. */
  function AllFixups(annotated: seq<LineInfo>, gaps: seq<int>, hunks: seq<Hunk>): seq<Fixup>
    requires Sorted(gaps) && HunksFit(hunks, |annotated|)
  {
    if hunks == [] then []
    else
      HunksFitPrefix(hunks, |annotated|, |hunks| - 1);
      AllFixups(annotated, gaps, hunks[..|hunks| - 1]) + Analyse(annotated, gaps, hunks[|hunks| - 1])
  }

  /** The number of hunks that yield at least one fixup. */
  function Adopted(annotated: seq<LineInfo>, gaps: seq<int>, hunks: seq<Hunk>): nat
    requires Sorted(gaps) && HunksFit(hunks, |annotated|)
  {
    if hunks == [] then 0
    else
      HunksFitPrefix(hunks, |annotated|, |hunks| - 1);
      Adopted(annotated, gaps, hunks[..|hunks| - 1]) + (if Analyse(annotated, gaps, hunks[|hunks| - 1]) != [] then 1 else 0)
  }

  /** The fixups and the adopted count of one more hunk. */
  lemma AllFixupsSnoc(annotated: seq<LineInfo>, gaps: seq<int>, hunks: seq<Hunk>, k: nat)
    requires Sorted(gaps) && HunksFit(hunks, |annotated|) && k < |hunks|
    ensures HunksFit(hunks[..k], |annotated|) && HunksFit(hunks[..k + 1], |annotated|)
    ensures AllFixups(annotated, gaps, hunks[..k + 1])
      == AllFixups(annotated, gaps, hunks[..k]) + Analyse(annotated, gaps, hunks[k])
    ensures Adopted(annotated, gaps, hunks[..k + 1])
      == Adopted(annotated, gaps, hunks[..k]) + (if Analyse(annotated, gaps, hunks[k]) != [] then 1 else 0)
  {
    HunksFitPrefix(hunks, |annotated|, k);
    HunksFitPrefix(hunks, |annotated|, k + 1);
    assert hunks[..k + 1][..k] == hunks[..k];
  }

  /** A fixup attributed to a revision after the immutable first one, whose
      replaced lines all belong to that revision. */
  ghost predicate Attributed(annotated: seq<LineInfo>, f: Fixup) {
    && f.rev > 2
    && forall x :: f.a1 <= x < f.a2 ==> 0 <= x < |annotated| && annotated[x].rev == f.rev - 1
  }

  /** Over all hunks: at most every hunk is adopted, none is adopted exactly
      when there is no fixup at all, and every fixup is attributed. */
  lemma {:induction false} AllFixupsAttributed(annotated: seq<LineInfo>, gaps: seq<int>, hunks: seq<Hunk>)
    requires Sorted(gaps) && HunksFit(hunks, |annotated|)
    ensures Adopted(annotated, gaps, hunks) <= |hunks|
    ensures Adopted(annotated, gaps, hunks) == 0 <==> AllFixups(annotated, gaps, hunks) == []
    ensures forall f :: f in AllFixups(annotated, gaps, hunks) ==> Attributed(annotated, f)
  {
    if hunks != [] {
      var k := |hunks| - 1;
      AllFixupsSnoc(annotated, gaps, hunks, k);
      assert hunks[..k + 1] == hunks;
      AllFixupsAttributed(annotated, gaps, hunks[..k]);
      var last := Analyse(annotated, gaps, hunks[k]);
      AnalyseAttribution(annotated, gaps, hunks[k]);
      assert forall f :: f in last ==> Attributed(annotated, f);
    }
  }

  /** Appending fixups of revisions after the first keeps every revision
      after the first. */
  lemma AppendLaterRevisions(xs: seq<Fixup>, ys: seq<Fixup>)
    requires forall f :: f in xs ==> f.rev > 2
    requires forall f :: f in ys ==> f.rev > 2
    ensures forall f :: f in xs + ys ==> f.rev > 2
  {
  }

  /** The loop of `diffwith` over the hunks: the fixups of every hunk in
      order, and how many hunks yielded any. */
  method AnalyseHunks(annotated: seq<LineInfo>, gaps: seq<int>, hunks: seq<Hunk>)
    returns (fixups: seq<Fixup>, adopted: nat)
    requires Sorted(gaps) && HunksFit(hunks, |annotated|)
    ensures fixups == AllFixups(annotated, gaps, hunks)
    ensures adopted == Adopted(annotated, gaps, hunks)
  {
    fixups, adopted := [], 0;
    for k := 0 to |hunks|
      invariant HunksFit(hunks[..k], |annotated|)
      invariant fixups == AllFixups(annotated, gaps, hunks[..k])
      invariant adopted == Adopted(annotated, gaps, hunks[..k])
    {
      AllFixupsSnoc(annotated, gaps, hunks, k);
      var newFixups := AnalyseDiffChunk(annotated, gaps, hunks[k]);
      if newFixups != [] {
        adopted := adopted + 1;
      }
      fixups := fixups + newFixups;
    }
    assert hunks[..|hunks|] == hunks;
  }

  class FileFixupState {
    /** The lines of each content of the file, oldest first. */
    const contentLines: seq<seq<Line>>
    /** Gap positions of the file's full history (`gap_lines`). */
    const gapLines: seq<int>
    /** `chunkstats`: hunks adopted and hunks seen. */
    var chunkAdopted: nat
    var chunkTotal: nat
    var targetLines: seq<Line>
    var fixups: seq<Fixup>

    ghost predicate Valid()
      reads this
    {
      && StrictlyIncreasing(gapLines)
      && Sorted(gapLines)
      && chunkAdopted <= chunkTotal
      && forall f :: f in fixups ==> f.rev > 2
    }

    /** `__init__`, given the file's contents and the full history the
        linelog checks out for its newest revision. The gap lines are those
        of the corrected scan; `AbsorbGaps.GapLinesAgree` says on which
        histories the scan as written gives the same list. */
    constructor (contentLines: seq<seq<Line>>, history: seq<HistoryEntry>)
      ensures Valid()
      ensures this.contentLines == contentLines
      ensures gapLines == GapLinesFixed(history)
      ensures forall k :: k in gapLines <==> GapAfter(history, k)
      ensures chunkAdopted == 0 && chunkTotal == 0
      ensures targetLines == [] && fixups == []
    {
      var gaps := CalculateGapLinesFixed(history);
      GapLinesFixedCorrect(history);
      StrictlyIncreasingIsSorted(gaps);
      this.contentLines := contentLines;
      gapLines := gaps;
      chunkAdopted, chunkTotal := 0, 0;
      targetLines := [];
      fixups := [];
    }

    /** `diffwith`: analyses each differing hunk between the newest content
        and the target against the linelog's checkout of the newest
        revision, which has one entry per line plus the trailing "end"
        entry. */
    method DiffWith(targetLines: seq<Line>, checkout: seq<LineInfo>, hunks: seq<Hunk>)
      requires Valid()
      requires |contentLines| >= 1 && |checkout| == |contentLines[|contentLines| - 1]| + 1
      requires HunksFit(hunks, |checkout|)
      modifies this
      ensures Valid()
      ensures this.targetLines == targetLines
      ensures fixups == old(fixups) + AllFixups(RelabelEnd(checkout), gapLines, hunks)
      ensures chunkAdopted == old(chunkAdopted) + Adopted(RelabelEnd(checkout), gapLines, hunks)
      ensures chunkTotal == old(chunkTotal) + |hunks|
    {
      this.targetLines := targetLines;
      var annotated := checkout;
      if |annotated| > 1 {
        annotated := annotated[|annotated| - 1 := annotated[|annotated| - 2]];
      }
      assert annotated == RelabelEnd(checkout);
      var newAll, adopted := AnalyseHunks(annotated, gapLines, hunks);
      AllFixupsAttributed(annotated, gapLines, hunks);
      AppendLaterRevisions(fixups, newAll);
      fixups := fixups + newAll;
      chunkAdopted := chunkAdopted + adopted;
      chunkTotal := chunkTotal + |hunks|;
    }

    /** The `--edit-lines` path: parses the edited editor text into one
        content per revision. When the text was edited at all, the chunk
        statistics become `(1, 1)`; a failed parse changes nothing. */
    method EditLines(editorText: string, editedText: string, prefix: string, visible: seq<nat>)
      returns (r: Result<seq<string>, EditError>)
      requires Valid() && ValidVisible(visible, |contentLines|)
      modifies this
      ensures Valid()
      ensures r == ParseText(editedText, prefix, visible, |contentLines|)
      ensures r.Ok? && editedText != editorText ==> chunkAdopted == 1 && chunkTotal == 1
      ensures r.Err? || editedText == editorText ==>
        chunkAdopted == old(chunkAdopted) && chunkTotal == old(chunkTotal)
      ensures fixups == old(fixups) && targetLines == old(targetLines)
    {
      r := ParseEditedText(editedText, prefix, visible, |contentLines|);
      if r.Ok? && editedText != editorText {
        chunkAdopted, chunkTotal := 1, 1;
      }
    }
  }
}
