/** Linelog revision numbering and line tags used by absorb.

    Original content `i` of the file stack lives at linelog revision `2i+1`;
    the fixups made to it live at revision `2i+2`. Every line the linelog
    returns is tagged with the revision that introduced it and its line
    number in that revision. */
module AbsorbRevisions {
  import opened Wrappers

  /** One line of a file, terminator included. */
  type Line = string

  /** The origin tag of a line: the linelog revision that introduced it and
      its 0-based line number in that revision. */
  datatype LineInfo = LineInfo(rev: nat, linenum: nat)

  /** One entry of a checkout that also lists deleted lines. */
  datatype HistoryEntry = HistoryEntry(info: LineInfo, deleted: bool)

  function Max(a: int, b: int): int { if a >= b then a else b }

  /** The linelog revision holding original content `i`. */
  function OriginalRev(i: nat): nat { 2 * i + 1 }

  /** The linelog revision holding the fixups made to content `i`. */
  function FixupRev(i: nat): nat { 2 * i + 2 }

  /** Maps a linelog revision back to a stack index: `(max(r, 1) - 1) // 2`. */
  function StackIndex(rev: int): nat { (Max(rev, 1) - 1) / 2 }

  /** Both revisions of content `i` map back to `i`, and the two numberings
      never collide: original revisions are odd, fixup revisions even. */
  lemma StackIndexInverts(i: nat)
    ensures StackIndex(OriginalRev(i)) == i
    ensures StackIndex(FixupRev(i)) == i
    ensures OriginalRev(i) % 2 == 1 && FixupRev(i) % 2 == 0
    ensures FixupRev(i) == OriginalRev(i) + 1
  {
  }

  /** `_getline`: resolves a line tag to its text. Odd revisions are original
      contents (`contentLines[rev // 2]`), even ones are lines of the target
      content. An index out of range (an `IndexError` in the source) gives
      `None`. */
  function GetLine(contentLines: seq<seq<Line>>, targetLines: seq<Line>, info: LineInfo): Option<Line>
  {
    if info.rev % 2 == 1 then
      var i := info.rev / 2;
      if i < |contentLines| && info.linenum < |contentLines[i]| then Some(contentLines[i][info.linenum]) else None
    else
      if info.linenum < |targetLines| then Some(targetLines[info.linenum]) else None
  }

  /** A line tagged with the original revision of content `i` resolves to
      line `k` of content `i`; one tagged with any fixup revision resolves to
      line `k` of the target content. */
  lemma {:induction false} GetLineByRevision(contentLines: seq<seq<Line>>, targetLines: seq<Line>, i: nat, k: nat)
    ensures i < |contentLines| && k < |contentLines[i]| ==>
      GetLine(contentLines, targetLines, LineInfo(OriginalRev(i), k)) == Some(contentLines[i][k])
    ensures k < |targetLines| ==>
      GetLine(contentLines, targetLines, LineInfo(FixupRev(i), k)) == Some(targetLines[k])
    ensures GetLine(contentLines, targetLines, LineInfo(FixupRev(i), k)).Some? <==> k < |targetLines|
  {
    assert OriginalRev(i) / 2 == i;
    assert FixupRev(i) % 2 == 0;
  }

  /** The annotation `diffwith` works on: the linelog's checkout of the
      newest revision, whose trailing "end" entry is relabelled with the tag
      of the line before it when there is one. */
  function RelabelEnd(checkout: seq<LineInfo>): (r: seq<LineInfo>)
    ensures |r| == |checkout|
    ensures |checkout| > 1 ==> r[|r| - 1] == checkout[|checkout| - 2]
    ensures forall i :: 0 <= i < |checkout| - 1 ==> r[i] == checkout[i]
    ensures |checkout| <= 1 ==> r == checkout
  {
    if |checkout| > 1 then checkout[..|checkout| - 1] + [checkout[|checkout| - 2]] else checkout
  }
}
