/** The stack-level helpers of absorb: de-duplication, collecting the draft
    stack below a head, deciding whether a rewritten commit becomes empty,
    and splicing parsed hunks into a file's lines. */
module AbsorbStack {
  import opened Wrappers
  import opened AbsorbRevisions

  // ---------------------------------------------------------------------
  // uniq
  // ---------------------------------------------------------------------

  /** The position of the first occurrence of `x` in `xs`. */
  function FirstIndex<T(==)>(xs: seq<T>, x: T): (k: nat)
    requires x in xs
    ensures k < |xs| && xs[k] == x && x !in xs[..k]
  {
    if xs[0] == x then 0
    else
      var k := FirstIndex(xs[1..], x);
      assert xs[..k + 1] == [xs[0]] + xs[1..][..k];
      k + 1
  }

  /** An occurrence with no earlier occurrence is the first one. */
  lemma FirstIndexAt<T>(xs: seq<T>, k: nat)
    requires k < |xs| && xs[k] !in xs[..k]
    ensures FirstIndex(xs, xs[k]) == k
  {
    var j := FirstIndex(xs, xs[k]);
    assert forall m :: 0 <= m < k ==> xs[..k][m] == xs[m];
    assert forall m :: 0 <= m < j ==> xs[..j][m] == xs[m];
  }

  /** `uniq`: drops repeated items, keeping first occurrences in order. The
      result has no duplicates, holds exactly the items of the input, and
      lists them in the order of their first occurrence. */
  method Uniq<T(==)>(lst: seq<T>) returns (result: seq<T>)
    ensures forall i, j :: 0 <= i < j < |result| ==> result[i] != result[j]
    ensures forall x :: x in result <==> x in lst
    ensures forall i, j :: 0 <= i < j < |result| ==> FirstIndex(lst, result[i]) < FirstIndex(lst, result[j])
  {
    var seen: set<T> := {};
    result := [];
    for i := 0 to |lst|
      invariant forall x :: x in seen <==> x in result
      invariant forall x :: x in result <==> x in lst[..i]
      invariant forall j, k :: 0 <= j < k < |result| ==> result[j] != result[k]
      invariant forall j :: 0 <= j < |result| ==> result[j] in lst && FirstIndex(lst, result[j]) < i
      invariant forall j, k :: 0 <= j < k < |result| ==> FirstIndex(lst, result[j]) < FirstIndex(lst, result[k])
    {
      assert lst[..i + 1] == lst[..i] + [lst[i]];
      if lst[i] !in seen {
        FirstIndexAt(lst, i);
        seen := seen + {lst[i]};
        result := result + [lst[i]];
      }
    }
    assert lst[..|lst|] == lst;
  }

  // ---------------------------------------------------------------------
  // getdraftstack
  // ---------------------------------------------------------------------

  /** A changeset of the repository, as far as `getdraftstack` looks at it.
      Changesets are numbered by revision; a parent always has a smaller
      revision, and the null revision `-1` stands for "no parent". */
  datatype Changeset = Changeset(isPublic: bool, isObsolete: bool, parents: seq<int>)

  /** As `parents()` reports them, every changeset has at least one parent
      (a root has the null revision as its only parent). */
  predicate WellFormed(repo: seq<Changeset>) {
    && (forall r :: 0 <= r < |repo| ==> |repo[r].parents| >= 1)
    && (forall r, i :: 0 <= r < |repo| && 0 <= i < |repo[r].parents| ==> -1 <= repo[r].parents[i] < r)
  }

  predicate InRepo(repo: seq<Changeset>, rev: int) { -1 <= rev < |repo| }

  /** The null revision counts as public. */
  predicate IsDraft(repo: seq<Changeset>, rev: int)
    requires InRepo(repo, rev)
  {
    rev >= 0 && !repo[rev].isPublic && !repo[rev].isObsolete
  }

  function ParentCount(repo: seq<Changeset>, rev: int): nat
    requires InRepo(repo, rev)
  {
    if rev < 0 then 0 else |repo[rev].parents|
  }

  /** `p1()`: the first parent, or the null revision. */
  function P1(repo: seq<Changeset>, rev: int): (p: int)
    requires WellFormed(repo) && InRepo(repo, rev)
    ensures InRepo(repo, p) && (rev >= 0 ==> p < rev)
  {
    if rev < 0 then -1 else repo[rev].parents[0]
  }

  /** Python truthiness of the optional `limit`: `None` and `0` are false. */
  predicate LimitSet(limit: Option<int>) { limit.Some? && limit.value != 0 }

  function Reverse<T>(s: seq<T>): (r: seq<T>)
    ensures |r| == |s|
    ensures forall i :: 0 <= i < |s| ==> r[i] == s[|s| - 1 - i]
  {
    if s == [] then [] else Reverse(s[1..]) + [s[0]]
  }

  /** The changesets taken so far by the walk from `head`, newest first:
      each is a draft with exactly one parent, and each next one is the
      previous one's first parent. */
  ghost predicate Walked(repo: seq<Changeset>, head: int, taken: seq<int>)
    requires WellFormed(repo)
  {
    && (forall i :: 0 <= i < |taken| ==> 0 <= taken[i] < |repo|)
    && (forall i :: 0 <= i < |taken| ==> IsDraft(repo, taken[i]) && ParentCount(repo, taken[i]) == 1)
    && (taken != [] ==> taken[0] == head)
    && (forall i :: 0 < i < |taken| ==> P1(repo, taken[i - 1]) == taken[i])
  }

  /** Taking the changeset the walk has reached extends the walk. */
  lemma WalkedSnoc(repo: seq<Changeset>, head: int, taken: seq<int>, ctx: int)
    requires WellFormed(repo) && Walked(repo, head, taken)
    requires InRepo(repo, ctx) && IsDraft(repo, ctx) && ParentCount(repo, ctx) == 1
    requires ctx == if taken == [] then head else P1(repo, taken[|taken| - 1])
    ensures Walked(repo, head, taken + [ctx])
  {
    var t := taken + [ctx];
    assert forall i :: 0 <= i < |taken| ==> t[i] == taken[i];
  }

  /** The walk read oldest first. */
  lemma WalkedReversed(repo: seq<Changeset>, head: int, taken: seq<int>)
    requires WellFormed(repo) && Walked(repo, head, taken)
    ensures var result := Reverse(taken);
      && (forall i :: 0 <= i < |result| ==> 0 <= result[i] < |repo|)
      && (forall i :: 0 <= i < |result| ==> IsDraft(repo, result[i]) && ParentCount(repo, result[i]) == 1)
      && (result != [] ==> result[|result| - 1] == head)
      && (forall i :: 0 < i < |result| ==> P1(repo, result[i]) == result[i - 1])
      && (result != [] ==> result[0] == taken[|taken| - 1])
  {
    var result := Reverse(taken);
    forall i | 0 < i < |result|
      ensures P1(repo, result[i]) == result[i - 1]
    {
      var k := |taken| - 1 - i;
      assert result[i] == taken[k] && result[i - 1] == taken[k + 1];
    }
  }

  /** `getdraftstack`: walks first parents from the head while the changeset
      is draft (neither public nor obsolete), stopping early when `limit`
      items were taken or at a merge. The result is a linear chain, oldest
      first, ending at the head; every item has exactly one parent; and the
      walk stopped for one of the three reasons at the first changeset it
      did not take. */
  method GetDraftStack(repo: seq<Changeset>, head: int, limit: Option<int>) returns (result: seq<int>)
    requires WellFormed(repo) && InRepo(repo, head)
    ensures forall i :: 0 <= i < |result| ==> 0 <= result[i] < |repo|
    ensures forall i :: 0 <= i < |result| ==> IsDraft(repo, result[i]) && ParentCount(repo, result[i]) == 1
    ensures result != [] ==> result[|result| - 1] == head
    ensures forall i :: 0 < i < |result| ==> P1(repo, result[i]) == result[i - 1]
    ensures LimitSet(limit) ==> |result| <= Max(limit.value, 0)
    ensures var stop := if result == [] then head else P1(repo, result[0]);
      || !IsDraft(repo, stop)
      || ParentCount(repo, stop) > 1
      || (LimitSet(limit) && |result| >= limit.value)
  {
    var ctx := head;
    var taken: seq<int> := [];
    while IsDraft(repo, ctx)
      invariant InRepo(repo, ctx)
      invariant Walked(repo, head, taken)
      invariant ctx == if taken == [] then head else P1(repo, taken[|taken| - 1])
      invariant LimitSet(limit) ==> |taken| <= Max(limit.value, 0)
      decreases ctx + 1
    {
      if LimitSet(limit) && |taken| >= limit.value {
        break;
      }
      if ParentCount(repo, ctx) > 1 {
        break;
      }
      WalkedSnoc(repo, head, taken, ctx);
      taken := taken + [ctx];
      ctx := P1(repo, ctx);
    }
    WalkedReversed(repo, head, taken);
    result := Reverse(taken);
  }

  // ---------------------------------------------------------------------
  // _willbecomenoop
  // ---------------------------------------------------------------------

  type Path = string

  /** A file in a changeset's manifest: its flags (`x`, `l` or none) and
      its data. */
  datatype FileNode = FileNode(flags: string, data: string)

  /** A changeset's files list and manifest. */
  datatype Snapshot = Snapshot(files: set<Path>, manifest: map<Path, FileNode>)

  /** The changeset's manifest with the new contents written over it; the
      flags stay those of the changeset. */
  function Overlay(ctx: Snapshot, workingCopy: map<Path, string>): (m: map<Path, FileNode>)
    ensures m.Keys == ctx.manifest.Keys
    ensures forall p :: p in m ==> m[p] == if p in workingCopy then FileNode(ctx.manifest[p].flags, workingCopy[p]) else ctx.manifest[p]
  {
    map p | p in ctx.manifest :: if p in workingCopy then FileNode(ctx.manifest[p].flags, workingCopy[p]) else ctx.manifest[p]
  }

  /** `_willbecomenoop`: with no explicit parent the changeset must have
      exactly one; then the changeset may touch only overridden paths, and
      every overridden path must exist in both and keep the parent's flags
      and data. */
  function WillBecomeNoop(workingCopy: map<Path, string>, ctx: Snapshot, parents: seq<Snapshot>, pctx: Option<Snapshot>): bool
  {
    if pctx.None? && |parents| != 1 then false
    else
      var parent := if pctx.Some? then pctx.value else parents[0];
      && ctx.files <= workingCopy.Keys
      && forall p :: p in workingCopy ==>
          && p in parent.manifest && p in ctx.manifest
          && parent.manifest[p].flags == ctx.manifest[p].flags
          && parent.manifest[p].data == workingCopy[p]
  }

  /** `ctx.files()` lists every path at which the changeset differs from
      its parent: at any other path both have the same file, or neither
      has one. */
  ghost predicate FilesListed(ctx: Snapshot, parent: Snapshot) {
    forall p :: p !in ctx.files ==>
      && (p in ctx.manifest <==> p in parent.manifest)
      && (p in ctx.manifest ==> ctx.manifest[p] == parent.manifest[p])
  }

  /** A changeset with no explicit parent and other than one parent is
      never a no-op. Otherwise, when the files list is complete,
      `_willbecomenoop` holds exactly when the rewritten changeset's
      manifest is the parent's manifest and, besides, the changeset touches
      only overridden paths and every overridden path is in the changeset.
      Those two extra conditions are where the answer is conservative. */
  lemma WillBecomeNoopMeaning(workingCopy: map<Path, string>, ctx: Snapshot, parents: seq<Snapshot>, pctx: Option<Snapshot>)
    ensures pctx.None? && |parents| != 1 ==> !WillBecomeNoop(workingCopy, ctx, parents, pctx)
    ensures pctx.Some? || |parents| == 1 ==>
      var parent := if pctx.Some? then pctx.value else parents[0];
      FilesListed(ctx, parent) ==>
        (WillBecomeNoop(workingCopy, ctx, parents, pctx) <==>
          && Overlay(ctx, workingCopy) == parent.manifest
          && ctx.files <= workingCopy.Keys
          && workingCopy.Keys <= ctx.manifest.Keys)
  {
    if pctx.Some? || |parents| == 1 {
      var parent := if pctx.Some? then pctx.value else parents[0];
      var rewritten := Overlay(ctx, workingCopy);
      if FilesListed(ctx, parent) && WillBecomeNoop(workingCopy, ctx, parents, pctx) {
        assert rewritten.Keys == parent.manifest.Keys by {
          forall p | p in ctx.files
            ensures p in ctx.manifest && p in parent.manifest
          {
            assert p in workingCopy;
          }
        }
        forall p | p in rewritten
          ensures rewritten[p] == parent.manifest[p]
        {
          if p in workingCopy {
            var f := parent.manifest[p];
            assert f == FileNode(f.flags, f.data);
          } else {
            assert p !in ctx.files;
          }
        }
      }
      if rewritten == parent.manifest && ctx.files <= workingCopy.Keys && workingCopy.Keys <= ctx.manifest.Keys {
        forall p | p in workingCopy
          ensures p in parent.manifest && p in ctx.manifest
          ensures parent.manifest[p].flags == ctx.manifest[p].flags && parent.manifest[p].data == workingCopy[p]
        {
          assert p in rewritten;
          assert rewritten[p] == FileNode(ctx.manifest[p].flags, workingCopy[p]);
        }
      }
    }
  }

  /** The answer is conservative: a changeset whose files list names a path
      it does not override is never a no-op, even when the rewritten
      changeset equals its parent. */
  lemma NoopNotDetected()
    ensures var parent := Snapshot({}, map["a" := FileNode("", "x")]);
      var ctx := Snapshot({"a"}, parent.manifest);
      && FilesListed(ctx, parent)
      && Overlay(ctx, map[]) == parent.manifest
      && !WillBecomeNoop(map[], ctx, [parent], None)
  {
    var parent := Snapshot({}, map["a" := FileNode("", "x")]);
    var ctx := Snapshot({"a"}, parent.manifest);
    assert "a" in ctx.files;
  }

  // ---------------------------------------------------------------------
  // The splice loop of overlaydiffcontext
  // ---------------------------------------------------------------------

  /** A parsed hunk: replace lines `[a1, a2)` by `blines`. */
  datatype Patch = Patch(a1: int, a2: int, blines: seq<Line>)

  /** The patches of one file's diff: in bounds, in ascending order and not
      overlapping. */
  predicate Ascending(patches: seq<Patch>, n: int) {
    && (forall i :: 0 <= i < |patches| ==> 0 <= patches[i].a1 <= patches[i].a2 <= n)
    && (forall i :: 0 < i < |patches| ==> patches[i - 1].a2 <= patches[i].a1)
  }

  /** Where the untouched stretch starting at a position ends: at the next
      patch, or at the end of the file. */
  function NextStart(lines: seq<Line>, patches: seq<Patch>): int {
    if patches == [] then |lines| else patches[0].a1
  }

  /** The patched file read left to right in the original coordinates: each
      untouched stretch followed by the next patch's new lines. */
  function Patched(lines: seq<Line>, patches: seq<Patch>, pos: int): seq<Line>
    requires Ascending(patches, |lines|) && 0 <= pos <= NextStart(lines, patches)
    decreases |patches|
  {
    if patches == [] then lines[pos..]
    else
      var p := patches[0];
      lines[pos..p.a1] + p.blines + Patched(lines, patches[1..], p.a2)
  }

  /** The untouched stretch before the next patch can be peeled off. */
  lemma PatchedShift(lines: seq<Line>, patches: seq<Patch>, pos: int)
    requires Ascending(patches, |lines|) && 0 <= pos <= NextStart(lines, patches)
    ensures Patched(lines, patches, pos)
      == lines[pos..NextStart(lines, patches)] + Patched(lines, patches, NextStart(lines, patches))
  {
    if patches != [] {
      var p := patches[0];
      assert lines[pos..p.a1] == lines[pos..p.a1] + lines[p.a1..p.a1];
    } else {
      assert lines[|lines|..] == [];
    }
  }

  /** After the patches from `i` on were spliced in: the lines before them
      are still the original ones, and the rest is already patched. */
  ghost predicate SplicedFrom(lines: seq<Line>, patches: seq<Patch>, i: nat, current: seq<Line>)
    requires Ascending(patches, |lines|) && i <= |patches|
  {
    var rest := patches[i..];
    assert Ascending(rest, |lines|);
    var lo := NextStart(lines, rest);
    && lo <= |current|
    && current == lines[..lo] + Patched(lines, rest, lo)
  }

  /** A suffix of ascending patches is ascending. */
  lemma AscendingSuffix(patches: seq<Patch>, n: int, i: nat)
    requires Ascending(patches, n) && i <= |patches|
    ensures Ascending(patches[i..], n)
  {
    var rest := patches[i..];
    assert forall k :: 0 <= k < |rest| ==> rest[k] == patches[i + k];
  }

  /** Replacing `[a1, a2)` of a buffer whose first `lo` lines are original. */
  lemma SpliceLines(lines: seq<Line>, current: seq<Line>, lo: int, a1: int, a2: int, blines: seq<Line>, tail: seq<Line>)
    requires 0 <= a1 <= a2 <= lo <= |lines| && current == lines[..lo] + tail
    ensures a2 <= |current|
    ensures current[..a1] + blines + current[a2..] == lines[..a1] + (lines[a1..a1] + blines + (lines[a2..lo] + tail))
  {
    assert current[..a1] == lines[..a1];
    assert current[a2..] == lines[a2..lo] + tail;
    assert lines[a1..a1] == [];
  }

  /** Splicing patch `i` in place extends the patched part down to it. */
  lemma SpliceStep(lines: seq<Line>, patches: seq<Patch>, i: nat, current: seq<Line>)
    requires Ascending(patches, |lines|) && i < |patches| && SplicedFrom(lines, patches, i + 1, current)
    ensures patches[i].a2 <= |current|
    ensures SplicedFrom(lines, patches, i, current[..patches[i].a1] + patches[i].blines + current[patches[i].a2..])
  {
    var p := patches[i];
    var rest := patches[i + 1..];
    AscendingSuffix(patches, |lines|, i + 1);
    AscendingSuffix(patches, |lines|, i);
    var from := patches[i..];
    assert from[0] == p && from[1..] == rest;
    var lo := NextStart(lines, rest);
    assert p.a2 <= lo by {
      if rest != [] {
        assert rest[0] == patches[i + 1];
      }
    }
    var tail := Patched(lines, rest, lo);
    PatchedShift(lines, rest, p.a2);
    SpliceLines(lines, current, lo, p.a1, p.a2, p.blines, tail);
  }

  /** The splice loop of `overlaydiffcontext`: the patches, sorted in
      descending order, are applied one by one in place, so that earlier
      splices never move the lines a later one refers to. The outcome is the
      left-to-right patched file. */
  method SpliceDescending(lines: seq<Line>, patches: seq<Patch>) returns (result: seq<Line>)
    requires Ascending(patches, |lines|)
    ensures result == Patched(lines, patches, 0)
  {
    result := lines;
    var i := |patches|;
    while i > 0
      invariant 0 <= i <= |patches|
      invariant SplicedFrom(lines, patches, i, result)
    {
      SpliceStep(lines, patches, i - 1, result);
      var p := patches[i - 1];
      result := result[..p.a1] + p.blines + result[p.a2..];
      i := i - 1;
    }
    assert patches[0..] == patches;
    PatchedShift(lines, patches, 0);
  }

  /** The lines before the first patch and after the last one are kept, and
      the length changes by what the patches add and remove. */
  lemma {:induction false} PatchedKeepsOutside(lines: seq<Line>, patches: seq<Patch>, pos: int)
    requires Ascending(patches, |lines|) && 0 <= pos <= NextStart(lines, patches)
    ensures |Patched(lines, patches, pos)| == |lines| - pos + Growth(patches)
    ensures patches != [] ==> |Patched(lines, patches, pos)| >= |lines| - patches[|patches| - 1].a2
    ensures patches != [] ==> Patched(lines, patches, pos)[..patches[0].a1 - pos] == lines[pos..patches[0].a1]
    ensures patches != [] ==> var last := patches[|patches| - 1].a2;
      Patched(lines, patches, pos)[|Patched(lines, patches, pos)| - (|lines| - last)..] == lines[last..]
    decreases |patches|
  {
    if patches != [] {
      var p := patches[0];
      var rest := patches[1..];
      assert Ascending(rest, |lines|);
      PatchedKeepsOutside(lines, rest, p.a2);
      var tail := Patched(lines, rest, p.a2);
      assert Patched(lines, patches, pos) == lines[pos..p.a1] + p.blines + tail;
      var last := patches[|patches| - 1].a2;
      assert |tail| >= |lines| - last && tail[|tail| - (|lines| - last)..] == lines[last..] by {
        if rest == [] {
          assert tail == lines[p.a2..];
        } else {
          assert rest[|rest| - 1] == patches[|patches| - 1];
        }
      }
      KeepsEnds(lines[pos..p.a1], p.blines, tail, |lines| - last);
    }
  }

  /** A concatenation starts with its first part and ends with any suffix
      of its last part. */
  lemma KeepsEnds(head: seq<Line>, mid: seq<Line>, tail: seq<Line>, m: int)
    requires 0 <= m <= |tail|
    ensures (head + mid + tail)[..|head|] == head
    ensures (head + mid + tail)[|head + mid + tail| - m..] == tail[|tail| - m..]
  {
  }

  /** Lines added minus lines removed by the patches. */
  function Growth(patches: seq<Patch>): int {
    if patches == [] then 0 else |patches[0].blines| - (patches[0].a2 - patches[0].a1) + Growth(patches[1..])
  }
}
