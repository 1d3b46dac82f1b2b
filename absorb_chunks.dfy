/** Chunk attribution of absorb: which older revision a differing hunk
    belongs to (`_analysediffchunk`), and how the resulting fixups are
    coalesced (`_optimizefixups`). */
module AbsorbChunks {
  import opened AbsorbRevisions
  import opened AbsorbGaps

  /** A differing diff hunk: lines `a1..a2` of the newest content become
      lines `b1..b2` of the target content. */
  datatype Hunk = Hunk(a1: int, a2: int, b1: int, b2: int)

  /** A fixup `(rev, a1, a2, b1, b2)`: at linelog revision `rev`, replace
      lines `a1..a2` by target lines `b1..b2`. */
  datatype Fixup = Fixup(rev: int, a1: int, a2: int, b1: int, b2: int)

  /** A hunk the diff can produce against an annotation of `n` entries (the
      lines of the newest content plus the trailing "end" entry). */
  predicate ValidHunk(h: Hunk, n: int) {
    0 <= h.a1 <= h.a2 < n && 0 <= h.b1 <= h.b2
  }

  // ----- _optimizefixups -----

  /** The placeholder chunk `[-1, -1, -1, -1, -1]` the merge loop starts with. */
  const Sentinel := Fixup(-1, -1, -1, -1, -1)

  /** `c` may be merged into the chunk `cur`: same revision, the a-ranges
      and the b-ranges touch, and no other revision's gap lies at the joint. */
  predicate Joinable(gaps: seq<int>, cur: Fixup, c: Fixup)
    requires Sorted(gaps)
  {
    c.a1 == cur.a2 && c.b1 == cur.b2 && c.rev == cur.rev && IsContinuous(gaps, Max(c.a1 - 1, 0), c.a1)
  }

  /** The fixup spanning a run from `first` to `last`. */
  function Span(first: Fixup, last: Fixup): Fixup {
    Fixup(first.rev, first.a1, last.a2, first.b1, last.b2)
  }

  /** Locals of the merge loop: the chunks pushed so far and the current one. */
  datatype OptState = OptState(result: seq<Fixup>, current: Fixup)

  /** `pushchunk`: the current chunk is emitted unless it is the placeholder. */
  function Push(result: seq<Fixup>, current: Fixup): seq<Fixup> {
    if current.rev != -1 then result + [current] else result
  }

  function OptStep(gaps: seq<int>, s: OptState, c: Fixup): OptState
    requires Sorted(gaps)
  {
    if Joinable(gaps, s.current, c) then OptState(s.result, s.current.(a2 := c.a2, b2 := c.b2))
    else OptState(Push(s.result, s.current), c)
  }

  function OptScan(gaps: seq<int>, fs: seq<Fixup>): OptState
    requires Sorted(gaps)
  {
    if fs == [] then OptState([], Sentinel) else OptStep(gaps, OptScan(gaps, fs[..|fs| - 1]), fs[|fs| - 1])
  }

  /** The list `_optimizefixups` returns. */
  function Optimize(gaps: seq<int>, fs: seq<Fixup>): seq<Fixup>
    requires Sorted(gaps)
  {
    var s := OptScan(gaps, fs);
    Push(s.result, s.current)
  }

  /** `_optimizefixups`: merges adjacent fixups in one pass. */
  method OptimizeFixups(gaps: seq<int>, fixups: seq<Fixup>) returns (result: seq<Fixup>)
    requires Sorted(gaps)
    ensures result == Optimize(gaps, fixups)
  {
    result := [];
    var current := Sentinel;
    for i := 0 to |fixups|
      invariant OptScan(gaps, fixups[..i]) == OptState(result, current)
    {
      assert fixups[..i + 1][..i] == fixups[..i];
      var c := fixups[i];
      if c.a1 == current.a2 && c.b1 == current.b2 && c.rev == current.rev
        && IsContinuous(gaps, Max(c.a1 - 1, 0), c.a1)
      {
        current := current.(a2 := c.a2, b2 := c.b2);
      } else {
        if current.rev != -1 {
          result := result + [current];
        }
        current := c;
      }
    }
    assert fixups[..|fixups|] == fixups;
    if current.rev != -1 {
      result := result + [current];
    }
  }

  lemma {:induction false} OptScanBounded(gaps: seq<int>, fs: seq<Fixup>)
    requires Sorted(gaps)
    ensures |OptScan(gaps, fs).result| + (if OptScan(gaps, fs).current.rev != -1 then 1 else 0) <= |fs|
    ensures forall f :: f in OptScan(gaps, fs).result ==> f.rev != -1
  {
    if fs != [] {
      OptScanBounded(gaps, fs[..|fs| - 1]);
    }
  }

  /** For every input list: merging never lengthens it, and the placeholder
      revision `-1` is never emitted. */
  lemma OptimizeBounded(gaps: seq<int>, fs: seq<Fixup>)
    requires Sorted(gaps)
    ensures |Optimize(gaps, fs)| <= |fs|
    ensures forall f :: f in Optimize(gaps, fs) ==> f.rev != -1
  {
    OptScanBounded(gaps, fs);
  }

  /** Puts fixup `f`, followed in the input by `next`, in front of the
      merged rest of the list (whose first run starts at `next`). */
  function Cons(gaps: seq<int>, f: Fixup, next: Fixup, rest: seq<Fixup>): seq<Fixup>
    requires Sorted(gaps)
    requires rest != []
  {
    if Joinable(gaps, f, next) then [Span(f, rest[0])] + rest[1..] else [f] + rest
  }

  /** A reference definition of the merge, built from the front: the first
      fixup either starts a run of its own or joins the run that the rest
      of the list starts with. */
  function MergeRuns(gaps: seq<int>, fs: seq<Fixup>): (r: seq<Fixup>)
    requires Sorted(gaps)
    ensures |r| <= |fs|
    ensures r == [] <==> fs == []
    ensures fs != [] ==> r[0].rev == fs[0].rev && r[0].a1 == fs[0].a1 && r[0].b1 == fs[0].b1
    ensures fs != [] ==> r[|r| - 1].rev == fs[|fs| - 1].rev && r[|r| - 1].a2 == fs[|fs| - 1].a2
                         && r[|r| - 1].b2 == fs[|fs| - 1].b2
  {
    if |fs| <= 1 then fs else Cons(gaps, fs[0], fs[1], MergeRuns(gaps, fs[1..]))
  }

  /** Appends fixup `c`, which follows `last` in the input, to merged runs. */
  function Extend(gaps: seq<int>, m: seq<Fixup>, last: Fixup, c: Fixup): seq<Fixup>
    requires Sorted(gaps)
    requires m != []
  {
    if Joinable(gaps, last, c) then m[..|m| - 1] + [Span(m[|m| - 1], c)] else m + [c]
  }

  lemma ConsExtend(gaps: seq<int>, f: Fixup, next: Fixup, m: seq<Fixup>, last: Fixup, c: Fixup)
    requires Sorted(gaps)
    requires m != []
    ensures Cons(gaps, f, next, Extend(gaps, m, last, c)) == Extend(gaps, Cons(gaps, f, next, m), last, c)
  {
    var e := Extend(gaps, m, last, c);
    if Joinable(gaps, last, c) {
      if |m| > 1 {
        assert e[0] == m[0];
        assert e[1..] == m[1..|m| - 1] + [Span(m[|m| - 1], c)];
      }
    } else {
      assert e[0] == m[0] && e[1..] == m[1..] + [c];
    }
  }

  /** Appending a fixup to the input either extends the last run or opens
      a new one. */
  lemma {:induction false} MergeRunsSnoc(gaps: seq<int>, fs: seq<Fixup>, c: Fixup)
    requires Sorted(gaps)
    requires fs != []
    ensures MergeRuns(gaps, fs + [c]) == Extend(gaps, MergeRuns(gaps, fs), fs[|fs| - 1], c)
    decreases |fs|
  {
    var fc := fs + [c];
    if |fs| == 1 {
      assert fc[1..] == [c];
    } else {
      assert fc[1..] == fs[1..] + [c];
      assert fs[1..][|fs[1..]| - 1] == fs[|fs| - 1];
      MergeRunsSnoc(gaps, fs[1..], c);
      ConsExtend(gaps, fs[0], fs[1], MergeRuns(gaps, fs[1..]), fs[|fs| - 1], c);
    }
  }

  predicate NoPlaceholder(fs: seq<Fixup>) {
    forall f :: f in fs ==> f.rev != -1
  }

  lemma {:induction false} OptScanIsMergeRuns(gaps: seq<int>, fs: seq<Fixup>)
    requires Sorted(gaps)
    requires fs != [] && NoPlaceholder(fs)
    ensures var m := MergeRuns(gaps, fs);
      OptScan(gaps, fs) == OptState(m[..|m| - 1], m[|m| - 1])
    decreases |fs|
  {
    var init := fs[..|fs| - 1];
    var c := fs[|fs| - 1];
    assert fs == init + [c];
    if init == [] {
      assert !Joinable(gaps, Sentinel, c);
    } else {
      assert NoPlaceholder(init) by {
        assert forall f :: f in init ==> f in fs;
      }
      OptScanIsMergeRuns(gaps, init);
      MergeRunsSnoc(gaps, init, c);
      var mi := MergeRuns(gaps, init);
      OptStepExtends(gaps, mi, init[|init| - 1], c);
    }
  }

  /** One step of the loop, taken from the split of merged runs `m` into
      the pushed ones and the current one, extends `m` by `c`. */
  lemma OptStepExtends(gaps: seq<int>, m: seq<Fixup>, last: Fixup, c: Fixup)
    requires Sorted(gaps)
    requires m != [] && m[|m| - 1].rev != -1
    requires m[|m| - 1].rev == last.rev && m[|m| - 1].a2 == last.a2 && m[|m| - 1].b2 == last.b2
    ensures var e := Extend(gaps, m, last, c);
      OptStep(gaps, OptState(m[..|m| - 1], m[|m| - 1]), c) == OptState(e[..|e| - 1], e[|e| - 1])
  {
    var e := Extend(gaps, m, last, c);
    if Joinable(gaps, last, c) {
      assert Joinable(gaps, m[|m| - 1], c);
      assert e[..|e| - 1] == m[..|m| - 1];
    } else {
      assert !Joinable(gaps, m[|m| - 1], c);
      assert m[..|m| - 1] + [m[|m| - 1]] == m;
      assert e[..|e| - 1] == m;
    }
  }

  /** When no input carries the placeholder revision, the one-pass merge
      loop agrees with the run-by-run reference. */
  lemma OptimizeIsMergeRuns(gaps: seq<int>, fs: seq<Fixup>)
    requires Sorted(gaps)
    requires NoPlaceholder(fs)
    ensures Optimize(gaps, fs) == MergeRuns(gaps, fs)
  {
    if fs != [] {
      OptScanIsMergeRuns(gaps, fs);
      var m := MergeRuns(gaps, fs);
      assert m == m[..|m| - 1] + [m[|m| - 1]];
    }
  }

  /** `fs[p..q]` is a run: each fixup can be merged into the one before. */
  predicate IsRun(gaps: seq<int>, fs: seq<Fixup>, p: int, q: int)
    requires Sorted(gaps)
  {
    0 <= p <= q < |fs| && forall k :: p <= k < q ==> Joinable(gaps, fs[k], fs[k + 1])
  }

  /** Element `j` of the merge, in terms of the merge of the tail. */
  lemma MergeRunsAt(gaps: seq<int>, fs: seq<Fixup>, j: int)
    requires Sorted(gaps)
    requires |fs| > 1 && 0 <= j < |MergeRuns(gaps, fs)|
    ensures var rest := MergeRuns(gaps, fs[1..]);
      if Joinable(gaps, fs[0], fs[1]) then
        && |MergeRuns(gaps, fs)| == |rest|
        && MergeRuns(gaps, fs)[j] == if j == 0 then Span(fs[0], rest[0]) else rest[j]
      else
        && |MergeRuns(gaps, fs)| == |rest| + 1
        && MergeRuns(gaps, fs)[j] == if j == 0 then fs[0] else rest[j - 1]
  {
  }

  /** Each merged fixup spans a run of input fixups; the first merged fixup
      spans a run starting at the first input, the last one a run ending at
      the last input. */
  lemma {:induction false} MergeRunsElement(gaps: seq<int>, fs: seq<Fixup>, j: int) returns (p: int, q: int)
    requires Sorted(gaps)
    requires 0 <= j < |MergeRuns(gaps, fs)|
    ensures IsRun(gaps, fs, p, q)
    ensures MergeRuns(gaps, fs)[j] == Span(fs[p], fs[q])
    ensures j == 0 ==> p == 0
    ensures j == |MergeRuns(gaps, fs)| - 1 ==> q == |fs| - 1
    decreases |fs|
  {
    if |fs| == 1 {
      p, q := 0, 0;
      assert fs[0] == Span(fs[0], fs[0]);
    } else {
      MergeRunsAt(gaps, fs, j);
      var joined := Joinable(gaps, fs[0], fs[1]);
      if j == 0 && !joined {
        p, q := 0, 0;
        assert fs[0] == Span(fs[0], fs[0]);
      } else {
        var j1 := if joined then j else j - 1;
        var p1, q1 := MergeRunsElement(gaps, fs[1..], j1);
        RunShift(gaps, fs, p1, q1);
        p, q := if j == 0 then 0 else p1 + 1, q1 + 1;
      }
    }
  }

  /** A run of the tail is a run of the whole list, and it extends to the
      first fixup when that one can be merged into the second. */
  lemma RunShift(gaps: seq<int>, fs: seq<Fixup>, p1: int, q1: int)
    requires Sorted(gaps)
    requires |fs| > 1 && IsRun(gaps, fs[1..], p1, q1)
    ensures IsRun(gaps, fs, p1 + 1, q1 + 1)
    ensures p1 == 0 && Joinable(gaps, fs[0], fs[1]) ==> IsRun(gaps, fs, 0, q1 + 1)
    ensures fs[1..][p1] == fs[p1 + 1] && fs[1..][q1] == fs[q1 + 1]
  {
    forall k | p1 + 1 <= k < q1 + 1 ensures Joinable(gaps, fs[k], fs[k + 1]) {
      assert fs[k] == fs[1..][k - 1] && fs[k + 1] == fs[1..][k];
    }
  }

  /** Every input fixup lies in the run that some merged fixup spans; the
      first merged fixup's run starts at the first input. */
  lemma {:induction false} MergeRunsCovers(gaps: seq<int>, fs: seq<Fixup>, k: int) returns (j: int, p: int, q: int)
    requires Sorted(gaps)
    requires 0 <= k < |fs|
    ensures 0 <= j < |MergeRuns(gaps, fs)|
    ensures IsRun(gaps, fs, p, q) && p <= k <= q
    ensures MergeRuns(gaps, fs)[j] == Span(fs[p], fs[q])
    ensures j == 0 ==> p == 0
    decreases |fs|
  {
    if k == 0 {
      j := 0;
      p, q := MergeRunsElement(gaps, fs, 0);
    } else {
      var j1, p1, q1 := MergeRunsCovers(gaps, fs[1..], k - 1);
      RunShift(gaps, fs, p1, q1);
      var rest := MergeRuns(gaps, fs[1..]);
      if Joinable(gaps, fs[0], fs[1]) {
        assert |MergeRuns(gaps, fs)| == |rest|;
        MergeRunsAt(gaps, fs, j1);
        j := j1;
        p, q := if j1 == 0 then 0 else p1 + 1, q1 + 1;
      } else {
        assert |MergeRuns(gaps, fs)| == |rest| + 1;
        MergeRunsAt(gaps, fs, j1 + 1);
        j, p, q := j1 + 1, p1 + 1, q1 + 1;
      }
    }
  }

  /** Along a run every fixup carries the revision of the first one. */
  lemma {:induction false} RunRevision(gaps: seq<int>, fs: seq<Fixup>, p: int, q: int, k: int)
    requires Sorted(gaps)
    requires IsRun(gaps, fs, p, q) && p <= k <= q
    ensures fs[k].rev == fs[p].rev
    decreases k - p
  {
    if k > p {
      RunRevision(gaps, fs, p, q, k - 1);
    }
  }

  /** A line inside the span of a run of well-formed ranges lies inside one
      of the run's own ranges. */
  lemma {:induction false} RunCovers(gaps: seq<int>, fs: seq<Fixup>, p: int, q: int, x: int) returns (k: int)
    requires Sorted(gaps)
    requires IsRun(gaps, fs, p, q)
    requires fs[p].a1 <= x < fs[q].a2
    ensures p <= k <= q && fs[k].a1 <= x < fs[k].a2
    decreases q - p
  {
    if q == p {
      k := p;
    } else if x < fs[q].a1 {
      assert fs[q].a1 == fs[q - 1].a2;
      k := RunCovers(gaps, fs, p, q - 1, x);
    } else {
      k := q;
    }
  }

  /** Along a run of well-formed ranges, a fixup starts no earlier than the
      run's first one and ends no later than its last one. */
  lemma {:induction false} RunStartsBefore(gaps: seq<int>, fs: seq<Fixup>, p: int, q: int, k: int)
    requires Sorted(gaps)
    requires IsRun(gaps, fs, p, q) && p <= k <= q
    requires forall m :: p <= m <= q ==> fs[m].a1 <= fs[m].a2
    ensures fs[p].a1 <= fs[k].a1
    decreases k - p
  {
    if k > p {
      RunStartsBefore(gaps, fs, p, q, k - 1);
      assert Joinable(gaps, fs[k - 1], fs[k]);
    }
  }

  lemma {:induction false} RunEndsAfter(gaps: seq<int>, fs: seq<Fixup>, p: int, q: int, k: int)
    requires Sorted(gaps)
    requires IsRun(gaps, fs, p, q) && p <= k <= q
    requires forall m :: p <= m <= q ==> fs[m].a1 <= fs[m].a2
    ensures fs[k].a2 <= fs[q].a2
    decreases q - k
  {
    if k < q {
      RunEndsAfter(gaps, fs, p, q, k + 1);
      assert Joinable(gaps, fs[k], fs[k + 1]);
    }
  }

  /** No two neighbouring fixups can be merged (`_iscontinuous` included). */
  predicate Maximal(gaps: seq<int>, fs: seq<Fixup>)
    requires Sorted(gaps)
  {
    forall j :: 0 <= j < |fs| - 1 ==> !Joinable(gaps, fs[j], fs[j + 1])
  }

  /** Merged runs are maximal: no merged fixup could absorb the next one. */
  lemma {:induction false} MergeRunsMaximal(gaps: seq<int>, fs: seq<Fixup>)
    requires Sorted(gaps)
    ensures Maximal(gaps, MergeRuns(gaps, fs))
    decreases |fs|
  {
    if |fs| > 1 {
      MergeRunsMaximal(gaps, fs[1..]);
      var rest := MergeRuns(gaps, fs[1..]);
      var r := MergeRuns(gaps, fs);
      if Joinable(gaps, fs[0], fs[1]) {
        if |rest| > 1 {
          assert Joinable(gaps, r[0], r[1]) == Joinable(gaps, rest[0], rest[1]);
        }
        forall j | 1 <= j < |r| - 1 ensures !Joinable(gaps, r[j], r[j + 1]) {
          assert r[j] == rest[j] && r[j + 1] == rest[j + 1];
        }
      } else {
        assert Joinable(gaps, r[0], r[1]) == Joinable(gaps, fs[0], fs[1]);
        forall j | 1 <= j < |r| - 1 ensures !Joinable(gaps, r[j], r[j + 1]) {
          assert r[j] == rest[j - 1] && r[j + 1] == rest[j];
        }
      }
    }
  }

  /** A list that is already maximal is left unchanged. */
  lemma {:induction false} MergeRunsOfMaximal(gaps: seq<int>, fs: seq<Fixup>)
    requires Sorted(gaps)
    requires Maximal(gaps, fs)
    ensures MergeRuns(gaps, fs) == fs
    decreases |fs|
  {
    if |fs| > 1 {
      assert Maximal(gaps, fs[1..]) by {
        forall j | 0 <= j < |fs[1..]| - 1 ensures !Joinable(gaps, fs[1..][j], fs[1..][j + 1]) {
          assert fs[1..][j] == fs[j + 1] && fs[1..][j + 1] == fs[j + 2];
        }
      }
      MergeRunsOfMaximal(gaps, fs[1..]);
      assert !Joinable(gaps, fs[0], fs[1]);
      assert fs == [fs[0]] + fs[1..];
    }
  }

  /** `_optimizefixups` is idempotent, and its result is maximal. */
  lemma OptimizeIdempotent(gaps: seq<int>, fs: seq<Fixup>)
    requires Sorted(gaps)
    requires NoPlaceholder(fs)
    ensures Maximal(gaps, Optimize(gaps, fs))
    ensures Optimize(gaps, Optimize(gaps, fs)) == Optimize(gaps, fs)
  {
    OptimizeIsMergeRuns(gaps, fs);
    OptimizeBounded(gaps, fs);
    var m := MergeRuns(gaps, fs);
    MergeRunsMaximal(gaps, fs);
    OptimizeIsMergeRuns(gaps, m);
    MergeRunsOfMaximal(gaps, m);
  }

  /** Total number of old lines the fixups replace. */
  function ALines(fs: seq<Fixup>): int {
    if fs == [] then 0 else (fs[0].a2 - fs[0].a1) + ALines(fs[1..])
  }

  /** Total number of target lines the fixups insert. */
  function BLines(fs: seq<Fixup>): int {
    if fs == [] then 0 else (fs[0].b2 - fs[0].b1) + BLines(fs[1..])
  }

  /** Merging only joins touching ranges: as many old lines are replaced and
      as many target lines inserted as before. */
  lemma {:induction false} MergeRunsKeepsLines(gaps: seq<int>, fs: seq<Fixup>)
    requires Sorted(gaps)
    ensures ALines(MergeRuns(gaps, fs)) == ALines(fs)
    ensures BLines(MergeRuns(gaps, fs)) == BLines(fs)
    decreases |fs|
  {
    if |fs| > 1 {
      MergeRunsKeepsLines(gaps, fs[1..]);
      var rest := MergeRuns(gaps, fs[1..]);
      assert fs[1..][0] == fs[1];
      if Joinable(gaps, fs[0], fs[1]) {
        var r := [Span(fs[0], rest[0])] + rest[1..];
        assert r[1..] == rest[1..];
        assert ALines(rest) == (rest[0].a2 - rest[0].a1) + ALines(rest[1..]);
        assert BLines(rest) == (rest[0].b2 - rest[0].b1) + BLines(rest[1..]);
      } else {
        assert ([fs[0]] + rest)[1..] == rest;
      }
    }
  }

  // ----- _analysediffchunk -----

  /** The revision of annotation entry `i` when it is not a line of the
      immutable first content (linelog revision 1). */
  function NearbyRev(annotated: seq<LineInfo>, i: int): set<nat>
    requires 0 <= i < |annotated|
  {
    if annotated[i].rev != 1 then {annotated[i].rev} else {}
  }

  /** The revisions the hunk touches: those of lines `a1..a2`, or, for a
      pure insertion, those of the neighbours `a2` and `max(0, a1 - 1)`
      other than revision 1. */
  function InvolvedRevs(annotated: seq<LineInfo>, h: Hunk): set<nat>
    requires ValidHunk(h, |annotated|)
  {
    if h.a1 < h.a2 then set i | h.a1 <= i < h.a2 :: annotated[i].rev
    else NearbyRev(annotated, h.a2) + NearbyRev(annotated, Max(0, h.a1 - 1))
  }

  /** The revision of the first involved line. */
  function FirstInvolvedRev(annotated: seq<LineInfo>, h: Hunk): nat
    requires ValidHunk(h, |annotated|)
  {
    if h.a1 < h.a2 then annotated[h.a1].rev
    else if annotated[h.a2].rev != 1 then annotated[h.a2].rev
    else annotated[Max(0, h.a1 - 1)].rev
  }

  /** When exactly one revision is involved, it is that of the first
      involved line. */
  lemma SingleInvolvedRev(annotated: seq<LineInfo>, h: Hunk)
    requires ValidHunk(h, |annotated|)
    requires |InvolvedRevs(annotated, h)| == 1
    ensures InvolvedRevs(annotated, h) == {FirstInvolvedRev(annotated, h)}
  {
    var revs := InvolvedRevs(annotated, h);
    var r := FirstInvolvedRev(annotated, h);
    assert r in revs;
    assert |revs - {r}| == 0;
  }

  /** The per-line fixup for line `i`: a 1:1 mapping to target line
      `b1 + i - a1`, or, when the hunk deletes, the empty range `0..0`. */
  function LineFixup(annotated: seq<LineInfo>, h: Hunk, i: int): Fixup
    requires ValidHunk(h, |annotated|) && h.a1 <= i < h.a2
  {
    var nb1 := if h.b1 == h.b2 then 0 else h.b1 + i - h.a1;
    var nb2 := if h.b1 == h.b2 then 0 else nb1 + 1;
    Fixup(annotated[i].rev + 1, i, i + 1, nb1, nb2)
  }

  /** The per-line fixups for lines `a1..end` not owned by revision 1. */
  function PerLineFixups(annotated: seq<LineInfo>, h: Hunk, end: int): seq<Fixup>
    requires ValidHunk(h, |annotated|) && h.a1 <= end <= h.a2
    decreases end - h.a1
  {
    if end == h.a1 then []
    else
      PerLineFixups(annotated, h, end - 1)
        + (if annotated[end - 1].rev > 1 then [LineFixup(annotated, h, end - 1)] else [])
  }

  /** The fixups `_analysediffchunk` finds before merging. */
  function RawFixups(annotated: seq<LineInfo>, gaps: seq<int>, h: Hunk): seq<Fixup>
    requires ValidHunk(h, |annotated|) && Sorted(gaps)
  {
    if |InvolvedRevs(annotated, h)| == 1 && IsContinuous(gaps, h.a1, h.a2 - 1) then
      var rev := FirstInvolvedRev(annotated, h);
      if rev > 1 then [Fixup(rev + 1, h.a1, h.a2, h.b1, h.b2)] else []
    else if h.a2 - h.a1 == h.b2 - h.b1 || h.b1 == h.b2 then
      PerLineFixups(annotated, h, h.a2)
    else
      []
  }

  /** The fixups `_analysediffchunk` returns. */
  function Analyse(annotated: seq<LineInfo>, gaps: seq<int>, h: Hunk): seq<Fixup>
    requires ValidHunk(h, |annotated|) && Sorted(gaps)
  {
    Optimize(gaps, RawFixups(annotated, gaps, h))
  }

  /** `_analysediffchunk`. */
  method AnalyseDiffChunk(annotated: seq<LineInfo>, gaps: seq<int>, h: Hunk) returns (fixups: seq<Fixup>)
    requires ValidHunk(h, |annotated|) && Sorted(gaps)
    ensures fixups == Analyse(annotated, gaps, h)
  {
    var involvedRevs := InvolvedRevs(annotated, h);
    var newFixups: seq<Fixup> := [];
    if |involvedRevs| == 1 && IsContinuous(gaps, h.a1, h.a2 - 1) {
      var rev :| rev in involvedRevs;
      SingleInvolvedRev(annotated, h);
      if rev > 1 {
        newFixups := newFixups + [Fixup(rev + 1, h.a1, h.a2, h.b1, h.b2)];
      }
    } else if h.a2 - h.a1 == h.b2 - h.b1 || h.b1 == h.b2 {
      for i := h.a1 to h.a2
        invariant newFixups == PerLineFixups(annotated, h, i)
      {
        var rev := annotated[i].rev;
        if rev > 1 {
          var nb1, nb2;
          if h.b1 == h.b2 {
            nb1, nb2 := 0, 0;
          } else {
            nb1 := h.b1 + i - h.a1;
            nb2 := nb1 + 1;
          }
          newFixups := newFixups + [Fixup(rev + 1, i, i + 1, nb1, nb2)];
        }
      }
    }
    fixups := OptimizeFixups(gaps, newFixups);
  }

  /** The per-line fixups are unit ranges inside the hunk, in line order,
      each carrying the revision after its line's own, which is never 1. */
  lemma {:induction false} PerLineFixupsShape(annotated: seq<LineInfo>, h: Hunk, end: int)
    requires ValidHunk(h, |annotated|) && h.a1 <= end <= h.a2
    ensures var fs := PerLineFixups(annotated, h, end);
      && |fs| <= end - h.a1
      && NoPlaceholder(fs)
      && (forall k :: 0 <= k < |fs| ==>
           && h.a1 <= fs[k].a1 < end
           && fs[k].rev > 2
           && fs[k] == LineFixup(annotated, h, fs[k].a1))
      && (forall k, k' :: 0 <= k < k' < |fs| ==> fs[k].a1 < fs[k'].a1)
    decreases end - h.a1
  {
    if end > h.a1 {
      PerLineFixupsShape(annotated, h, end - 1);
    }
  }

  /** Every line of the hunk up to `end` not owned by revision 0 or 1 has
      its per-line fixup. */
  lemma {:induction false} PerLineFixupsHas(annotated: seq<LineInfo>, h: Hunk, end: int, i: int) returns (k: int)
    requires ValidHunk(h, |annotated|) && h.a1 <= i < end <= h.a2
    requires annotated[i].rev > 1
    ensures 0 <= k < |PerLineFixups(annotated, h, end)|
    ensures PerLineFixups(annotated, h, end)[k] == LineFixup(annotated, h, i)
    decreases end - h.a1
  {
    var init := PerLineFixups(annotated, h, end - 1);
    if i == end - 1 {
      k := |init|;
    } else {
      k := PerLineFixupsHas(annotated, h, end - 1, i);
    }
  }

  /** Every line of the hunk that is not a line of revision 0 or 1 lies in
      a fixup of `r` attributed to that line's revision. */
  ghost predicate CoversLines(annotated: seq<LineInfo>, h: Hunk, r: seq<Fixup>)
    requires ValidHunk(h, |annotated|)
  {
    forall i :: h.a1 <= i < h.a2 && annotated[i].rev > 1 ==>
      exists f :: f in r && f.a1 <= i < f.a2 && f.rev == annotated[i].rev + 1
  }

  /** Fixup `f` is a valid outcome of the per-line path for hunk `h`: a
      range inside the hunk whose lines all belong to revision `rev - 1`
      (never revision 1), mapped line for line to the target, or deleted
      (target range `0..0`) when the hunk deletes. */
  ghost predicate PerLineOutcome(annotated: seq<LineInfo>, h: Hunk, f: Fixup)
    requires ValidHunk(h, |annotated|)
  {
    && h.a1 <= f.a1 < f.a2 <= h.a2
    && f.rev > 2
    && (forall x :: f.a1 <= x < f.a2 ==> annotated[x].rev == f.rev - 1)
    && (h.b1 == h.b2 ==> f.b1 == 0 && f.b2 == 0)
    && (h.b1 != h.b2 ==> f.b1 == h.b1 + (f.a1 - h.a1) && f.b2 == h.b1 + (f.a2 - h.a1))
  }

  /** The fields of the per-line fixup for line `i`. */
  lemma LineFixupFields(annotated: seq<LineInfo>, h: Hunk, i: int)
    requires ValidHunk(h, |annotated|) && h.a1 <= i < h.a2
    ensures var f := LineFixup(annotated, h, i);
      && f.rev == annotated[i].rev + 1 && f.a1 == i && f.a2 == i + 1
      && (h.b1 == h.b2 ==> f.b1 == 0 && f.b2 == 0)
      && (h.b1 != h.b2 ==> f.b1 == h.b1 + (i - h.a1) && f.b2 == f.b1 + 1)
  {
  }

  /** Every line in the span of a run of per-line fixups belongs to the
      revision before the run's fixup revision. */
  lemma RunLinesBelong(annotated: seq<LineInfo>, gaps: seq<int>, h: Hunk, raw: seq<Fixup>, p: int, q: int)
    requires ValidHunk(h, |annotated|) && Sorted(gaps) && IsRun(gaps, raw, p, q)
    requires forall k :: p <= k <= q ==> h.a1 <= raw[k].a1 < h.a2 && raw[k] == LineFixup(annotated, h, raw[k].a1)
    ensures forall x :: raw[p].a1 <= x < raw[q].a2 ==> 0 <= x < |annotated| && annotated[x].rev == raw[p].rev - 1
  {
    forall x | raw[p].a1 <= x < raw[q].a2 ensures 0 <= x < |annotated| && annotated[x].rev == raw[p].rev - 1 {
      var k := RunCovers(gaps, raw, p, q, x);
      RunRevision(gaps, raw, p, q, k);
      LineFixupFields(annotated, h, raw[k].a1);
    }
  }

  /** A merged per-line fixup is a valid outcome of the per-line path. */
  lemma MergedPerLineFixup(annotated: seq<LineInfo>, gaps: seq<int>, h: Hunk, j: int)
    requires ValidHunk(h, |annotated|) && Sorted(gaps)
    requires 0 <= j < |MergeRuns(gaps, PerLineFixups(annotated, h, h.a2))|
    ensures PerLineOutcome(annotated, h, MergeRuns(gaps, PerLineFixups(annotated, h, h.a2))[j])
  {
    var raw := PerLineFixups(annotated, h, h.a2);
    PerLineFixupsShape(annotated, h, h.a2);
    var p, q := MergeRunsElement(gaps, raw, j);
    RunLinesBelong(annotated, gaps, h, raw, p, q);
    var first, last := raw[p], raw[q];
    LineFixupFields(annotated, h, first.a1);
    LineFixupFields(annotated, h, last.a1);
    assert first.a1 <= last.a1;
    RunRevision(gaps, raw, p, q, q);
  }

  /** Merging leaves a list of at most one fixup as it is. */
  lemma OptimizeShort(gaps: seq<int>, fs: seq<Fixup>)
    requires Sorted(gaps)
    requires |fs| <= 1 && NoPlaceholder(fs)
    ensures Optimize(gaps, fs) == fs
  {
    if fs != [] {
      assert fs[..0] == [];
      assert !Joinable(gaps, Sentinel, fs[0]);
      assert OptScan(gaps, fs) == OptState([], fs[0]);
    }
  }

  /** The single-revision path: the hunk goes, whole, to the one involved
      revision when the lines are continuous and that revision is not the
      immutable first one; otherwise nothing is returned. */
  lemma AnalyseSingleRevision(annotated: seq<LineInfo>, gaps: seq<int>, h: Hunk)
    requires ValidHunk(h, |annotated|) && Sorted(gaps)
    requires |InvolvedRevs(annotated, h)| == 1 && IsContinuous(gaps, h.a1, h.a2 - 1)
    ensures var rev := FirstInvolvedRev(annotated, h);
      Analyse(annotated, gaps, h) == if rev > 1 then [Fixup(rev + 1, h.a1, h.a2, h.b1, h.b2)] else []
    ensures var r := Analyse(annotated, gaps, h);
      && |r| <= 1
      && (forall f :: f in r ==> f.a1 == h.a1 && f.a2 == h.a2 && f.b1 == h.b1 && f.b2 == h.b2)
      && (forall f :: f in r ==> f.rev > 2 && InvolvedRevs(annotated, h) == {f.rev - 1})
  {
    var raw := RawFixups(annotated, gaps, h);
    SingleInvolvedRev(annotated, h);
    OptimizeShort(gaps, raw);
  }

  /** A line of the hunk owned by a revision after the first lies in a
      merged per-line fixup attributed to that revision. */
  lemma MergedPerLineCovers(annotated: seq<LineInfo>, gaps: seq<int>, h: Hunk, i: int) returns (j: int)
    requires ValidHunk(h, |annotated|) && Sorted(gaps)
    requires h.a1 <= i < h.a2 && annotated[i].rev > 1
    ensures var r := MergeRuns(gaps, PerLineFixups(annotated, h, h.a2));
      0 <= j < |r| && r[j].a1 <= i < r[j].a2 && r[j].rev == annotated[i].rev + 1
  {
    var raw := PerLineFixups(annotated, h, h.a2);
    PerLineFixupsShape(annotated, h, h.a2);
    var k := PerLineFixupsHas(annotated, h, h.a2, i);
    var p, q;
    j, p, q := MergeRunsCovers(gaps, raw, k);
    forall m | p <= m <= q ensures raw[m].a1 <= raw[m].a2 {
      LineFixupFields(annotated, h, raw[m].a1);
    }
    LineFixupFields(annotated, h, i);
    RunRevision(gaps, raw, p, q, k);
    RunStartsBefore(gaps, raw, p, q, k);
    RunEndsAfter(gaps, raw, p, q, k);
  }

  /** On the per-line path, every merged fixup is a valid outcome. */
  lemma PerLineSound(annotated: seq<LineInfo>, gaps: seq<int>, h: Hunk)
    requires ValidHunk(h, |annotated|) && Sorted(gaps)
    requires !(|InvolvedRevs(annotated, h)| == 1 && IsContinuous(gaps, h.a1, h.a2 - 1))
    requires h.a2 - h.a1 == h.b2 - h.b1 || h.b1 == h.b2
    ensures Analyse(annotated, gaps, h) == MergeRuns(gaps, PerLineFixups(annotated, h, h.a2))
    ensures |Analyse(annotated, gaps, h)| <= h.a2 - h.a1
    ensures forall f :: f in Analyse(annotated, gaps, h) ==> PerLineOutcome(annotated, h, f)
  {
    var raw := PerLineFixups(annotated, h, h.a2);
    assert RawFixups(annotated, gaps, h) == raw;
    PerLineFixupsShape(annotated, h, h.a2);
    OptimizeIsMergeRuns(gaps, raw);
    var r := MergeRuns(gaps, raw);
    forall j | 0 <= j < |r| ensures PerLineOutcome(annotated, h, r[j]) {
      MergedPerLineFixup(annotated, gaps, h, j);
    }
  }

  /** The per-line path: every merged fixup is a range inside the hunk of
      lines of revision `rev - 1`, mapped line for line, or deleted when the
      hunk deletes; and every line of the hunk of a revision after the
      first lies in one of them. */
  lemma AnalysePerLine(annotated: seq<LineInfo>, gaps: seq<int>, h: Hunk)
    requires ValidHunk(h, |annotated|) && Sorted(gaps)
    requires !(|InvolvedRevs(annotated, h)| == 1 && IsContinuous(gaps, h.a1, h.a2 - 1))
    requires h.a2 - h.a1 == h.b2 - h.b1 || h.b1 == h.b2
    ensures |Analyse(annotated, gaps, h)| <= h.a2 - h.a1
    ensures forall f :: f in Analyse(annotated, gaps, h) ==> PerLineOutcome(annotated, h, f)
    ensures CoversLines(annotated, h, Analyse(annotated, gaps, h))
  {
    PerLineSound(annotated, gaps, h);
    var r := Analyse(annotated, gaps, h);
    forall i | h.a1 <= i < h.a2 && annotated[i].rev > 1
      ensures exists f :: f in r && f.a1 <= i < f.a2 && f.rev == annotated[i].rev + 1
    {
      var j := MergedPerLineCovers(annotated, gaps, h, i);
      assert r[j] in r;
    }
  }

  /** Every fixup `_analysediffchunk` returns is attributed to a revision
      after the immutable first one (`rev - 1 > 1`) that the hunk involves,
      and every line it replaces is a line of that very revision: a line of
      linelog revision 1 is never rewritten. */
  ghost predicate Attributed(annotated: seq<LineInfo>, h: Hunk, r: seq<Fixup>)
    requires ValidHunk(h, |annotated|)
  {
    && (forall f :: f in r ==> f.rev > 2 && (f.rev - 1) in InvolvedRevs(annotated, h))
    && (forall f, x :: f in r && f.a1 <= x < f.a2 ==> 0 <= x < |annotated| && annotated[x].rev == f.rev - 1)
  }

  lemma AttributionSingle(annotated: seq<LineInfo>, gaps: seq<int>, h: Hunk)
    requires ValidHunk(h, |annotated|) && Sorted(gaps)
    requires |InvolvedRevs(annotated, h)| == 1 && IsContinuous(gaps, h.a1, h.a2 - 1)
    ensures Attributed(annotated, h, Analyse(annotated, gaps, h))
  {
    var r := Analyse(annotated, gaps, h);
    var revs := InvolvedRevs(annotated, h);
    AnalyseSingleRevision(annotated, gaps, h);
    forall f, x | f in r && f.a1 <= x < f.a2 ensures annotated[x].rev == f.rev - 1 {
      assert annotated[x].rev in revs;
    }
  }

  lemma AttributionPerLine(annotated: seq<LineInfo>, gaps: seq<int>, h: Hunk)
    requires ValidHunk(h, |annotated|) && Sorted(gaps)
    requires !(|InvolvedRevs(annotated, h)| == 1 && IsContinuous(gaps, h.a1, h.a2 - 1))
    requires h.a2 - h.a1 == h.b2 - h.b1 || h.b1 == h.b2
    ensures Attributed(annotated, h, Analyse(annotated, gaps, h))
  {
    var r := Analyse(annotated, gaps, h);
    var revs := InvolvedRevs(annotated, h);
    PerLineSound(annotated, gaps, h);
    forall f | f in r ensures (f.rev - 1) in revs {
      assert annotated[f.a1].rev in revs;
    }
  }

  lemma AnalyseAttribution(annotated: seq<LineInfo>, gaps: seq<int>, h: Hunk)
    requires ValidHunk(h, |annotated|) && Sorted(gaps)
    ensures Attributed(annotated, h, Analyse(annotated, gaps, h))
  {
    if |InvolvedRevs(annotated, h)| == 1 && IsContinuous(gaps, h.a1, h.a2 - 1) {
      AttributionSingle(annotated, gaps, h);
    } else if h.a2 - h.a1 == h.b2 - h.b1 || h.b1 == h.b2 {
      AttributionPerLine(annotated, gaps, h);
    } else {
      assert RawFixups(annotated, gaps, h) == [];
      OptimizeShort(gaps, []);
    }
  }

  /** The three outcomes of `_analysediffchunk`. A single, continuous
      involved revision after the first yields exactly one fixup carrying
      the hunk itself, and revision 0 or 1 yields nothing. Otherwise a pure
      deletion yields fixups inside the hunk that delete (target range
      `0..0`); a hunk of equal lengths yields fixups inside the hunk that
      map line `i` to target line `b1 + i - a1`; in both, every line of a
      revision after the first lies in one of them. Any other hunk yields
      nothing. */
  lemma AnalyseOutcomes(annotated: seq<LineInfo>, gaps: seq<int>, h: Hunk)
    requires ValidHunk(h, |annotated|) && Sorted(gaps)
    ensures var r := Analyse(annotated, gaps, h);
      if |InvolvedRevs(annotated, h)| == 1 && IsContinuous(gaps, h.a1, h.a2 - 1) then
        var rev := FirstInvolvedRev(annotated, h);
        r == if rev > 1 then [Fixup(rev + 1, h.a1, h.a2, h.b1, h.b2)] else []
      else if h.b1 == h.b2 then
        && |r| <= h.a2 - h.a1
        && (forall f :: f in r ==> (h.a1 <= f.a1 < f.a2 <= h.a2 && f.b1 == 0 && f.b2 == 0))
        && CoversLines(annotated, h, r)
      else if h.a2 - h.a1 == h.b2 - h.b1 then
        && |r| <= h.a2 - h.a1
        && (forall f :: f in r ==>
             (h.a1 <= f.a1 < f.a2 <= h.a2 && f.b1 == h.b1 + (f.a1 - h.a1) && f.b2 == h.b1 + (f.a2 - h.a1)))
        && CoversLines(annotated, h, r)
      else
        r == []
  {
    if |InvolvedRevs(annotated, h)| == 1 && IsContinuous(gaps, h.a1, h.a2 - 1) {
      AnalyseSingleRevision(annotated, gaps, h);
    } else if h.b1 == h.b2 || h.a2 - h.a1 == h.b2 - h.b1 {
      AnalysePerLine(annotated, gaps, h);
    } else {
      assert RawFixups(annotated, gaps, h) == [];
      OptimizeShort(gaps, []);
    }
  }
}
