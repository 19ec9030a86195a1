/** Sorted lists of free runs: what allocation, return and merging do to the bytes they cover. */
module FreeRuns {
  import opened Prelude
  import opened FreeLists

  ghost predicate InRun(e: Entry, a: nat) {
    e.Usable? && e.start <= a < e.End()
  }

  /** Byte `a` is free. */
  ghost predicate Free(runs: seq<Entry>, a: nat) {
    exists i :: 0 <= i < |runs| && InRun(runs[i], a)
  }

  /** Ascending and disjoint. */
  predicate Sorted(runs: seq<Entry>) {
    AllRuns(runs) && forall i, j :: 0 <= i < j < |runs| ==> runs[i].End() <= runs[j].start
  }

  /** No two neighbours could be one run. */
  ghost predicate Coalesced(runs: seq<Entry>)
    requires Sorted(runs)
  {
    forall i :: 0 <= i < |runs| - 1 ==> runs[i].End() != runs[i + 1].start
  }

  ghost predicate Disjoint(runs: seq<Entry>, r: Entry) {
    forall a :: InRun(r, a) ==> !Free(runs, a)
  }

  ghost predicate SameFree(before: seq<Entry>, after: seq<Entry>) {
    forall a :: Free(after, a) <==> Free(before, a)
  }

  ghost predicate FreePlus(before: seq<Entry>, after: seq<Entry>, r: Entry) {
    forall a :: Free(after, a) <==> Free(before, a) || InRun(r, a)
  }

  ghost predicate FreeMinus(before: seq<Entry>, after: seq<Entry>, r: Entry) {
    forall a :: Free(after, a) <==> Free(before, a) && !InRun(r, a)
  }

  lemma FreeAt(runs: seq<Entry>, i: nat, a: nat)
    requires i < |runs| && InRun(runs[i], a)
    ensures Free(runs, a)
  {
  }

  lemma {:induction false} FreeJoin(x: seq<Entry>, y: seq<Entry>)
    ensures forall a :: Free(x + y, a) <==> Free(x, a) || Free(y, a)
  {
    hide InRun;
    forall a
      ensures Free(x + y, a) <==> Free(x, a) || Free(y, a)
    {
      if Free(x, a) {
        var i :| 0 <= i < |x| && InRun(x[i], a);
        assert (x + y)[i] == x[i];
      } else if Free(y, a) {
        var i :| 0 <= i < |y| && InRun(y[i], a);
        assert (x + y)[|x| + i] == y[i];
      }
    }
  }

  lemma FreeOne(e: Entry)
    ensures forall a :: Free([e], a) <==> InRun(e, a)
  {
    forall a
      ensures Free([e], a) <==> InRun(e, a)
    {
      if InRun(e, a) {
        assert [e][0] == e;
      }
    }
  }

  /** The bytes of a list cut at `i`. */
  lemma FreeCut(runs: seq<Entry>, i: nat)
    requires i < |runs|
    ensures forall a :: Free(runs, a) <==> Free(runs[..i], a) || InRun(runs[i], a) || Free(runs[i + 1..], a)
  {
    hide Free, InRun;
    assert runs == runs[..i] + ([runs[i]] + runs[i + 1..]);
    FreeJoin(runs[..i], [runs[i]] + runs[i + 1..]);
    FreeJoin([runs[i]], runs[i + 1..]);
    FreeOne(runs[i]);
  }

  // ---------------------------------------------------------------- merging

  function MergedAt(runs: seq<Entry>, i: nat): seq<Entry>
    requires i + 1 < |runs| && runs[i].Usable? && runs[i + 1].Usable?
  {
    RemoveAt(runs[i := Usable(runs[i].start, runs[i].pages + runs[i + 1].pages)], i + 1)
  }

  lemma MergeBytes(e: Entry, f: Entry, a: nat)
    requires IsRun(e) && IsRun(f) && e.End() == f.start
    ensures InRun(Usable(e.start, e.pages + f.pages), a) <==> InRun(e, a) || InRun(f, a)
    ensures Usable(e.start, e.pages + f.pages).End() == f.End()
  {
  }

  /** Merging two touching neighbours keeps the bytes and the order. */
  lemma MergeKeeps(runs: seq<Entry>, i: nat)
    requires Sorted(runs) && i + 1 < |runs| && runs[i].End() == runs[i + 1].start
    ensures Sorted(MergedAt(runs, i)) && SameFree(runs, MergedAt(runs, i))
  {
    var merged := MergedAt(runs, i);
    var e, f := runs[i], runs[i + 1];
    var whole := Usable(e.start, e.pages + f.pages);
    var left, right := runs[..i], runs[i + 2..];
    MergeBytes(e, f, e.start);
    assert merged == left + ([whole] + right) && runs == left + ([e] + ([f] + right));
    MergeSorted(runs, i);
    MergeFree(left, e, f, right);
  }

  lemma MergeSorted(runs: seq<Entry>, i: nat)
    requires Sorted(runs) && i + 1 < |runs| && runs[i].End() == runs[i + 1].start
    ensures Sorted(MergedAt(runs, i))
  {
    var merged := MergedAt(runs, i);
    var e, f := runs[i], runs[i + 1];
    MergeBytes(e, f, e.start);
    forall k | 0 <= k < |merged|
      ensures IsRun(merged[k])
      ensures merged[k].start == runs[if k <= i then k else k + 1].start
      ensures merged[k].End() == runs[if k < i then k else k + 1].End()
    {
    }
  }

  lemma MergeFree(left: seq<Entry>, e: Entry, f: Entry, right: seq<Entry>)
    requires IsRun(e) && IsRun(f) && e.End() == f.start
    ensures SameFree(left + ([e] + ([f] + right)), left + ([Usable(e.start, e.pages + f.pages)] + right))
  {
    hide Free, InRun;
    var whole := Usable(e.start, e.pages + f.pages);
    FreeJoin(left, [e] + ([f] + right));
    FreeJoin([e], [f] + right);
    FreeJoin([f], right);
    FreeJoin(left, [whole] + right);
    FreeJoin([whole], right);
    FreeOne(e);
    FreeOne(f);
    FreeOne(whole);
    forall a
      ensures InRun(whole, a) <==> InRun(e, a) || InRun(f, a)
    {
      MergeBytes(e, f, a);
    }
  }

  // ---------------------------------------------------------------- returning a run

  lemma NotDisjoint(runs: seq<Entry>, r: Entry, k: nat, a: nat)
    requires k < |runs| && InRun(runs[k], a) && InRun(r, a)
    ensures !Disjoint(runs, r)
  {
    FreeAt(runs, k, a);
  }

  lemma RoomBetween(runs: seq<Entry>, r: Entry)
    requires Sorted(runs) && IsRun(r) && Disjoint(runs, r)
    ensures forall k :: 0 <= k < PlaceIn(runs, r.start) ==> runs[k].End() <= r.start
    ensures forall k :: PlaceIn(runs, r.start) <= k < |runs| ==> r.End() <= runs[k].start
  {
    hide PlaceIn, Disjoint;
    var i := PlaceIn(runs, r.start);
    forall k | 0 <= k < i
      ensures runs[k].End() <= r.start
    {
      if r.start < runs[k].End() {
        NotDisjoint(runs, r, k, r.start);
      }
    }
    forall k | i <= k < |runs|
      ensures r.End() <= runs[k].start
    {
      assert r.start <= runs[k].start;
      if runs[k].start < r.End() {
        NotDisjoint(runs, r, k, runs[k].start);
      }
    }
  }

  lemma InsertKeeps(runs: seq<Entry>, r: Entry)
    requires Sorted(runs) && IsRun(r) && Disjoint(runs, r)
    ensures var after := InsertAt(runs, PlaceIn(runs, r.start), r);
      Sorted(after) && FreePlus(runs, after, r)
  {
    hide PlaceIn, Disjoint;
    var i := PlaceIn(runs, r.start);
    RoomBetween(runs, r);
    var after := InsertAt(runs, i, r);
    forall k | 0 <= k < |after|
      ensures after[k] == if k < i then runs[k] else if k == i then r else runs[k - 1]
    {
    }
    InsertFree(runs, r, i);
  }

  lemma InsertFree(runs: seq<Entry>, r: Entry, i: nat)
    requires i <= |runs|
    ensures FreePlus(runs, InsertAt(runs, i, r), r)
  {
    hide Free, InRun;
    assert InsertAt(runs, i, r) == runs[..i] + ([r] + runs[i..]) && runs == runs[..i] + runs[i..];
    FreeJoin(runs[..i], [r] + runs[i..]);
    FreeJoin([r], runs[i..]);
    FreeJoin(runs[..i], runs[i..]);
    FreeOne(r);
  }

  /** Adding to the front of the entry that starts where `r` ends. */
  lemma GrowKeeps(runs: seq<Entry>, r: Entry)
    requires Sorted(runs) && IsRun(r) && Disjoint(runs, r)
    requires PlaceIn(runs, r.start) < |runs| && runs[PlaceIn(runs, r.start)].start == r.End()
    ensures var i := PlaceIn(runs, r.start);
      && var after := runs[i := Usable(r.start, runs[i].pages + r.pages)];
      Sorted(after) && FreePlus(runs, after, r)
  {
    hide PlaceIn, Disjoint;
    var i := PlaceIn(runs, r.start);
    RoomBetween(runs, r);
    var whole := Usable(r.start, runs[i].pages + r.pages);
    MergeBytes(r, runs[i], 0);
    assert whole == Usable(r.start, r.pages + runs[i].pages);
    GrowFree(runs, r, i);
  }

  lemma GrowFree(runs: seq<Entry>, r: Entry, i: nat)
    requires i < |runs| && IsRun(r) && IsRun(runs[i]) && runs[i].start == r.End()
    ensures FreePlus(runs, runs[i := Usable(r.start, runs[i].pages + r.pages)], r)
  {
    hide Free, InRun;
    var whole := Usable(r.start, runs[i].pages + r.pages);
    var after := runs[i := whole];
    FreeCut(runs, i);
    FreeCut(after, i);
    assert after[..i] == runs[..i] && after[i + 1..] == runs[i + 1..];
    forall a
      ensures InRun(whole, a) <==> InRun(r, a) || InRun(runs[i], a)
    {
      MergeBytes(r, runs[i], a);
    }
  }

  // ---------------------------------------------------------------- allocating from a run

  lemma SplitBytes(e: Entry, n: nat, a: nat)
    requires IsRun(e) && n < e.pages
    ensures var rest := Usable(e.start + n * PAGE_SIZE, e.pages - n);
      && IsRun(rest) && rest.End() == e.End()
      && (InRun(rest, a) <==> InRun(e, a) && !InRun(Usable(e.start, n), a))
  {
  }

  lemma OthersApart(runs: seq<Entry>, i: nat)
    requires Sorted(runs) && i < |runs|
    ensures forall a :: InRun(runs[i], a) ==> !Free(runs[..i], a) && !Free(runs[i + 1..], a)
  {
  }

  // ---------------------------------------------------------------- entries that overlap

  /** Two entries share a byte. */
  ghost predicate Overlap(runs: seq<Entry>) {
    exists i, j, a :: 0 <= i < j < |runs| && InRun(runs[i], a) && InRun(runs[j], a)
  }

  lemma SortedApart(runs: seq<Entry>)
    requires Sorted(runs)
    ensures !Overlap(runs)
  {
  }

  lemma OverlapInsert(runs: seq<Entry>, k: nat, e: Entry)
    requires Overlap(runs) && k <= |runs|
    ensures Overlap(InsertAt(runs, k, e))
  {
    hide InRun;
    var i, j, a :| 0 <= i < j < |runs| && InRun(runs[i], a) && InRun(runs[j], a);
    var more := InsertAt(runs, k, e);
    assert more[if i < k then i else i + 1] == runs[i] && more[if j < k then j else j + 1] == runs[j];
  }

  // ---------------------------------------------------------------- removing, with the copy left behind

  /** The copy left behind adds no byte. */
  lemma DroppedFree(f: FreeList, k: nat)
    requires k < |f.runs|
    ensures SameFree(RemoveAt(f.runs, k), Dropped(f, k).runs)
  {
    hide InRun, Free;
    if Stale(f.runs, k) {
      var fewer, last := RemoveAt(f.runs, k), f.runs[|f.runs| - 1];
      assert fewer[|fewer| - 1] == last;
      FreeJoin(fewer, [last]);
      FreeOne(last);
      FreeCut(fewer, |fewer| - 1);
    }
  }

  /** Removing keeps the entries disjoint exactly when no copy is left behind. */
  lemma DroppedSorted(f: FreeList, k: nat)
    requires Sorted(f.runs) && k < |f.runs|
    ensures Sorted(Dropped(f, k).runs) <==> !Stale(f.runs, k)
    ensures Stale(f.runs, k) ==> Overlap(Dropped(f, k).runs)
  {
    var g, n := Dropped(f, k), |f.runs|;
    DroppedAt(f, k);
    if Stale(f.runs, k) {
      assert InRun(g.runs[n - 2], f.runs[n - 1].start) && InRun(g.runs[n - 1], f.runs[n - 1].start);
    }
  }

  /** Taking pages takes exactly their bytes, and keeps the entries disjoint exactly when no copy is left behind. */
  lemma TakeKeeps(f: FreeList, k: nat, n: nat)
    requires Sorted(f.runs) && k < |f.runs| && n <= f.runs[k].pages
    ensures FreeMinus(f.runs, TakenFrom(f, k, n).runs, Usable(f.runs[k].start, n))
    ensures forall a :: InRun(Usable(f.runs[k].start, n), a) ==> Free(f.runs, a)
    ensures Sorted(TakenFrom(f, k, n).runs) <==> !(f.runs[k].pages == n && Stale(f.runs, k))
    ensures f.runs[k].pages == n && Stale(f.runs, k) ==> Overlap(TakenFrom(f, k, n).runs)
  {
    hide Free, Dropped, Overlap, Stale;
    var runs := f.runs;
    FreeCut(runs, k);
    OthersApart(runs, k);
    if runs[k].pages == n {
      FreeJoin(runs[..k], runs[k + 1..]);
      DroppedFree(f, k);
      DroppedSorted(f, k);
    } else {
      var after := TakenFrom(f, k, n).runs;
      FreeCut(after, k);
      assert after[..k] == runs[..k] && after[k + 1..] == runs[k + 1..];
      SplitBytes(runs[k], n, 0);
      forall a
        ensures InRun(after[k], a) <==> InRun(runs[k], a) && !InRun(Usable(runs[k].start, n), a)
      {
        SplitBytes(runs[k], n, a);
      }
    }
  }

  /** `r` was free and is now carved out; it starts the first run long enough. */
  ghost predicate Carved(before: seq<Entry>, after: seq<Entry>, r: Entry)
    requires r.Usable?
  {
    && FreeMinus(before, after, r) && (forall a :: InRun(r, a) ==> Free(before, a))
    && exists k :: 0 <= k < |before| && LongEnough(before, k, r)
        && forall j :: 0 <= j < k ==> before[j].Usable? && before[j].pages < r.pages
  }

  ghost predicate LongEnough(runs: seq<Entry>, k: nat, r: Entry)
    requires r.Usable? && k < |runs|
  {
    runs[k].Usable? && runs[k].start == r.start && runs[k].pages >= r.pages
  }

  /** An allocation leaves no copy behind: it does not use up an entry of a list of whole pages, except the last. */
  ghost predicate CleanTake(f: FreeList, n: nat)
    requires f.Good()
  {
    var k := FitIn(f.runs, n);
    !(k < |f.runs| && f.runs[k].pages == n && Stale(f.runs, k))
  }

  /** Among disjoint runs no two start at the same place, so the run found is the one cut. */
  lemma SortedFit(f: FreeList, n: nat)
    requires f.Good() && Sorted(f.runs)
    ensures FitIn(f.runs, n) < |f.runs| ==> FitAnswer(f, n) == At(f.runs[FitIn(f.runs, n)].start)
    ensures FitIn(f.runs, n) == |f.runs| ==> FitAnswer(f, n) == NoFit
  {
    hide FitIn, StartIn;
    var k := FitIn(f.runs, n);
    if k < |f.runs| {
      StartIs(f.runs, f.runs[k].start, k);
    }
  }

  /**
   First fit among disjoint runs never panics, fails exactly when every run is too short, and else carves
   out exactly the bytes handed out. The runs stay disjoint exactly when no copy is left behind.
   */
  lemma TookKeeps(f: FreeList, n: nat)
    requires f.Good() && Sorted(f.runs)
    ensures !FitAnswer(f, n).Panics?
    ensures FitAnswer(f, n).NoFit? <==> forall i :: 0 <= i < |f.runs| ==> f.runs[i].pages < n
    ensures FitAnswer(f, n).NoFit? ==> Took(f, n) == f
    ensures FitAnswer(f, n).At? ==> Carved(f.runs, Took(f, n).runs, Usable(FitAnswer(f, n).start, n))
    ensures Sorted(Took(f, n).runs) <==> CleanTake(f, n)
  {
    hide Free, InRun, TakenFrom, Stale, Overlap, FitIn, FitAnswer;
    var k := FitIn(f.runs, n);
    SortedFit(f, n);
    if k < |f.runs| {
      TakeKeeps(f, k, n);
      assert LongEnough(f.runs, k, Usable(f.runs[k].start, n));
    }
  }
}
