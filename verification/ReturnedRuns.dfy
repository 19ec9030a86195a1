/**
 What merging neighbours and returning a run do to the free bytes and to the order of the entries, copies
 left behind by `remove_entry` included (kernel/src/memory/allocator/page.rs).
 */
module ReturnedRuns {
  import opened Prelude
  import opened FreeLists
  import opened FreeRuns

  // ---------------------------------------------------------------- one merge

  lemma MergedOnceIs(f: FreeList, i: nat)
    requires AllRuns(f.runs) && Touching(f.runs, i)
    ensures SameFree(f.runs, MergedOnce(f, i).runs)
    ensures !Stale(f.runs, i + 1) ==> MergedOnce(f, i).runs == MergedAt(f.runs, i)
  {
    hide Free, InRun;
    var e := Usable(f.runs[i].start, f.runs[i].pages + f.runs[i + 1].pages);
    var h := f.(runs := f.runs[i := e]);
    DroppedFree(h, i + 1);
    var left, right := f.runs[..i], f.runs[i + 2..];
    assert f.runs == left + ([f.runs[i]] + ([f.runs[i + 1]] + right));
    assert RemoveAt(h.runs, i + 1) == left + ([e] + right);
    MergeFree(left, f.runs[i], f.runs[i + 1], right);
  }

  /** Entries that overlap still do after a merge: touching entries share no byte. */
  lemma MergedOverlap(f: FreeList, i: nat)
    requires AllRuns(f.runs) && Touching(f.runs, i) && Overlap(f.runs)
    ensures Overlap(MergedOnce(f, i).runs)
  {
    hide Dropped;
    var runs, g := f.runs, MergedOnce(f, i).runs;
    var x, y, a :| 0 <= x < y < |runs| && InRun(runs[x], a) && InRun(runs[y], a);
    MergedHolds(f, i, x, a);
    MergedHolds(f, i, y, a);
  }

  /** Where the bytes of an entry are after a merge. */
  lemma MergedHolds(f: FreeList, i: nat, x: nat, a: nat)
    requires AllRuns(f.runs) && Touching(f.runs, i) && x < |f.runs| && InRun(f.runs[x], a)
    ensures var y := if x <= i then x else x - 1;
      y < |MergedOnce(f, i).runs| && InRun(MergedOnce(f, i).runs[y], a)
  {
    hide Dropped;
    var e := Usable(f.runs[i].start, f.runs[i].pages + f.runs[i + 1].pages);
    DroppedAt(f.(runs := f.runs[i := e]), i + 1);
    MergeBytes(f.runs[i], f.runs[i + 1], a);
  }

  lemma MergedSorted(f: FreeList, i: nat)
    requires Sorted(f.runs) && Touching(f.runs, i)
    ensures Stale(f.runs, i + 1) ==> Overlap(MergedOnce(f, i).runs)
    ensures !Stale(f.runs, i + 1) ==> Sorted(MergedOnce(f, i).runs)
  {
    hide MergedAt;
    if Stale(f.runs, i + 1) {
      var n := |f.runs|;
      var e := Usable(f.runs[i].start, f.runs[i].pages + f.runs[i + 1].pages);
      var g := MergedOnce(f, i).runs;
      DroppedAt(f.(runs := f.runs[i := e]), i + 1);
      assert InRun(g[n - 2], f.runs[n - 1].start) && InRun(g[n - 1], f.runs[n - 1].start);
    } else {
      MergedOnceIs(f, i);
      MergeKeeps(f.runs, i);
    }
  }

  // ---------------------------------------------------------------- squash_entries

  /**
   How many merges `squash_entries` makes, those with the very last entry aside, as one scan over the
   entries: `end` is where the entry in slot `slot` ends by now, `rest` the entries behind it.
   */
  function Scan(end: nat, rest: seq<Entry>, slot: nat): nat
    requires AllRuns(rest)
    decreases |rest|
  {
    if rest == [] then 0
    else if slot == ENTRIES - 1 then Scan(rest[0].End(), rest[1..], 0)
    else if end != rest[0].start then Scan(rest[0].End(), rest[1..], slot + 1)
    else (if |rest| == 1 then 0 else 1) + Scan(rest[0].End(), rest[1..], slot)
  }

  function InnerMerges(runs: seq<Entry>, i: nat): nat
    requires AllRuns(runs)
  {
    if i < |runs| then Scan(runs[i].End(), runs[i + 1..], i % ENTRIES) else 0
  }

  /**
   No merge on the way leaves a copy of the last entry behind: the entries past the last whole page are enough for
   all merges.
   */
  predicate CleanSquash(f: FreeList, i: nat)
    requires AllRuns(f.runs)
  {
    InnerMerges(f.runs, i) <= |f.runs| % ENTRIES
  }

  /** The scan after a merge that left no copy. */
  lemma ScanMerged(f: FreeList, i: nat)
    requires f.Good() && Touching(f.runs, i) && !Stale(f.runs, i + 1)
    ensures AllRuns(MergedOnce(f, i).runs) && |MergedOnce(f, i).runs| == |f.runs| - 1
    ensures InnerMerges(f.runs, i) == (if i + 2 == |f.runs| then 0 else 1) + InnerMerges(MergedOnce(f, i).runs, i)
  {
    hide Dropped;
    var runs, g := f.runs, MergedOnce(f, i).runs;
    var e := Usable(runs[i].start, runs[i].pages + runs[i + 1].pages);
    MergedGood(f, i);
    DroppedAt(f.(runs := runs[i := e]), i + 1);
    assert g[i] == e && e.End() == runs[i + 1].End();
    assert g[i + 1..] == runs[i + 1..][1..];
  }

  /** How the condition follows the loop. */
  lemma CleanStep(f: FreeList, i: nat)
    requires f.Good()
    ensures i + 1 >= |f.runs| ==> CleanSquash(f, i)
    ensures i + 1 < |f.runs| && !Touching(f.runs, i) ==> (CleanSquash(f, i) <==> CleanSquash(f, i + 1))
    ensures Touching(f.runs, i) && Stale(f.runs, i + 1) ==> !CleanSquash(f, i)
    ensures Touching(f.runs, i) && !Stale(f.runs, i + 1) ==>
        AllRuns(MergedOnce(f, i).runs) && (CleanSquash(f, i) <==> CleanSquash(MergedOnce(f, i), i))
  {
    hide MergedOnce;
    if Touching(f.runs, i) {
      if !Stale(f.runs, i + 1) {
        ScanMerged(f, i);
        if i + 2 == |f.runs| {
          MergedLast(f, i);
        }
      }
    } else if i + 1 < |f.runs| {
      assert f.runs[i + 1..][1..] == f.runs[i + 2..];
    }
  }

  /** After a merge with the last entry there is nothing left to merge. */
  lemma MergedLast(f: FreeList, i: nat)
    requires f.Good() && Touching(f.runs, i) && !Stale(f.runs, i + 1) && i + 2 == |f.runs|
    ensures AllRuns(MergedOnce(f, i).runs) && InnerMerges(MergedOnce(f, i).runs, i) == 0
  {
    hide MergedOnce;
    ScanMerged(f, i);
  }

  lemma {:induction false} SquashFree(f: FreeList, i: nat)
    requires f.Good()
    ensures SameFree(f.runs, Squashed(f, i).runs)
    ensures Overlap(f.runs) ==> Overlap(Squashed(f, i).runs)
    decreases if i < |f.runs| then |f.runs| - i else 0, Climb(f.runs, i)
  {
    hide MergedOnce, Climb, Overlap, Free;
    if i + 1 < |f.runs| {
      if Touching(f.runs, i) {
        MergedGood(f, i);
        MergedOnceIs(f, i);
        if Overlap(f.runs) {
          MergedOverlap(f, i);
        }
        SquashFree(MergedOnce(f, i), i);
      } else {
        SquashFree(f, i + 1);
      }
    }
  }

  /** Squashing keeps the entries disjoint exactly when no merge leaves a copy behind. */
  lemma {:induction false} SquashSorted(f: FreeList, i: nat)
    requires f.Good() && Sorted(f.runs)
    ensures Sorted(Squashed(f, i).runs) <==> CleanSquash(f, i)
    ensures !CleanSquash(f, i) ==> Overlap(Squashed(f, i).runs)
    decreases if i < |f.runs| then |f.runs| - i else 0, Climb(f.runs, i)
  {
    hide MergedOnce, Climb, Overlap, Free, Stale, Sorted, CleanSquash;
    CleanStep(f, i);
    if i + 1 < |f.runs| {
      if Touching(f.runs, i) {
        MergedGood(f, i);
        MergedSorted(f, i);
        if Stale(f.runs, i + 1) {
          SquashFree(MergedOnce(f, i), i);
          OverlapNotSorted(Squashed(f, i).runs);
        } else {
          SquashSorted(MergedOnce(f, i), i);
        }
      } else {
        SquashSorted(f, i + 1);
      }
    }
  }

  /** Squashing adds no entry. */
  lemma {:induction false} SquashCount(f: FreeList, i: nat)
    requires f.Good()
    ensures |Squashed(f, i).runs| <= |f.runs|
    decreases if i < |f.runs| then |f.runs| - i else 0, Climb(f.runs, i)
  {
    hide MergedOnce, Climb;
    if i + 1 < |f.runs| {
      if Touching(f.runs, i) {
        MergedGood(f, i);
        SquashCount(MergedOnce(f, i), i);
      } else {
        SquashCount(f, i + 1);
      }
    }
  }

  lemma OverlapNotSorted(runs: seq<Entry>)
    requires Overlap(runs)
    ensures !Sorted(runs)
  {
    if Sorted(runs) {
      SortedApart(runs);
    }
  }

  /** Squashing from `i` leaves the entries before it alone, and the start of that one. */
  lemma {:induction false} SquashFront(f: FreeList, i: nat)
    requires f.Good() && i < |f.runs|
    ensures i < |Squashed(f, i).runs| && Squashed(f, i).runs[..i] == f.runs[..i]
    ensures Squashed(f, i).runs[i].Usable? && Squashed(f, i).runs[i].start == f.runs[i].start
    decreases |f.runs| - i, Climb(f.runs, i)
  {
    hide Climb, Dropped;
    if i + 1 < |f.runs| {
      if Touching(f.runs, i) {
        var e := Usable(f.runs[i].start, f.runs[i].pages + f.runs[i + 1].pages);
        MergedGood(f, i);
        DroppedAt(f.(runs := f.runs[i := e]), i + 1);
        assert MergedOnce(f, i).runs[..i] == f.runs[..i];
        SquashFront(MergedOnce(f, i), i);
      } else {
        SquashFront(f, i + 1);
        assert f.runs[..i + 1][..i] == f.runs[..i];
        assert f.runs[..i + 1][i] == f.runs[i];
      }
    }
  }

  /** No two entries of one page, from `i` on, touch after squashing. */
  lemma {:induction false} SquashSeparates(f: FreeList, i: nat)
    requires f.Good()
    ensures forall k :: i <= k ==> !Touching(Squashed(f, i).runs, k)
    decreases if i < |f.runs| then |f.runs| - i else 0, Climb(f.runs, i)
  {
    hide MergedOnce, Climb;
    if i + 1 < |f.runs| {
      if Touching(f.runs, i) {
        MergedGood(f, i);
        SquashSeparates(MergedOnce(f, i), i);
      } else {
        SquashSeparates(f, i + 1);
        SquashFront(f, i + 1);
        var g := Squashed(f, i + 1).runs;
        assert g[i] == g[..i + 1][i] == f.runs[..i + 1][i] == f.runs[i];
      }
    }
  }

  /** With nothing touching, squashing changes nothing. */
  lemma {:induction false} SquashNone(f: FreeList, i: nat)
    requires f.Good() && forall k :: i <= k ==> !Touching(f.runs, k)
    ensures Squashed(f, i) == f && CleanSquash(f, i)
    decreases if i < |f.runs| then |f.runs| - i else 0
  {
    hide CleanSquash;
    CleanStep(f, i);
    if i + 1 < |f.runs| {
      SquashNone(f, i + 1);
    }
  }

  /** With one pair touching, squashing is that merge. */
  lemma {:induction false} SquashOne(f: FreeList, i: nat, j: nat)
    requires f.Good() && i <= j && Touching(f.runs, j) && (forall k :: i <= k && k != j ==> !Touching(f.runs, k))
    requires forall k :: j <= k ==> !Touching(MergedOnce(f, j).runs, k)
    ensures Squashed(f, i) == MergedOnce(f, j) && (CleanSquash(f, i) <==> !Stale(f.runs, j + 1))
    decreases j - i
  {
    hide MergedOnce, CleanSquash;
    CleanStep(f, i);
    if i == j {
      MergedGood(f, i);
      SquashNone(MergedOnce(f, i), i);
    } else {
      SquashOne(f, i + 1, j);
    }
  }

  /**
   Why a run must have a page: a copy of an entry without pages that touches the entry before it is merged
   again and again, and the list stays as it is.
   */
  lemma EmptyRunSpins(f: FreeList, i: nat)
    requires |f.runs| % ENTRIES == 0 && !f.spare && Touching(f.runs, i) && i + 2 < |f.runs| && f.runs[i + 1].pages == 0
    requires forall k :: i < k < |f.runs| ==> f.runs[k] == f.runs[i + 1]
    ensures MergedOnce(f, i) == f
  {
    var h := f.(runs := f.runs[i := Usable(f.runs[i].start, f.runs[i].pages + f.runs[i + 1].pages)]);
    assert h == f;
    DroppedAt(f, i + 1);
    assert MergedOnce(f, i).runs == f.runs;
  }

  /** The entries fill whole pages, and the last of them is there twice. */
  ghost predicate LastTwice(runs: seq<Entry>) {
    |runs| >= 2 && |runs| % ENTRIES == 0 && runs[|runs| - 2] == runs[|runs| - 1]
  }

  /** A merge that leaves a copy leaves such a list, and from such a list no merge comes to anything else. */
  lemma MergedTwice(f: FreeList, i: nat)
    requires f.Good() && Touching(f.runs, i) && (Stale(f.runs, i + 1) || LastTwice(f.runs))
    ensures |MergedOnce(f, i).runs| == |f.runs| && LastTwice(MergedOnce(f, i).runs)
  {
    hide Dropped;
    var e := Usable(f.runs[i].start, f.runs[i].pages + f.runs[i + 1].pages);
    DroppedAt(f.(runs := f.runs[i := e]), i + 1);
  }

  lemma {:induction false} TwiceStays(f: FreeList, i: nat)
    requires f.Good() && LastTwice(f.runs)
    ensures |Squashed(f, i).runs| == |f.runs|
    decreases if i < |f.runs| then |f.runs| - i else 0, Climb(f.runs, i)
  {
    hide MergedOnce, Climb, LastTwice;
    if i + 1 < |f.runs| {
      if Touching(f.runs, i) {
        MergedGood(f, i);
        MergedTwice(f, i);
        TwiceStays(MergedOnce(f, i), i);
      } else {
        TwiceStays(f, i + 1);
      }
    }
  }

  /** After merging that left a copy, the entries fill whole pages. */
  lemma {:induction false} UncleanFills(f: FreeList, i: nat)
    requires f.Good() && !CleanSquash(f, i)
    ensures |Squashed(f, i).runs| == |f.runs| - |f.runs| % ENTRIES
    decreases if i < |f.runs| then |f.runs| - i else 0, Climb(f.runs, i)
  {
    hide MergedOnce, Climb, CleanSquash, LastTwice;
    CleanStep(f, i);
    if Touching(f.runs, i) {
      MergedGood(f, i);
      MergedLength(f, i);
      if Stale(f.runs, i + 1) {
        MergedTwice(f, i);
        TwiceStays(MergedOnce(f, i), i);
      } else {
        CleanStep(MergedOnce(f, i), i);
        UncleanFills(MergedOnce(f, i), i);
      }
    } else {
      UncleanFills(f, i + 1);
    }
  }

  /** On one page that is not full no merge leaves a copy. */
  lemma CleanShort(f: FreeList, i: nat)
    requires f.Good() && 0 < |f.runs| < ENTRIES
    ensures CleanSquash(f, i)
  {
    if i < |f.runs| {
      ScanShort(f.runs[i].End(), f.runs[i + 1..], i % ENTRIES);
    }
  }

  lemma {:induction false} ScanShort(end: nat, rest: seq<Entry>, slot: nat)
    requires AllRuns(rest)
    ensures Scan(end, rest, slot) <= |rest|
    decreases |rest|
  {
    if rest != [] {
      var next := if slot == ENTRIES - 1 then 0 else if end != rest[0].start then slot + 1 else slot;
      ScanShort(rest[0].End(), rest[1..], next);
    }
  }

  /** The neighbours from `i` on that touch, on one page or not. */
  ghost function TouchSet(runs: seq<Entry>, i: nat): set<nat>
    requires AllRuns(runs)
  {
    set k: nat | i <= k < |runs| - 1 && runs[k].End() == runs[k + 1].start
  }

  lemma {:induction false} ScanTouches(runs: seq<Entry>, i: nat, slot: nat)
    requires AllRuns(runs) && i < |runs|
    ensures Scan(runs[i].End(), runs[i + 1..], slot) <= |TouchSet(runs, i)|
    decreases |runs| - i
  {
    hide TouchSet;
    if i + 1 < |runs| {
      var touch := runs[i].End() == runs[i + 1].start;
      assert runs[i + 1..][1..] == runs[i + 2..];
      ScanTouches(runs, i + 1, if slot == ENTRIES - 1 then 0 else if touch then slot else slot + 1);
      TouchSetStep(runs, i);
    }
  }

  lemma TouchSetStep(runs: seq<Entry>, i: nat)
    requires AllRuns(runs) && i + 1 < |runs|
    ensures |TouchSet(runs, i)| == |TouchSet(runs, i + 1)| + if runs[i].End() == runs[i + 1].start then 1 else 0
  {
    var more := TouchSet(runs, i + 1);
    if runs[i].End() == runs[i + 1].start {
      assert TouchSet(runs, i) == more + {i};
    } else {
      assert TouchSet(runs, i) == more;
    }
  }

  /** As many entries past the last whole page as there are neighbours that touch: no merge leaves a copy. */
  lemma CleanEnough(f: FreeList, i: nat)
    requires f.Good() && |TouchSet(f.runs, i)| <= |f.runs| % ENTRIES
    ensures CleanSquash(f, i)
  {
    if i < |f.runs| {
      ScanTouches(f.runs, i, i % ENTRIES);
    }
  }

  /** One full page: the entries stay disjoint exactly when at most the last two of them touch. */
  lemma SquashFullPage(f: FreeList)
    requires f.Good() && Sorted(f.runs) && |f.runs| == ENTRIES
    ensures Sorted(Squashed(f, 0).runs) <==> forall k :: 0 <= k < ENTRIES - 2 ==> !Touching(f.runs, k)
  {
    hide Squashed, CleanSquash;
    SquashSorted(f, 0);
    CleanFullPage(f, 0);
  }

  lemma {:induction false} CleanFullPage(f: FreeList, i: nat)
    requires f.Good() && |f.runs| == ENTRIES && i < ENTRIES
    ensures CleanSquash(f, i) <==> forall k :: i <= k < ENTRIES - 2 ==> !Touching(f.runs, k)
    decreases ENTRIES - i
  {
    hide MergedOnce, Touching, CleanSquash;
    CleanStep(f, i);
    if i + 1 < ENTRIES {
      if Touching(f.runs, i) {
        MergedGood(f, i);
        if i == ENTRIES - 2 {
          MergedLength(f, i);
          CleanStep(MergedOnce(f, i), i);
        }
      } else {
        CleanFullPage(f, i + 1);
      }
    }
  }

  lemma MergedLength(f: FreeList, i: nat)
    requires AllRuns(f.runs) && Touching(f.runs, i)
    ensures |MergedOnce(f, i).runs| == if Stale(f.runs, i + 1) then |f.runs| else |f.runs| - 1
  {
  }

  // ---------------------------------------------------------------- dealloc_pages

  /** The page a new entry page is made of. */
  ghost function PageSpent(f: FreeList): (e: Entry)
    requires f.Good() && f.Full()
    ensures e.Usable? && e.pages == 1
  {
    Usable(f.runs[|f.runs| - ENTRIES].start, 1)
  }

  /** The returned run is free again. */
  ghost predicate Kept(f: FreeList, r: Entry, frame: bool)
    requires f.Good() && r.Usable?
  {
    Recorded(f, r) && (Opens(f, r) ==> frame)
  }

  /**
   Returning `r` leaves no copy of an entry behind: a new entry page does not use up the entry it is cut
   from, and no merge leaves a copy.
   */
  ghost predicate CleanGive(f: FreeList, r: Entry, frame: bool)
    requires f.Good() && IsRun(r)
  {
    Recorded(f, r) && !Joins(f, r) ==>
      && (f.Full() ==> f.runs[|f.runs| - ENTRIES].pages > 1)
      && (Kept(f, r, frame) ==>
            var k := PlaceIn(f.runs, r.start);
            PutGood(f, k, r, frame); CleanSquash(Put(f, k, r, frame), PageStart(k, |f.runs|)))
  }

  /** The bytes after a page was cut off for an entry page and `r` came back. */
  ghost predicate FreeAfter(before: seq<Entry>, after: seq<Entry>, spent: Option<Entry>, back: Option<Entry>) {
    forall a :: Free(after, a) <==>
        (Free(before, a) && !(spent.Some? && InRun(spent.value, a))) || (back.Some? && InRun(back.value, a))
  }

  ghost function Spent(f: FreeList, r: Entry): (e: Option<Entry>)
    requires f.Good() && r.Usable?
    ensures e.Some? ==> IsRun(e.value)
  {
    if Opens(f, r) then Some(PageSpent(f)) else None
  }

  ghost function Back(f: FreeList, r: Entry, frame: bool): (e: Option<Entry>)
    requires f.Good() && r.Usable?
    ensures e.Some? ==> e.value == r
  {
    if Kept(f, r, frame) then Some(r) else None
  }

  lemma OpenedKeeps(f: FreeList)
    requires f.Good() && f.Full() && Sorted(f.runs)
    ensures FreeMinus(f.runs, Opened(f).runs, PageSpent(f))
    ensures forall a :: InRun(PageSpent(f), a) ==> Free(f.runs, a)
    ensures Sorted(Opened(f).runs) <==> f.runs[|f.runs| - ENTRIES].pages > 1
    ensures f.runs[|f.runs| - ENTRIES].pages == 1 ==> Overlap(Opened(f).runs)
  {
    hide Free, InRun, TakenFrom, Overlap, Sorted;
    SortedRuns(f.runs);
    TakeKeeps(f, |f.runs| - ENTRIES, 1);
  }

  lemma SortedRuns(runs: seq<Entry>)
    requires Sorted(runs)
    ensures AllRuns(runs)
  {
  }

  /** Cutting a page off the front of a longer entry moves no place. */
  lemma PlaceAfterOpened(f: FreeList, r: Entry)
    requires f.Good() && f.Full() && Sorted(f.runs) && IsRun(r) && Disjoint(f.runs, r)
    requires f.runs[|f.runs| - ENTRIES].pages > 1
    ensures Sorted(Opened(f).runs) && PlaceIn(Opened(f).runs, r.start) == PlaceIn(f.runs, r.start)
    ensures Disjoint(Opened(f).runs, r)
  {
    hide Free, InRun, PlaceIn;
    var k := PlaceIn(f.runs, r.start);
    OpenedKeeps(f);
    RoomBetween(f.runs, r);
    PlaceIs(Opened(f).runs, r.start, k);
  }

  /** A run put in its place, after the entry page if one is made. */
  lemma PutKeeps(f: FreeList, r: Entry)
    requires f.Good() && Sorted(f.runs) && IsRun(r) && Disjoint(f.runs, r)
    requires f.Full() ==> f.runs[|f.runs| - ENTRIES].pages > 1
    ensures Sorted(Put(f, PlaceIn(f.runs, r.start), r, true).runs)
  {
    hide Free, InRun, PlaceIn, Opened, Sorted, Disjoint;
    var k := PlaceIn(f.runs, r.start);
    if f.Full() {
      OpenedGood(f);
      PlaceAfterOpened(f, r);
      InsertKeeps(Opened(f).runs, r);
    } else {
      InsertKeeps(f.runs, r);
    }
  }

  lemma PutFree(f: FreeList, k: nat, r: Entry)
    requires f.Good() && Sorted(f.runs) && IsRun(r) && k <= |f.runs|
    ensures FreeAfter(f.runs, Put(f, k, r, true).runs, if f.Full() then Some(PageSpent(f)) else None, Some(r))
    ensures f.Full() && f.runs[|f.runs| - ENTRIES].pages == 1 ==> Overlap(Put(f, k, r, true).runs)
  {
    hide Free, InRun, Opened, Sorted, Overlap;
    if f.Full() {
      OpenedGood(f);
      OpenedKeeps(f);
      InsertFree(Opened(f).runs, r, k);
      if Overlap(Opened(f).runs) {
        OverlapInsert(Opened(f).runs, k, r);
      }
    } else {
      InsertFree(f.runs, r, k);
    }
  }

  lemma JoinKeeps(f: FreeList, r: Entry, frame: bool)
    requires f.Good() && Sorted(f.runs) && IsRun(r) && Disjoint(f.runs, r) && Joins(f, r)
    ensures Sorted(Gave(f, r, frame).runs) && FreePlus(f.runs, Gave(f, r, frame).runs, r)
  {
    hide Free, InRun, Disjoint;
    GrowKeeps(f.runs, r);
  }

  /** What returning a run does to the free bytes, whatever happens to the entries. */
  lemma GaveFree(f: FreeList, r: Entry, frame: bool)
    requires f.Good() && Sorted(f.runs) && IsRun(r) && Disjoint(f.runs, r)
    ensures FreeAfter(f.runs, Gave(f, r, frame).runs, Spent(f, r), Back(f, r, frame))
    ensures Spent(f, r).Some? ==> forall a :: InRun(Spent(f, r).value, a) ==> Free(f.runs, a)
  {
    hide Free, InRun, Sorted, Put, Opened, Squashed, PlaceIn, Disjoint, Joins;
    var k := PlaceIn(f.runs, r.start);
    if f.Full() {
      OpenedKeeps(f);
    }
    if Joins(f, r) {
      JoinKeeps(f, r, frame);
      JoinsRecorded(f, r);
    } else if Kept(f, r, frame) {
      PutGood(f, k, r, frame);
      PutFrame(f, k, r, frame);
      PutFree(f, k, r);
      SquashFree(Put(f, k, r, frame), PageStart(k, |f.runs|));
    }
  }

  lemma JoinsRecorded(f: FreeList, r: Entry)
    requires f.Good() && r.Usable? && Joins(f, r)
    ensures Recorded(f, r) && !Opens(f, r)
  {
  }

  lemma PutFrame(f: FreeList, k: nat, r: Entry, frame: bool)
    requires f.Good() && k <= |f.runs| && (f.Full() ==> frame)
    ensures Put(f, k, r, frame) == Put(f, k, r, true)
  {
  }

  /** Returning a run keeps the entries disjoint exactly when it leaves no copy behind. */
  lemma GaveSorted(f: FreeList, r: Entry, frame: bool)
    requires f.Good() && Sorted(f.runs) && IsRun(r) && Disjoint(f.runs, r)
    ensures Sorted(Gave(f, r, frame).runs) <==> CleanGive(f, r, frame)
  {
    hide Free, InRun, Sorted, Put, Opened, Squashed, CleanSquash, PlaceIn, Disjoint, Joins, Overlap;
    var k := PlaceIn(f.runs, r.start);
    if Joins(f, r) {
      JoinKeeps(f, r, frame);
    } else if Recorded(f, r) {
      if f.Full() {
        OpenedKeeps(f);
      }
      if Kept(f, r, frame) {
        PutGood(f, k, r, frame);
        PutFrame(f, k, r, frame);
        PutFree(f, k, r);
        if f.Full() && f.runs[|f.runs| - ENTRIES].pages == 1 {
          SquashFree(Put(f, k, r, frame), PageStart(k, |f.runs|));
          OverlapNotSorted(Gave(f, r, frame).runs);
        } else {
          PutKeeps(f, r);
          SquashSorted(Put(f, k, r, frame), PageStart(k, |f.runs|));
        }
      }
    }
  }

  /**
   On one page: a run with an entry of its own leaves no copy behind exactly when the page does not become
   full, or becomes full with no two entries touching, the last two aside.
   */
  lemma CleanOnOnePage(f: FreeList, r: Entry, frame: bool)
    requires f.Good() && |f.runs| < ENTRIES && IsRun(r) && Recorded(f, r) && !Joins(f, r)
    ensures var put := InsertAt(f.runs, PlaceIn(f.runs, r.start), r);
      CleanGive(f, r, frame) <==> |put| < ENTRIES || forall k :: 0 <= k < ENTRIES - 2 ==> !Touching(put, k)
  {
    hide PlaceIn, CleanSquash, Touching;
    var k := PlaceIn(f.runs, r.start);
    PutGood(f, k, r, frame);
    if |f.runs| + 1 < ENTRIES {
      CleanShort(Put(f, k, r, frame), PageStart(k, |f.runs|));
    } else {
      CleanFullPage(Put(f, k, r, frame), 0);
    }
  }

  /** On any chain, as many entries past the last whole page as neighbours that touch are enough. */
  lemma CleanGiveEnough(f: FreeList, r: Entry, frame: bool)
    requires f.Good() && IsRun(r) && (f.Full() ==> f.runs[|f.runs| - ENTRIES].pages > 1)
    requires Put(f, PlaceIn(f.runs, r.start), r, frame).Good()
    requires var k := PlaceIn(f.runs, r.start);
      && var put := Put(f, k, r, frame).runs;
      |TouchSet(put, PageStart(k, |f.runs|))| <= |put| % ENTRIES
    ensures CleanGive(f, r, frame)
  {
    hide PlaceIn, CleanSquash, Put, PageStart, TouchSet;
    var k := PlaceIn(f.runs, r.start);
    CleanEnough(Put(f, k, r, frame), PageStart(k, |f.runs|));
  }

  // ---------------------------------------------------------------- coalesced lists

  /** `r` starts where the entry before its place ends. */
  ghost predicate TouchesBefore(f: FreeList, r: Entry)
    requires f.Good() && r.Usable?
  {
    var k := PlaceIn(f.runs, r.start);
    k > 0 && f.runs[k - 1].End() == r.start
  }

  lemma CoalescedNone(runs: seq<Entry>)
    requires Sorted(runs) && Coalesced(runs)
    ensures forall k :: 0 <= k ==> !Touching(runs, k)
  {
  }

  /** The list `r` is put into. */
  ghost function Base(f: FreeList): seq<Entry>
    requires f.Good()
  {
    if f.Full() then Opened(f).runs else f.runs
  }

  lemma BaseEnds(f: FreeList)
    requires f.Good() && (f.Full() ==> f.runs[|f.runs| - ENTRIES].pages > 1)
    ensures |Base(f)| == |f.runs|
    ensures forall i :: 0 <= i < |f.runs| ==>
        var e := Base(f)[i]; e.Usable? && e.End() == f.runs[i].End() && e.start >= f.runs[i].start
  {
  }

  lemma InsertTouches(runs: seq<Entry>, base: seq<Entry>, r: Entry, k: nat)
    requires Sorted(runs) && Coalesced(runs) && IsRun(r) && k <= |runs| == |base|
    requires forall i :: 0 <= i < |runs| ==>
        base[i].Usable? && base[i].End() == runs[i].End() && base[i].start >= runs[i].start
    requires k < |runs| ==> r.End() < runs[k].start
    requires Sorted(InsertAt(base, k, r))
    ensures var put := InsertAt(base, k, r);
      && (forall i :: 0 <= i < |put| - 1 && i + 1 != k ==> put[i].End() != put[i + 1].start)
      && (k > 0 ==> (put[k - 1].End() == r.start <==> runs[k - 1].End() == r.start))
  {
    var put := InsertAt(base, k, r);
    forall i | 0 <= i < |put| - 1 && i + 1 != k
      ensures put[i].End() != put[i + 1].start
    {
      if i + 1 < k {
        assert put[i] == base[i] && put[i + 1] == base[i + 1];
        assert runs[i].End() <= runs[i + 1].start;
      } else if i == k {
        assert put[i + 1] == base[i];
      } else {
        assert put[i] == base[i - 1] && put[i + 1] == base[i];
        assert runs[i - 1].End() <= runs[i].start;
        assert runs[i - 1].End() != runs[i - 1 + 1].start;
      }
    }
  }

  /** `r` put in its place touches at most the entry before it. */
  lemma PutTouches(f: FreeList, r: Entry)
    requires f.Good() && Sorted(f.runs) && Coalesced(f.runs) && IsRun(r) && Disjoint(f.runs, r) && !Joins(f, r)
    requires f.Full() ==> f.runs[|f.runs| - ENTRIES].pages > 1
    ensures var k, put := PlaceIn(f.runs, r.start), Put(f, PlaceIn(f.runs, r.start), r, true).runs;
      && Sorted(put) && |put| == |f.runs| + 1 && put[k] == r
      && (forall i :: 0 <= i < |put| - 1 && i + 1 != k ==> put[i].End() != put[i + 1].start)
      && (k > 0 ==> (put[k - 1].End() == r.start <==> TouchesBefore(f, r)))
  {
    hide Free, InRun, PlaceIn, Disjoint, Coalesced, Opened;
    var k := PlaceIn(f.runs, r.start);
    PutGood(f, k, r, true);
    PutKeeps(f, r);
    RoomBetween(f.runs, r);
    BaseEnds(f);
    InsertTouches(f.runs, Base(f), r, k);
  }

  /** Merging the only two neighbours that touch leaves none. */
  lemma MergedSettles(runs: seq<Entry>, j: nat)
    requires Sorted(runs) && j + 1 < |runs| && runs[j].End() == runs[j + 1].start
    requires forall i :: 0 <= i < |runs| - 1 && i != j ==> runs[i].End() != runs[i + 1].start
    ensures Sorted(MergedAt(runs, j)) && Coalesced(MergedAt(runs, j))
  {
    var merged := MergedAt(runs, j);
    MergeSorted(runs, j);
    MergeBytes(runs[j], runs[j + 1], 0);
    forall i | 0 <= i < |merged| - 1
      ensures merged[i].End() != merged[i + 1].start
    {
      if i < j {
        assert merged[i] == runs[i] && merged[i + 1].start == runs[i + 1].start;
      } else {
        assert merged[i].End() == runs[i + 1].End() && merged[i + 1] == runs[i + 2];
        assert runs[i + 1].End() != runs[i + 1 + 1].start;
      }
    }
  }

  /** The first merge leaves a copy behind. */
  lemma {:induction false} FirstMergeStale(f: FreeList, i: nat, j: nat)
    requires f.Good() && i <= j && Touching(f.runs, j) && (forall k :: i <= k < j ==> !Touching(f.runs, k))
    requires Stale(f.runs, j + 1)
    ensures !CleanSquash(f, i)
    decreases j - i
  {
    hide CleanSquash;
    CleanStep(f, i);
    if i < j {
      FirstMergeStale(f, i + 1, j);
    }
  }

  /** `r` merges with the entry before it: that is on the same page, and `r` does not join the one after it. */
  ghost predicate MergesBefore(f: FreeList, r: Entry)
    requires f.Good() && r.Usable?
  {
    Recorded(f, r) && TouchesBefore(f, r) && !Joins(f, r) && PlaceIn(f.runs, r.start) % ENTRIES != 0
  }

  /** At most the entry before the `k`-th touches it. */
  ghost predicate OnlyBefore(runs: seq<Entry>, k: nat)
    requires AllRuns(runs)
  {
    forall i :: 0 <= i < |runs| - 1 && i + 1 != k ==> runs[i].End() != runs[i + 1].start
  }

  lemma OnlyBeforeTouching(runs: seq<Entry>, k: nat)
    requires AllRuns(runs) && OnlyBefore(runs, k)
    ensures forall i :: 0 <= i && i + 1 != k ==> !Touching(runs, i)
  {
  }

  lemma SquashMerges(put: FreeList, s: nat, k: nat)
    requires put.Good() && Sorted(put.runs) && 0 < k && Touching(put.runs, k - 1) && OnlyBefore(put.runs, k)
    requires s <= k - 1
    ensures CleanSquash(put, s) <==> !Stale(put.runs, k)
    ensures CleanSquash(put, s) ==> Sorted(Squashed(put, s).runs) && Coalesced(Squashed(put, s).runs)
  {
    hide MergedAt, Stale, CleanSquash, Squashed, MergedOnce, Touching;
    OnlyBeforeTouching(put.runs, k);
    if Stale(put.runs, k) {
      FirstMergeStale(put, s, k - 1);
    } else {
      TouchingEnds(put.runs, k - 1);
      MergedOnceIs(put, k - 1);
      MergedSettles(put.runs, k - 1);
      CoalescedNone(MergedAt(put.runs, k - 1));
      SquashOne(put, s, k - 1);
    }
  }

  lemma TouchingEnds(runs: seq<Entry>, i: nat)
    requires Touching(runs, i)
    ensures i + 1 < |runs| && runs[i].Usable? && runs[i + 1].Usable? && runs[i].End() == runs[i + 1].start
  {
  }

  lemma SquashStays(put: FreeList, s: nat, k: nat)
    requires put.Good() && Sorted(put.runs) && OnlyBefore(put.runs, k) && k < |put.runs|
    requires k > 0 ==> !Touching(put.runs, k - 1)
    ensures CleanSquash(put, s) && Squashed(put, s) == put
    ensures Coalesced(put.runs) <==> !(k > 0 && put.runs[k - 1].End() == put.runs[k].start)
  {
    hide CleanSquash, Squashed, Touching;
    OnlyBeforeTouching(put.runs, k);
    SquashNone(put, s);
    assert k > 0 ==> put.runs[k - 1 + 1] == put.runs[k];
  }

  /** Squashing after `r` was put into a coalesced list: one merge, or none. */
  lemma SquashAfterPut(f: FreeList, r: Entry)
    requires f.Good() && Sorted(f.runs) && Coalesced(f.runs) && IsRun(r) && Disjoint(f.runs, r) && !Joins(f, r)
    requires Recorded(f, r)
    requires f.Full() ==> f.runs[|f.runs| - ENTRIES].pages > 1
    ensures var k := PlaceIn(f.runs, r.start);
      && var put, s := Put(f, k, r, true), PageStart(k, |f.runs|);
      && put.Good() && |put.runs| == |f.runs| + 1
      && (CleanSquash(put, s) <==> !(MergesBefore(f, r) && Stale(put.runs, k)))
      && (CleanSquash(put, s) ==> SettledAs(Squashed(put, s).runs, !(TouchesBefore(f, r) && k % ENTRIES == 0)))
  {
    hide Free, InRun, PlaceIn, Disjoint, Put, Stale, CleanSquash, Squashed, Recorded, Coalesced, Sorted, PageStart;
    var k := PlaceIn(f.runs, r.start);
    var put, s := Put(f, k, r, true), PageStart(k, |f.runs|);
    PutGood(f, k, r, true);
    PutTouches(f, r);
    if MergesBefore(f, r) {
      PlaceOnPage(f, r);
      SquashMerges(put, s, k);
    } else {
      SquashStays(put, s, k);
    }
  }

  ghost predicate SettledAs(runs: seq<Entry>, coalesced: bool) {
    Sorted(runs) && (Coalesced(runs) <==> coalesced)
  }

  lemma PlaceOnPage(f: FreeList, r: Entry)
    requires f.Good() && r.Usable? && Recorded(f, r) && PlaceIn(f.runs, r.start) % ENTRIES != 0
    ensures var k := PlaceIn(f.runs, r.start);
      k < |f.runs| && PageStart(k, |f.runs|) <= k - 1 && (k - 1) % ENTRIES != ENTRIES - 1
  {
  }

  /**
   On a coalesced list, returning a run leaves no copy behind exactly when a new entry page leaves its
   entry something, and a merge with the entry before does not come right after the last slot was filled.
   */
  lemma CleanOnCoalesced(f: FreeList, r: Entry, frame: bool)
    requires f.Good() && Sorted(f.runs) && Coalesced(f.runs) && IsRun(r) && Disjoint(f.runs, r)
    ensures CleanGive(f, r, frame)
       <==> && (Opens(f, r) ==> f.runs[|f.runs| - ENTRIES].pages > 1)
            && !(MergesBefore(f, r) && |f.runs| % ENTRIES == ENTRIES - 1)
  {
    hide PlaceIn, Disjoint, Put, CleanSquash, Squashed, Coalesced, TouchesBefore, Sorted, PageStart, SettledAs;
    var k := PlaceIn(f.runs, r.start);
    if Recorded(f, r) && !Joins(f, r) && (f.Full() ==> f.runs[|f.runs| - ENTRIES].pages > 1) {
      SquashAfterPut(f, r);
      if Kept(f, r, frame) {
        PutFrame(f, k, r, frame);
      }
      if k % ENTRIES != 0 {
        PlaceOnPage(f, r);
      }
    }
  }

  /**
   On a coalesced list, two neighbours touch afterwards exactly when the run filled a gap or opens a page right
   behind its neighbour.
   */
  lemma GaveCoalesced(f: FreeList, r: Entry, frame: bool)
    requires f.Good() && Sorted(f.runs) && Coalesced(f.runs) && IsRun(r) && Disjoint(f.runs, r)
    requires Kept(f, r, frame) && CleanGive(f, r, frame)
    ensures Sorted(Gave(f, r, frame).runs)
    ensures Coalesced(Gave(f, r, frame).runs)
       <==> !(TouchesBefore(f, r) && (Joins(f, r) || PlaceIn(f.runs, r.start) % ENTRIES == 0))
  {
    hide PlaceIn, Disjoint, Put, CleanSquash, Squashed;
    var k := PlaceIn(f.runs, r.start);
    GaveSorted(f, r, frame);
    if Joins(f, r) {
      JoinTouches(f.runs, r, k);
    } else {
      PutFrame(f, k, r, frame);
      SquashAfterPut(f, r);
    }
  }

  lemma JoinTouches(runs: seq<Entry>, r: Entry, k: nat)
    requires Sorted(runs) && Coalesced(runs) && IsRun(r) && k < |runs| && runs[k].start == r.End()
    requires Sorted(runs[k := Usable(r.start, runs[k].pages + r.pages)])
    ensures Coalesced(runs[k := Usable(r.start, runs[k].pages + r.pages)]) <==> !(k > 0 && runs[k - 1].End() == r.start)
  {
    var after := runs[k := Usable(r.start, runs[k].pages + r.pages)];
    if k > 0 && runs[k - 1].End() == r.start {
      assert after[k - 1].End() == after[k - 1 + 1].start;
    } else {
      forall i | 0 <= i < |after| - 1
        ensures after[i].End() != after[i + 1].start
      {
        assert runs[i].End() != runs[i + 1].start;
      }
    }
  }
}
