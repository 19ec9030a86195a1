/**
 The free list of the full-page allocator without its pages (kernel/src/memory/allocator/page.rs): what
 each operation does to the list of entries in use, mistakes included.
 */
module FreeLists {
  import opened Prelude

  /** Entries on one page. */
  const ENTRIES: nat := 170

  datatype Entry = Empty | Usable(start: nat, pages: nat) {
    function End(): nat
      requires Usable?
    {
      start + pages * PAGE_SIZE
    }
  }

  predicate IsRun(e: Entry) {
    e.Usable? && e.pages > 0
  }

  predicate AllRuns(runs: seq<Entry>) {
    forall i :: 0 <= i < |runs| ==> IsRun(runs[i])
  }

  /** The entries in use, and whether the last page of the chain holds none of them. */
  datatype FreeList = FreeList(runs: seq<Entry>, spare: bool) {

    /** No page has a slot left: one more entry needs one more entry page. */
    predicate Full() {
      !spare && |runs| % ENTRIES == 0
    }

    ghost predicate Good() {
      AllRuns(runs) && (runs == [] ==> spare)
    }
  }

  // ---------------------------------------------------------------- remove_entry

  /** Removing the `k`-th entry leaves a copy of the last one behind: nothing is pulled into the last slot. */
  predicate Stale(runs: seq<Entry>, k: nat) {
    |runs| % ENTRIES == 0 && k + 1 != |runs|
  }

  function Dropped(f: FreeList, k: nat): (g: FreeList)
    requires k < |f.runs|
  {
    var fewer := RemoveAt(f.runs, k);
    FreeList(if Stale(f.runs, k) then fewer + [f.runs[|f.runs| - 1]] else fewer, |f.runs| % ENTRIES == 1)
  }

  /** The entry that ends up at `j`. */
  lemma DroppedAt(f: FreeList, k: nat)
    requires k < |f.runs|
    ensures var g := Dropped(f, k);
      && |g.runs| == (if Stale(f.runs, k) then |f.runs| else |f.runs| - 1)
      && forall j :: 0 <= j < |g.runs| ==>
          g.runs[j] == f.runs[if j < k then j else if j + 1 < |f.runs| then j + 1 else j]
  {
  }

  // ---------------------------------------------------------------- alloc_pages

  /** Takes `n` pages from the front of the `k`-th entry. */
  function TakenFrom(f: FreeList, k: nat, n: nat): (g: FreeList)
    requires k < |f.runs| && f.runs[k].Usable? && n <= f.runs[k].pages
  {
    var e := f.runs[k];
    if e.pages == n then Dropped(f, k)
    else f.(runs := f.runs[k := Usable(e.start + n * PAGE_SIZE, e.pages - n)])
  }

  lemma TakenRuns(f: FreeList, k: nat, n: nat)
    requires f.Good() && k < |f.runs| && n <= f.runs[k].pages
    ensures TakenFrom(f, k, n).Good()
  {
    hide Dropped;
    DroppedAt(f, k);
    DroppedSpare(f, k);
  }

  lemma DroppedSpare(f: FreeList, k: nat)
    requires f.Good() && k < |f.runs|
    ensures Dropped(f, k).spare <==> |f.runs| % ENTRIES == 1
    ensures Dropped(f, k).runs == [] ==> Dropped(f, k).spare
  {
  }

  /** The first run of at least `n` pages; past the end when all are shorter. */
  ghost function FitIn(runs: seq<Entry>, n: nat): (k: nat)
    requires AllRuns(runs)
    ensures k <= |runs| && (k < |runs| ==> runs[k].pages >= n)
    ensures forall j :: 0 <= j < k ==> runs[j].pages < n
  {
    if runs == [] || runs[0].pages >= n then 0 else 1 + FitIn(runs[1..], n)
  }

  lemma FitIs(runs: seq<Entry>, n: nat, k: nat)
    requires AllRuns(runs) && k <= |runs| && (k < |runs| ==> runs[k].pages >= n)
    requires forall j :: 0 <= j < k ==> runs[j].pages < n
    ensures FitIn(runs, n) == k
  {
  }

  lemma FitBelow(page: seq<Entry>, runs: seq<Entry>, n: nat)
    requires AllRuns(page + runs) && AllRuns(runs) && forall i :: 0 <= i < |page| ==>
        page[i].Usable? && page[i].pages < n
    ensures FitIn(page + runs, n) == |page| + FitIn(runs, n)
  {
    var all, k := page + runs, FitIn(runs, n);
    assert forall j :: 0 <= j < |page| ==> all[j] == page[j];
    assert forall j :: 0 <= j < |runs| ==> all[|page| + j] == runs[j];
    FitIs(all, n, |page| + k);
  }

  /** Where the first run long enough starts. */
  ghost function FitStart(f: FreeList, n: nat): Option<nat>
    requires f.Good()
  {
    var k := FitIn(f.runs, n);
    if k < |f.runs| then Some(f.runs[k].start) else None
  }

  /** The first entry that starts at `start`; past the end when none does. */
  ghost function StartIn(runs: seq<Entry>, start: nat): (k: nat)
    requires AllRuns(runs)
    ensures k <= |runs| && (k < |runs| ==> runs[k].start == start)
    ensures forall j :: 0 <= j < k ==> runs[j].start != start
  {
    if runs == [] || runs[0].start == start then 0 else 1 + StartIn(runs[1..], start)
  }

  lemma StartIs(runs: seq<Entry>, start: nat, k: nat)
    requires AllRuns(runs) && k <= |runs| && (k < |runs| ==> runs[k].start == start)
    requires forall j :: 0 <= j < k ==> runs[j].start != start
    ensures StartIn(runs, start) == k
  {
  }

  /**
   What `alloc_pages` comes to: without such a run it returns, or panics past full pages; a run too short
   underflows.
   */
  datatype Cut = Done | NoRun | Overrun

  ghost function CutAnswer(f: FreeList, start: nat, pages: nat): Cut
    requires f.Good()
  {
    var k := StartIn(f.runs, start);
    if k == |f.runs| then if f.Full() then Overrun else NoRun
    else if pages <= f.runs[k].pages then Done
    else Overrun
  }

  /**
   It cuts exactly when the first entry with that start is long enough. Without such an entry it panics exactly
   when the pages are full.
   */
  lemma CutIs(f: FreeList, start: nat, pages: nat)
    requires f.Good()
    ensures CutAnswer(f, start, pages) == NoRun <==>
      (forall j :: 0 <= j < |f.runs| ==> f.runs[j].start != start) && (f.spare || |f.runs| % ENTRIES != 0)
    ensures CutAnswer(f, start, pages) == Done <==> exists k ::
      && 0 <= k < |f.runs| && f.runs[k].start == start && pages <= f.runs[k].pages
      && forall j :: 0 <= j < k ==> f.runs[j].start != start
  {
    hide StartIn;
    var k := StartIn(f.runs, start);
  }

  ghost function CutFrom(f: FreeList, start: nat, pages: nat): (g: FreeList)
    requires f.Good()
    ensures g.Good()
  {
    var k := StartIn(f.runs, start);
    if CutAnswer(f, start, pages) == Done then TakenRuns(f, k, pages); TakenFrom(f, k, pages) else f
  }

  /** What an allocation comes to: first fit finds a start, and the first run with that start is cut. */
  datatype Fit = At(start: nat) | NoFit | Panics

  ghost function FitAnswer(f: FreeList, n: nat): Fit
    requires f.Good()
  {
    var k := FitIn(f.runs, n);
    if k == |f.runs| then NoFit
    else if StartIn(f.runs, f.runs[k].start) == k then At(f.runs[k].start)
    else Panics
  }

  ghost function Took(f: FreeList, n: nat): (g: FreeList)
    requires f.Good()
    ensures g.Good()
  {
    var k := FitIn(f.runs, n);
    if FitAnswer(f, n).At? then TakenRuns(f, k, n); TakenFrom(f, k, n) else f
  }

  /**
   Finding a start and cutting the first run with it is `Took`; it panics exactly when an earlier run starts there
   too.
   */
  lemma FitThenCut(f: FreeList, n: nat)
    requires f.Good() && FitStart(f, n).Some?
    ensures CutAnswer(f, FitStart(f, n).value, n) == if FitAnswer(f, n).At? then Done else Overrun
    ensures CutFrom(f, FitStart(f, n).value, n) == Took(f, n)
    ensures !FitAnswer(f, n).NoFit? && (FitAnswer(f, n).At? ==> FitAnswer(f, n).start == FitStart(f, n).value)
  {
    hide FitIn, StartIn, TakenFrom;
  }

  // ---------------------------------------------------------------- insert_entry, append_entry

  /** A new entry page takes its page from the first entry of the page that was last so far. */
  ghost function Opened(f: FreeList): (g: FreeList)
    requires f.Good() && f.Full()
  {
    TakenFrom(f, |f.runs| - ENTRIES, 1)
  }

  lemma OpenedGood(f: FreeList)
    requires f.Good() && f.Full()
    ensures Opened(f).Good() && |Opened(f).runs| == |f.runs| && !Opened(f).spare
  {
    hide Dropped;
    TakenRuns(f, |f.runs| - ENTRIES, 1);
    DroppedAt(f, |f.runs| - ENTRIES);
    DroppedSpare(f, |f.runs| - ENTRIES);
  }

  /** `e` put at `k`. `frame` says whether a new entry page, if one is needed, can be mapped. */
  ghost function Put(f: FreeList, k: nat, e: Entry, frame: bool): FreeList
    requires f.Good() && k <= |f.runs|
  {
    if !f.Full() then FreeList(InsertAt(f.runs, k, e), false)
    else
      OpenedGood(f);
      if frame then FreeList(InsertAt(Opened(f).runs, k, e), false) else Opened(f)
  }

  lemma PutGood(f: FreeList, k: nat, e: Entry, frame: bool)
    requires f.Good() && k <= |f.runs| && IsRun(e)
    ensures Put(f, k, e, frame).Good()
    ensures |Put(f, k, e, frame).runs| == if f.Full() && !frame then |f.runs| else |f.runs| + 1
  {
    hide Opened;
    if f.Full() {
      OpenedGood(f);
    }
  }

  // ---------------------------------------------------------------- squash_entries

  function MergedOnce(f: FreeList, i: nat): FreeList
    requires i + 1 < |f.runs| && f.runs[i].Usable? && f.runs[i + 1].Usable?
  {
    Dropped(f.(runs := f.runs[i := Usable(f.runs[i].start, f.runs[i].pages + f.runs[i + 1].pages)]), i + 1)
  }

  /** The entries `i` and `i + 1` are on one page and touch. */
  predicate Touching(runs: seq<Entry>, i: nat) {
    && i + 1 < |runs| && i % ENTRIES != ENTRIES - 1
    && runs[i].Usable? && runs[i + 1].Usable? && runs[i].End() == runs[i + 1].start
  }

  ghost function Squashed(f: FreeList, i: nat): (g: FreeList)
    requires f.Good()
    ensures g.Good() && (f.runs != [] ==> g.runs != [])
    decreases if i < |f.runs| then |f.runs| - i else 0, Climb(f.runs, i)
  {
    if i + 1 >= |f.runs| then f
    else if Touching(f.runs, i) then MergedGood(f, i); Squashed(MergedOnce(f, i), i)
    else Squashed(f, i + 1)
  }

  /** The highest start of an entry. */
  ghost function Top(runs: seq<Entry>): (t: nat)
    requires AllRuns(runs)
    ensures forall i :: 0 <= i < |runs| ==> runs[i].start <= t
    ensures t > 0 ==> exists i :: 0 <= i < |runs| && runs[i].start == t
  {
    if runs == [] then 0
    else
      var t := Top(runs[1..]);
      assert forall i :: 0 < i < |runs| ==> runs[i] == runs[1..][i - 1];
      if runs[0].start > t then runs[0].start else t
  }

  /** How far the end of an entry can still rise by merging. */
  ghost function Climb(runs: seq<Entry>, i: nat): nat
    requires AllRuns(runs)
  {
    if i < |runs| && runs[i].End() <= Top(runs) then Top(runs) + 1 - runs[i].End() else 0
  }

  /** A merge that does not shorten the list raises the end of an entry, and no start. */
  lemma MergedGood(f: FreeList, i: nat)
    requires f.Good() && Touching(f.runs, i)
    ensures var g := MergedOnce(f, i);
      && g.Good() && i < |g.runs| && |g.runs| <= |f.runs|
      && (|g.runs| == |f.runs| ==> Climb(g.runs, i) < Climb(f.runs, i))
  {
    hide Dropped, Top;
    var e := Usable(f.runs[i].start, f.runs[i].pages + f.runs[i + 1].pages);
    var h := f.(runs := f.runs[i := e]);
    var g := MergedOnce(f, i);
    DroppedAt(h, i + 1);
    assert g.runs[i] == e;
    forall j | 0 <= j < |g.runs|
      ensures IsRun(g.runs[j]) && g.runs[j].start <= Top(f.runs)
    {
      assert g.runs[j] in h.runs;
    }
  }

  // ---------------------------------------------------------------- dealloc_pages

  /** The first entry that does not start below `start`. */
  ghost function PlaceIn(runs: seq<Entry>, start: nat): (k: nat)
    requires AllRuns(runs)
    ensures k <= |runs| && (k < |runs| ==> start <= runs[k].start)
    ensures forall j :: 0 <= j < k ==> runs[j].start < start
  {
    if runs == [] || start <= runs[0].start then 0 else 1 + PlaceIn(runs[1..], start)
  }

  lemma PlaceIs(runs: seq<Entry>, start: nat, k: nat)
    requires AllRuns(runs) && k <= |runs| && (k < |runs| ==> start <= runs[k].start)
    requires forall j :: 0 <= j < k ==> runs[j].start < start
    ensures PlaceIn(runs, start) == k
  {
  }

  /** A returned run that lies above every entry is forgotten, unless the pages are full. */
  ghost predicate Recorded(f: FreeList, r: Entry)
    requires f.Good() && r.Usable?
  {
    f.Full() || PlaceIn(f.runs, r.start) < |f.runs|
  }

  /** A returned run that ends where the entry at its place starts is added to that entry. */
  ghost predicate Joins(f: FreeList, r: Entry)
    requires f.Good() && r.Usable?
  {
    var k := PlaceIn(f.runs, r.start);
    k < |f.runs| && f.runs[k].start == r.End()
  }

  /** Returning `r` needs a new entry page. */
  ghost predicate Opens(f: FreeList, r: Entry)
    requires f.Good() && r.Usable?
  {
    f.Full() && !Joins(f, r)
  }

  /** The first slot of the page the `k`-th entry is on; an entry past a full page counts as on that page. */
  function PageStart(k: nat, n: nat): nat {
    var i := if k < n || k == 0 then k else k - 1;
    i - i % ENTRIES
  }

  ghost function Gave(f: FreeList, r: Entry, frame: bool): (g: FreeList)
    requires f.Good() && IsRun(r)
    ensures g.Good()
  {
    var k := PlaceIn(f.runs, r.start);
    if !Recorded(f, r) then f
    else if Joins(f, r) then f.(runs := f.runs[k := Usable(r.start, f.runs[k].pages + r.pages)])
    else
      PutGood(f, k, r, frame);
      if Opens(f, r) && !frame then Opened(f) else Squashed(Put(f, k, r, frame), PageStart(k, |f.runs|))
  }

  // ---------------------------------------------------------------- one full page in front

  /** The list of a chain whose first page is full. */
  function Before(page: seq<Entry>, f: FreeList): FreeList {
    FreeList(page + f.runs, f.spare)
  }

  lemma BeforeGood(page: seq<Entry>, f: FreeList)
    requires |page| == ENTRIES && Before(page, f).Good() && (f.runs == [] ==> f.spare)
    ensures f.Good() && AllRuns(page) && (Before(page, f).Full() <==> f.Full())
  {
    assert forall i :: 0 <= i < |f.runs| ==> f.runs[i] == (page + f.runs)[ENTRIES + i];
    assert forall i :: 0 <= i < ENTRIES ==> page[i] == (page + f.runs)[i];
  }

  lemma DroppedBelow(page: seq<Entry>, f: FreeList, k: nat)
    requires |page| == ENTRIES && k < |f.runs|
    ensures Dropped(Before(page, f), ENTRIES + k) == Before(page, Dropped(f, k))
  {
    var g := Before(page, f);
    RemoveAtJoin(page, f.runs, k);
    assert Stale(g.runs, ENTRIES + k) <==> Stale(f.runs, k);
    ConcatAssoc(page, RemoveAt(f.runs, k), [f.runs[|f.runs| - 1]]);
  }

  lemma TakenBelow(page: seq<Entry>, f: FreeList, k: nat, n: nat)
    requires |page| == ENTRIES && k < |f.runs| && f.runs[k].Usable? && n <= f.runs[k].pages
    ensures TakenFrom(Before(page, f), ENTRIES + k, n) == Before(page, TakenFrom(f, k, n))
  {
    hide Dropped;
    var e := f.runs[k];
    DroppedBelow(page, f, k);
    UpdateJoin(page, f.runs, k, Usable(e.start + n * PAGE_SIZE, if n <= e.pages then e.pages - n else 0));
  }

  lemma StartBelow(page: seq<Entry>, runs: seq<Entry>, start: nat)
    requires AllRuns(page + runs) && AllRuns(runs) && AllRuns(page)
    requires forall i :: 0 <= i < |page| ==> page[i].start != start
    ensures StartIn(page + runs, start) == |page| + StartIn(runs, start)
  {
    hide StartIn;
    var all, k := page + runs, StartIn(runs, start);
    assert forall j :: 0 <= j < |page| ==> all[j] == page[j];
    assert forall j :: 0 <= j < |runs| ==> all[|page| + j] == runs[j];
    StartIs(all, start, |page| + k);
  }

  lemma RunBelow(page: seq<Entry>, runs: seq<Entry>, k: nat)
    requires AllRuns(runs)
    ensures k < |runs| ==> (page + runs)[|page| + k] == runs[k] && runs[k].Usable?
  {
  }

  /** A run past a full page of others is cut from the rest of the chain. */
  lemma CutBelow(page: seq<Entry>, f: FreeList, start: nat, pages: nat)
    requires |page| == ENTRIES && Before(page, f).Good() && f.Good()
    requires AllRuns(page) && forall i :: 0 <= i < ENTRIES ==> page[i].start != start
    ensures CutAnswer(Before(page, f), start, pages) == CutAnswer(f, start, pages)
    ensures CutFrom(Before(page, f), start, pages) == Before(page, CutFrom(f, start, pages))
  {
    hide StartIn, TakenFrom, AllRuns;
    var k := StartIn(f.runs, start);
    BeforeGood(page, f);
    StartBelow(page, f.runs, start);
    RunBelow(page, f.runs, k);
    if CutAnswer(f, start, pages) == Done {
      TakenBelow(page, f, k, pages);
    }
  }

  lemma OpenedBelow(page: seq<Entry>, f: FreeList)
    requires |page| == ENTRIES && Before(page, f).Good() && f.Good() && f.Full()
    ensures Before(page, f).Full() && Opened(Before(page, f)) == Before(page, Opened(f))
  {
    hide TakenFrom;
    TakenBelow(page, f, |f.runs| - ENTRIES, 1);
  }

  lemma PutBelow(page: seq<Entry>, f: FreeList, k: nat, e: Entry, frame: bool)
    requires |page| == ENTRIES && Before(page, f).Good() && f.Good() && k <= |f.runs|
    ensures Put(Before(page, f), ENTRIES + k, e, frame) == Before(page, Put(f, k, e, frame))
  {
    hide Opened;
    if f.Full() {
      OpenedBelow(page, f);
      OpenedGood(f);
      OpenedGood(Before(page, f));
      InsertAtJoin(page, Opened(f).runs, k, e);
    } else {
      InsertAtJoin(page, f.runs, k, e);
    }
  }

  lemma MergedBelow(page: seq<Entry>, f: FreeList, i: nat)
    requires |page| == ENTRIES && i + 1 < |f.runs| && f.runs[i].Usable? && f.runs[i + 1].Usable?
    ensures MergedOnce(Before(page, f), ENTRIES + i) == Before(page, MergedOnce(f, i))
  {
    hide Dropped;
    var e := Usable(f.runs[i].start, f.runs[i].pages + f.runs[i + 1].pages);
    UpdateJoin(page, f.runs, i, e);
    DroppedBelow(page, f.(runs := f.runs[i := e]), i + 1);
  }

  lemma {:induction false} SquashedBelow(page: seq<Entry>, f: FreeList, i: nat)
    requires |page| == ENTRIES && Before(page, f).Good() && f.Good()
    ensures Squashed(Before(page, f), ENTRIES + i) == Before(page, Squashed(f, i))
    decreases if i < |f.runs| then |f.runs| - i else 0, Climb(f.runs, i)
  {
    hide MergedOnce, Climb;
    if i + 1 < |f.runs| {
      assert Touching(Before(page, f).runs, ENTRIES + i) <==> Touching(f.runs, i);
      if Touching(f.runs, i) {
        MergedGood(f, i);
        MergedGood(Before(page, f), ENTRIES + i);
        MergedBelow(page, f, i);
        SquashedBelow(page, MergedOnce(f, i), i);
      } else {
        SquashedBelow(page, f, i + 1);
      }
    }
  }

  lemma PlaceBelow(page: seq<Entry>, runs: seq<Entry>, start: nat)
    requires AllRuns(page + runs) && AllRuns(runs) && AllRuns(page) && forall i :: 0 <= i < |page| ==>
        page[i].start < start
    ensures PlaceIn(page + runs, start) == |page| + PlaceIn(runs, start)
  {
    var all, k := page + runs, PlaceIn(runs, start);
    assert forall j :: 0 <= j < |page| ==> all[j] == page[j];
    assert forall j :: 0 <= j < |runs| ==> all[|page| + j] == runs[j];
    PlaceIs(all, start, |page| + k);
  }

  lemma PageStartBelow(k: nat, n: nat)
    requires k <= n && n > 0
    ensures PageStart(ENTRIES + k, ENTRIES + n) == ENTRIES + PageStart(k, n)
  {
  }

  lemma RecordedBelow(page: seq<Entry>, f: FreeList, r: Entry)
    requires |page| == ENTRIES && Before(page, f).Good() && f.Good() && r.Usable?
    requires AllRuns(page) && forall i :: 0 <= i < ENTRIES ==> page[i].start < r.start
    ensures Recorded(Before(page, f), r) <==> Recorded(f, r)
    ensures Joins(Before(page, f), r) <==> Joins(f, r)
    ensures PlaceIn(Before(page, f).runs, r.start) == ENTRIES + PlaceIn(f.runs, r.start)
  {
    PlaceBelow(page, f.runs, r.start);
    BeforeGood(page, f);
  }

  /** Past a full page of lower entries, a run is returned to the rest of the chain. */
  lemma GaveBelow(page: seq<Entry>, f: FreeList, r: Entry, frame: bool)
    requires |page| == ENTRIES && Before(page, f).Good() && f.Good() && IsRun(r)
    requires AllRuns(page) && forall i :: 0 <= i < ENTRIES ==> page[i].start < r.start
    ensures Gave(Before(page, f), r, frame) == Before(page, Gave(f, r, frame))
  {
    hide Put, Squashed, Opened, PlaceIn, Recorded, Joins, PageStart;
    var k := PlaceIn(f.runs, r.start);
    RecordedBelow(page, f, r);
    BeforeGood(page, f);
    if Recorded(f, r) {
      if Joins(f, r) {
        JoinedBelow(page, f, r);
      } else {
        PlacedBelow(page, f, r, frame);
      }
    }
  }

  lemma JoinedBelow(page: seq<Entry>, f: FreeList, r: Entry)
    requires |page| == ENTRIES && f.Good() && IsRun(r) && Joins(f, r)
    ensures var k := PlaceIn(f.runs, r.start);
      && f.runs[k].Usable?
      && var e := Usable(r.start, f.runs[k].pages + r.pages);
      Before(page, f).runs[ENTRIES + k := e] == page + f.runs[k := e]
  {
    hide PlaceIn;
    var k := PlaceIn(f.runs, r.start);
    UpdateJoin(page, f.runs, k, Usable(r.start, f.runs[k].pages + r.pages));
  }

  lemma PlacedBelow(page: seq<Entry>, f: FreeList, r: Entry, frame: bool)
    requires |page| == ENTRIES && Before(page, f).Good() && f.Good() && IsRun(r) && Recorded(f, r)
    ensures var all, k := Before(page, f), PlaceIn(f.runs, r.start);
      && Put(all, ENTRIES + k, r, frame).Good() && Put(f, k, r, frame).Good()
      && (f.Full() ==> all.Full() && Opened(all) == Before(page, Opened(f)))
      && Squashed(Put(all, ENTRIES + k, r, frame), PageStart(ENTRIES + k, |all.runs|))
         == Before(page, Squashed(Put(f, k, r, frame), PageStart(k, |f.runs|)))
  {
    hide Put, Squashed, Opened, PlaceIn, PageStart;
    var all, k := Before(page, f), PlaceIn(f.runs, r.start);
    PutGood(f, k, r, frame);
    PutGood(all, ENTRIES + k, r, frame);
    PutBelow(page, f, k, r, frame);
    if f.Full() {
      OpenedBelow(page, f);
    }
    PageStartBelow(k, |f.runs|);
    SquashedBelow(page, Put(f, k, r, frame), PageStart(k, |f.runs|));
  }
}
