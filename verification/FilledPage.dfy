/**
 A run of calls that fills an entry page from one long free run and ends with the same pages handed out
 twice (kernel/src/memory/allocator/page.rs).
 */
module FilledPage {
  import opened Prelude
  import opened FreeLists
  import opened FreeRuns
  import opened ReturnedRuns
  import opened PageRuns

  /** The `j`-th page from `a` on. */
  function PageAt(a: nat, j: nat): Entry {
    Usable(a + j * PAGE_SIZE, 1)
  }

  /** Pages `from` to `to`, each a run of its own. */
  function Singles(a: nat, from: nat, to: nat): seq<Entry>
    requires from <= to
  {
    seq(to - from, j requires 0 <= j => PageAt(a, from + j))
  }

  function Evens(a: nat, n: nat): seq<Entry> {
    seq(n, j requires 0 <= j => PageAt(a, 2 * j))
  }

  function Odds(a: nat, n: nat): seq<Entry> {
    seq(n, j requires 0 <= j => PageAt(a, 2 * j + 1))
  }

  /** What is left of a run of `pages` pages after `n` of them. */
  function Rest(a: nat, pages: nat, n: nat): Entry
    requires n <= pages
  {
    Usable(a + n * PAGE_SIZE, pages - n)
  }

  function Takes(n: nat): seq<Call> {
    seq(n, _ => Take(1, true))
  }

  function GiveEvens(n: nat): seq<Call> {
    seq(n, i requires 0 <= i => Give(i, true))
  }

  /** Twice as many pages as there are slots but one are taken, and every other one is given back. */
  const SLOTS: nat := ENTRIES - 1

  function FillCalls(): seq<Call> {
    Takes(2 * SLOTS) + GiveEvens(SLOTS)
  }

  lemma {:induction false} TakesTo(a: nat, pages: nat, n: nat)
    requires n < pages
    ensures var s := Start([Usable(a, pages)]);
      Play(s, Takes(n)) == Pages(FreeList([Rest(a, pages, n)], false), Singles(a, 0, n), [])
  {
    if n > 0 {
      TakesTo(a, pages, n - 1);
      assert Takes(n)[..n - 1] == Takes(n - 1);
      TakeOne(a, pages, n - 1);
    } else {
      assert Rest(a, pages, 0) == Usable(a, pages);
    }
  }

  lemma TakeOne(a: nat, pages: nat, n: nat)
    requires n + 1 < pages
    ensures var s := Pages(FreeList([Rest(a, pages, n)], false), Singles(a, 0, n), []);
      && s.Good()
      && Step(s, Take(1, true)) == Pages(FreeList([Rest(a, pages, n + 1)], false), Singles(a, 0, n + 1), [])
  {
    var runs := [Rest(a, pages, n)];
    FitIs(runs, 1, 0);
    StartIs(runs, runs[0].start, 0);
    assert Singles(a, 0, n + 1) == Singles(a, 0, n) + [PageAt(a, n)];
  }

  /** The free list after `i` returns: every other page, and the rest of the long run. */
  function Combed(a: nat, pages: nat, n: nat, i: nat): seq<Entry>
    requires 2 * n <= pages
  {
    Evens(a, i) + [Rest(a, pages, 2 * n)]
  }

  /** Its entries are disjoint, and no two of them touch. */
  lemma CombedApart(a: nat, pages: nat, n: nat, i: nat)
    requires i <= n && 2 * n < pages
    ensures Sorted(Combed(a, pages, n, i)) && Coalesced(Combed(a, pages, n, i))
  {
    var runs := Combed(a, pages, n, i);
    forall j | 0 <= j < |runs|
      ensures IsRun(runs[j]) && runs[j].start == a + 2 * (if j < i then j else n) * PAGE_SIZE
      ensures j < i ==> runs[j].End() == a + (2 * j + 1) * PAGE_SIZE
    {
    }
  }

  ghost function AfterGives(a: nat, pages: nat, n: nat, i: nat): Pages
    requires i <= n && 2 * n < pages
  {
    Pages(FreeList(Combed(a, pages, n, i), false), Odds(a, i) + Singles(a, 2 * i, 2 * n), [])
  }

  lemma LiveShift(a: nat, n: nat, i: nat)
    requires i < n
    ensures var live := Odds(a, i) + Singles(a, 2 * i, 2 * n);
      i < |live| && live[i] == PageAt(a, 2 * i) && RemoveAt(live, i) == Odds(a, i + 1) + Singles(a, 2 * i + 2, 2 * n)
  {
    var live := Odds(a, i) + Singles(a, 2 * i, 2 * n);
    var fewer := Odds(a, i + 1) + Singles(a, 2 * i + 2, 2 * n);
    forall k | 0 <= k < |fewer|
      ensures RemoveAt(live, i)[k] == fewer[k]
    {
    }
  }

  lemma AfterGivesGood(a: nat, pages: nat, n: nat, i: nat)
    requires i <= n && 2 * n < pages
    ensures AfterGives(a, pages, n, i).Good()
  {
    CombedApart(a, pages, n, i);
    var live := Odds(a, i) + Singles(a, 2 * i, 2 * n);
    forall k | 0 <= k < |live|
      ensures IsRun(live[k])
    {
      assert live[k] == if k < i then PageAt(a, 2 * k + 1) else PageAt(a, 2 * i + (k - i));
    }
  }

  /** The place of the next page given back, and the list with it. */
  lemma CombedPut(a: nat, pages: nat, n: nat, i: nat)
    requires i < n && 2 * n < pages
    ensures AllRuns(Combed(a, pages, n, i)) && PlaceIn(Combed(a, pages, n, i), PageAt(a, 2 * i).start) == i
    ensures InsertAt(Combed(a, pages, n, i), i, PageAt(a, 2 * i)) == Combed(a, pages, n, i + 1)
    ensures Combed(a, pages, n, i)[i].start != PageAt(a, 2 * i).End()
  {
    var runs, r := Combed(a, pages, n, i), PageAt(a, 2 * i);
    CombedApart(a, pages, n, i);
    assert forall j :: 0 <= j < i ==> runs[j] == PageAt(a, 2 * j);
    assert runs[i] == Rest(a, pages, 2 * n);
    PlaceIs(runs, r.start, i);
    assert Evens(a, i + 1) == Evens(a, i) + [r];
  }

  lemma GiveOne(a: nat, pages: nat, n: nat, i: nat)
    requires i < n < ENTRIES && 2 * n < pages
    ensures AfterGives(a, pages, n, i).Good()
    ensures Step(AfterGives(a, pages, n, i), Give(i, true)) == AfterGives(a, pages, n, i + 1)
  {
    hide PlaceIn, Combed, Odds, Singles, Squashed;
    AfterGivesGood(a, pages, n, i);
    var s := AfterGives(a, pages, n, i);
    LiveShift(a, n, i);
    CombedPut(a, pages, n, i);
    GaveCombed(a, pages, n, i);
    var t := Step(s, Give(i, true));
    assert t.lost == [];
    assert t.live == Odds(a, i + 1) + Singles(a, 2 * (i + 1), 2 * n);
  }

  lemma GaveCombed(a: nat, pages: nat, n: nat, i: nat)
    requires i < n < ENTRIES && 2 * n < pages
    ensures var f, r := FreeList(Combed(a, pages, n, i), false), PageAt(a, 2 * i);
      && f.Good() && Gave(f, r, true) == FreeList(Combed(a, pages, n, i + 1), false)
      && Kept(f, r, true) && !Opens(f, r)
  {
    hide PlaceIn, Squashed, Coalesced, Sorted;
    var f, r := FreeList(Combed(a, pages, n, i), false), PageAt(a, 2 * i);
    var g := FreeList(Combed(a, pages, n, i + 1), false);
    assert |f.runs| == i + 1;
    CombedApart(a, pages, n, i + 1);
    CombedPut(a, pages, n, i);
    SortedRuns(g.runs);
    CoalescedNone(g.runs);
    SquashNone(g, 0);
  }

  lemma {:induction false} GivesTo(a: nat, pages: nat, n: nat, i: nat)
    requires i <= n < ENTRIES && 2 * n < pages
    ensures AfterGives(a, pages, n, 0).Good()
    ensures Play(AfterGives(a, pages, n, 0), GiveEvens(i)) == AfterGives(a, pages, n, i)
  {
    hide Step, AfterGives;
    AfterGivesGood(a, pages, n, 0);
    if i > 0 {
      GivesTo(a, pages, n, i - 1);
      assert GiveEvens(i)[..i - 1] == GiveEvens(i - 1);
      GiveOne(a, pages, n, i - 1);
    }
  }

  lemma {:induction false} PlayJoin(s: Pages, x: seq<Call>, y: seq<Call>)
    requires s.Good()
    ensures Play(s, x + y) == Play(Play(s, x), y)
    decreases |y|
  {
    hide Step;
    if y == [] {
      assert x + y == x;
    } else {
      var last := |y| - 1;
      PlayJoin(s, x, y[..last]);
      assert (x + y)[..|x + y| - 1] == x + y[..last];
    }
  }

  /** From one run of more than 338 pages, these calls leave 170 disjoint entries on one full page. */
  lemma FillsPage(a: nat, pages: nat)
    requires pages > 2 * SLOTS
    ensures Play(Start([Usable(a, pages)]), FillCalls()) == AfterGives(a, pages, SLOTS, SLOTS)
    ensures |AfterGives(a, pages, SLOTS, SLOTS).free.runs| == ENTRIES
    ensures Sorted(AfterGives(a, pages, SLOTS, SLOTS).free.runs)
  {
    hide Play, Sorted;
    var s := Start([Usable(a, pages)]);
    TakesTo(a, pages, 2 * SLOTS);
    assert Play(s, Takes(2 * SLOTS)) == AfterGives(a, pages, SLOTS, 0);
    GivesTo(a, pages, SLOTS, SLOTS);
    PlayJoin(s, Takes(2 * SLOTS), GiveEvens(SLOTS));
    CombedApart(a, pages, SLOTS, SLOTS);
  }

  /** One page more, and the rest of the long run is in the list twice. */
  lemma CopyLeft(a: nat, pages: nat)
    requires pages > 2 * SLOTS
    ensures AfterGives(a, pages, SLOTS, SLOTS).Good()
    ensures var t := Step(AfterGives(a, pages, SLOTS, SLOTS), Take(1, true));
      Twins(t.free, Evens(a, SLOTS)[1..], Rest(a, pages, 2 * SLOTS))
  {
    hide Twins, Sorted, Dropped;
    AfterGivesGood(a, pages, SLOTS, SLOTS);
    var f := AfterGives(a, pages, SLOTS, SLOTS).free;
    CombedApart(a, pages, SLOTS, SLOTS);
    assert f.runs[0] == PageAt(a, 0);
    FitIs(f.runs, 1, 0);
    StartIs(f.runs, f.runs[0].start, 0);
    DroppedTwins(f, 0);
    var fewer := RemoveAt(f.runs, 0);
    assert fewer[..|fewer| - 1] == Evens(a, SLOTS)[1..];
    assert f.runs[|f.runs| - 1] == Rest(a, pages, 2 * SLOTS);
  }

  /** Two more allocations of more than half of that rest hand out the same run. */
  lemma SameRunTwice(a: nat, pages: nat, n: nat)
    requires pages > 2 * SLOTS && 1 < n <= pages - 2 * SLOTS < 2 * n
    ensures var before := Play(Start([Usable(a, pages)]), FillCalls() + [Take(1, true)]);
      && var after := Play(Start([Usable(a, pages)]), FillCalls() + [Take(1, true), Take(n, true), Take(n, true)]);
      && var r := Usable(a + 2 * SLOTS * PAGE_SIZE, n);
      after.live == before.live + [r, r]
  {
    hide Step, Twins, AfterGives;
    var s := Start([Usable(a, pages)]);
    FillsPage(a, pages);
    CopyLeft(a, pages);
    var full := Play(s, FillCalls());
    var t := Step(full, Take(1, true));
    var z := Rest(a, pages, 2 * SLOTS);
    TwinOutTwice(t, Evens(a, SLOTS)[1..], z, n);
    PlayOne(s, FillCalls(), Take(1, true));
    PlayOne(s, FillCalls() + [Take(1, true)], Take(n, true));
    PlayOne(s, FillCalls() + [Take(1, true)] + [Take(n, true)], Take(n, true));
    assert FillCalls() + [Take(1, true), Take(n, true), Take(n, true)]
        == FillCalls() + [Take(1, true)] + [Take(n, true)] + [Take(n, true)];
  }

  lemma PlayOne(s: Pages, calls: seq<Call>, c: Call)
    requires s.Good()
    ensures Play(s, calls + [c]) == Step(Play(s, calls), c)
  {
    hide Step;
    assert (calls + [c])[..|calls|] == calls;
  }
}
