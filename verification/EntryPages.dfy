/** The chained entry pages and the operations on them (kernel/src/memory/allocator/page.rs). */
module EntryPages {
  import opened Prelude
  import opened FreeLists
  import opened FreeRuns
  import opened EntryLists

  class EntryPage {
    const entries: array<Entry>
    var next: EntryPage?
    ghost var model: PageList
    ghost var Repr: set<object>

    ghost predicate Valid()
      reads this, Repr
      ensures Valid() ==> this in Repr
    {
      && this in Repr && entries in Repr && entries.Length == ENTRIES
      && model.Page? && model == Page(entries[..], model.next)
      && (next == null ==> model.next == PageList.Nil)
      && (next != null ==>
           && next in Repr && next.Repr <= Repr && this !in next.Repr && entries !in next.Repr
           && next.Valid() && model.next == next.model)
    }

    /** A chain in shape whose entries are runs. */
    ghost predicate Good()
      reads this, Repr
    {
      Valid() && Insertable(model)
    }

    lemma ModelSized()
      requires Valid()
      ensures Sized(model)
      decreases Repr
    {
      if next != null {
        next.ModelSized();
      }
    }

    /** One page whose used entries are `runs`. */
    constructor (runs: seq<Entry>)
      requires |runs| <= ENTRIES && AllRuns(runs)
      ensures Good() && fresh(Repr) && next == null && View(model) == FreeList(runs, runs == [])
      ensures runs == [] ==> entries[..] == Blank()
    {
      entries := new Entry[ENTRIES](i requires 0 <= i < ENTRIES => if i < |runs| then runs[i] else Empty);
      next := null;
      new;
      model := Page(entries[..], PageList.Nil);
      Repr := {this, entries};
      assert Packed(entries[..], |runs|);
      PackedCount(entries[..], |runs|);
      ViewLast(model);
      assert entries[..|runs|] == runs;
      assert Shaped(model);
    }

    method FindFreePages(n: nat) returns (r: Option<nat>)
      requires Good()
      ensures View(model).Good() && r == FitStart(View(model), n)
      decreases Repr
    {
      hide Packed, Shaped, Flat, Spare, FitIn;
      ghost var flat := Flat(model);
      InsertableNext(model);
      FirstPage(model);
      for i := 0 to ENTRIES
        invariant i <= Count(entries[..]) && forall j :: 0 <= j < i ==> flat[j].pages < n
      {
        if entries[i] == Empty {
          FitIs(flat, n, i);
          return None;
        }
        if entries[i].pages >= n {
          FitIs(flat, n, i);
          return Some(entries[i].start);
        }
      }
      if next == null {
        FitIs(flat, n, ENTRIES);
        return None;
      }
      assert next.Valid();
      NextPage(model);
      r := next.FindFreePages(n);
      FitBelow(entries[..], Flat(model.next), n);
    }

    method ShiftEntriesUp(idx: nat, e: Entry)
      requires entries.Length == ENTRIES && idx < ENTRIES
      modifies entries
      ensures entries[..] == ShiftUp(old(entries[..]), idx, e)
    {
      forall i | idx < i < ENTRIES {
        entries[i] := entries[i - 1];
      }
      entries[idx] := e;
    }

    method ShiftEntriesDown(idx: nat) returns (e: Entry)
      requires entries.Length == ENTRIES && idx < ENTRIES
      modifies entries
      ensures e == old(entries[idx]) && entries[..] == ShiftDown(old(entries[..]), idx)
    {
      e := entries[idx];
      entries[idx] := Empty;
      forall i | idx <= i < ENTRIES - 1 {
        entries[i] := entries[i + 1];
      }
    }

    /** Overwrites one entry. */
    method SetEntry(i: nat, e: Entry)
      requires Valid() && i < ENTRIES
      modifies this, entries
      ensures Valid() && Repr == old(Repr) && next == old(next)
      ensures model == old(model).(entries := old(model).entries[i := e])
    {
      entries[i] := e;
      model := model.(entries := entries[..]);
    }

    /** Unlinks the last page of the chain. */
    method RemoveEntryPage()
      requires Valid() && next != null
      modifies Repr
      ensures Valid() && Repr == old(Repr) && entries[..] == old(entries[..])
      ensures model == DropLast(old(model))
      decreases Repr
    {
      if next.next == null {
        next := null;
        model := model.(next := PageList.Nil);
      } else {
        next.RemoveEntryPage();
        model := model.(next := next.model);
      }
    }

    method RemoveEntry(idx: nat) returns (e: Entry)
      requires Valid() && idx < ENTRIES
      modifies Repr
      ensures Valid() && Repr == old(Repr) && (old(next) == null ==> next == null)
      ensures Sized(old(model)) && model == Removed(old(model), idx) && e == old(entries[idx])
      decreases Repr
    {
      hide ShiftDown;
      ModelSized();
      var end: Option<Entry> := None;
      if next != null {
        var pulled := next.RemoveEntry(0);
        end := Some(pulled);
      }
      e := ShiftEntriesDown(idx);
      if end.Some? && end.value.Usable? {
        entries[ENTRIES - 1] := end.value;
      }
      model := Page(entries[..], if next == null then PageList.Nil else next.model);
      if end == Some(Empty) {
        RemoveEntryPage();
      }
    }

    /** Takes `pages` pages from the front of the first run that starts at `start`. */
    method AllocPages(start: nat, pages: nat) returns (r: Cut)
      requires Good()
      modifies Repr
      ensures Good() && Repr == old(Repr) && (old(next) == null ==> next == null) && old(View(model)).Good()
      ensures r == CutAnswer(old(View(model)), start, pages) && View(model) == CutFrom(old(View(model)), start, pages)
      decreases Repr
    {
      hide Packed, Shaped, Flat, Spare, AllRuns, Insertable, CutAnswer, CutFrom;
      ghost var list := model;
      InsertableNext(list);
      for i := 0 to ENTRIES
        invariant Valid() && Repr == old(Repr) && next == old(next) && model == list && OthersTo(list, start, i)
      {
        AtRun(list, start, pages, i);
        if entries[i] == Empty {
          return NoRun;
        }
        if entries[i].start != start {
          continue;
        }
        if entries[i].pages == pages {
          UsedUp(list, start, pages, i);
          var _ := RemoveEntry(i);
        } else if entries[i].pages < pages {
          return Overrun;
        } else {
          Shortened(list, start, pages, i);
          SetEntry(i, Usable(start + pages * PAGE_SIZE, entries[i].pages - pages));
        }
        return Done;
      }
      PastRuns(list, start, pages);
      if next == null {
        return Overrun;
      }
      assert next.Valid();
      r := next.AllocPages(start, pages);
      model := model.(next := next.model);
      CutRest(list, start, pages, next.model);
    }

    /** First fit, and the first run that starts there is cut. */
    method Allocate(n: nat) returns (r: Fit)
      requires Good()
      modifies Repr
      ensures Good() && Repr == old(Repr) && old(View(model)).Good()
      ensures r == FitAnswer(old(View(model)), n) && View(model) == Took(old(View(model)), n)
    {
      hide Packed, Shaped, Flat, Spare, AllRuns, Insertable, TakenFrom, FitIn, StartIn, CutAnswer, CutFrom;
      ghost var f := View(model);
      InsertableNext(model);
      var start := FindFreePages(n);
      if start.None? {
        return NoFit;
      }
      FitThenCut(f, n);
      var cut := AllocPages(start.value, n);
      return if cut == Done then At(start.value) else Panics;
    }

    /** Takes a page from the free list for one more entry page behind this one, which is the last, and full. */
    method AddEntryPage(frame: bool) returns (ok: bool)
      requires Good() && next == null && LastFull(model)
      modifies Repr
      ensures Valid() && fresh(Repr - old(Repr)) && ok == frame && IsRun(old(entries[0]))
      ensures model == Page(PageTaken(old(entries[..])), if frame then Page(Blank(), PageList.Nil) else PageList.Nil)
      ensures frame ==> next != null && next.Good() && next.next == null && !LastFull(next.model)
    {
      hide Packed, Shaped, Flat, Spare, PageTaken, Blank, TakenFrom, FitIn, StartIn;
      ghost var page := entries[..];
      FullAlone(model);
      PageTakenOpens(page);
      FirstRunFits(page);
      var r := FindFreePages(1);
      var _ := AllocPages(r.value, 1);
      OnlyPage(model, PageTaken(page));
      if !frame {
        return false;
      }
      next := new EntryPage([]);
      ViewShape(next.model);
      model := model.(next := next.model);
      Repr := Repr + next.Repr;
      return true;
    }

    /** Passes the last entry of a full page on to the next page, or to a new one. */
    method PassOn(frame: bool) returns (ok: bool)
      requires Good() && Count(model.entries) == ENTRIES
      modifies Repr
      ensures Valid() && fresh(Repr - old(Repr))
      ensures model == Overflowed(old(model), frame) && (ok <==> frame || !LastFull(old(model)))
      decreases LastFull(model), model, 0
    {
      hide ShiftUp, Packed, PageTaken, Blank, Flat, AllRuns;
      InsertableNext(model);
      var last := entries[ENTRIES - 1];
      if next != null {
        assert next.Valid();
        ok := next.InsertEntry(0, last, frame);
      } else {
        ok := AddEntryPage(frame);
        if !ok {
          return;
        }
        InsertableNext(next.model);
        ok := next.InsertEntry(0, last, frame);
      }
      Repr := Repr + next.Repr;
      model := model.(next := next.model);
    }

    method InsertEntry(idx: nat, e: Entry, frame: bool) returns (ok: bool)
      requires Good() && idx < ENTRIES
      modifies Repr
      ensures Valid() && fresh(Repr - old(Repr))
      ensures model == Inserted(old(model), idx, e, frame) && (ok <==> frame || !LastFull(old(model)))
      decreases LastFull(model), model, 1
    {
      hide ShiftUp, Packed, PageTaken, Blank, Flat, AllRuns, Overflowed;
      InsertableNext(model);
      if entries[ENTRIES - 1].Usable? {
        InsertedOverflow(model, idx, e, frame);
        ok := PassOn(frame);
        if !ok {
          return;
        }
      }
      ShiftEntriesUp(idx, e);
      model := model.(entries := entries[..]);
      return true;
    }

    method AppendEntry(e: Entry, frame: bool) returns (ok: bool)
      requires Good()
      modifies Repr
      ensures Valid() && fresh(Repr - old(Repr))
      ensures model == Appended(old(model), e, frame) && (ok <==> frame || !LastFull(old(model)))
      decreases LastFull(model), model
    {
      hide Packed, PageTaken, Blank, Flat, AllRuns;
      InsertableNext(model);
      FirstPage(model);
      var i := 0;
      while i < ENTRIES && entries[i].Usable?
        invariant 0 <= i <= Count(entries[..])
      {
        i := i + 1;
      }
      if i < ENTRIES {
        SetEntry(i, e);
        return true;
      }
      if next != null {
        assert next.Valid();
        ok := next.AppendEntry(e, frame);
        Repr := Repr + next.Repr;
        model := model.(next := next.model);
        return;
      }
      ok := AddEntryPage(frame);
      if ok {
        InsertableNext(next.model);
        PackedCount(Blank(), 0);
        var _ := next.AppendEntry(e, frame);
        Repr := Repr + next.Repr;
        model := model.(next := next.model);
      }
    }

    /** Merges the entry at `i` with the one after it. */
    method MergeEntries(i: nat)
      requires Good() && i + 1 < Count(model.entries) && Touching(Flat(model), i)
      modifies Repr
      ensures Good() && Repr == old(Repr) && Squashing(old(View(model)), View(model), i)
    {
      hide Packed, Shaped, Flat, Spare, AllRuns, Squashing, Insertable, Touching, Removed;
      ghost var before := model;
      InsertableNext(before);
      MergedRefines(before, i);
      SetEntry(i, Usable(entries[i].start, entries[i].pages + entries[i + 1].pages));
      var _ := RemoveEntry(i + 1);
    }

    /** Merges neighbours that touch, page by page. */
    method SquashEntries()
      requires Good()
      modifies Repr
      ensures Good() && Repr == old(Repr) && old(View(model)).Good()
      ensures View(model) == Squashed(old(View(model)), 0)
      decreases Repr
    {
      hide Packed, Shaped, Flat, Spare, AllRuns, Squashed, MergedOnce, Touching, Climb, Insertable;
      ghost var f := View(model);
      InsertableNext(model);
      var i := 0;
      while i < ENTRIES - 1
        invariant 0 <= i <= ENTRIES - 1 && Repr == old(Repr) && Good() && View(model).Good()
        invariant Squashed(f, 0) == Squashed(View(model), i)
        decreases |View(model).runs| - i, Climb(View(model).runs, i)
      {
        AtSlot(model, i);
        if entries[i] == Empty || entries[i + 1] == Empty {
          return;
        }
        if entries[i].start + entries[i].pages * PAGE_SIZE == entries[i + 1].start {
          MergeEntries(i);
        } else {
          i := i + 1;
        }
      }
      PastPage(model);
      if next != null {
        assert next.Valid();
        InsertableNext(model);
        ghost var before := model;
        next.SquashEntries();
        model := model.(next := next.model);
        SquashedRest(before, next.model);
      }
    }

    /** Gives a run an entry of its own at its place on this page, and merges. */
    method InsertRun(i: nat, r: Entry, frame: bool) returns (ok: bool)
      requires Good() && IsRun(r) && View(model).Good() && PlacedAt(model, r, i)
      modifies Repr
      ensures Good() && fresh(Repr - old(Repr))
      ensures View(model) == Gave(old(View(model)), r, frame) && (ok <==> Opens(old(View(model)), r) ==> frame)
    {
      hide Packed, Shaped, Flat, Spare, AllRuns, Squashed, Insertable, Gave, Opens, Inserted, PlacedAt;
      InsertedEntry(model, r, i, frame);
      ok := InsertEntry(i, r, frame);
      if ok {
        SquashEntries();
      }
    }

    /** Gives a run an entry behind the last one of a full list, and merges. */
    method AppendRun(r: Entry, frame: bool) returns (ok: bool)
      requires Good() && IsRun(r) && next == null && LowerTo(model, r.start, ENTRIES)
      modifies Repr
      ensures Good() && fresh(Repr - old(Repr)) && old(View(model)).Good()
      ensures View(model) == Gave(old(View(model)), r, frame) && (ok <==> Opens(old(View(model)), r) ==> frame)
    {
      hide Packed, Shaped, Flat, Spare, AllRuns, Squashed, Insertable, Gave, Opens, Appended, LowerTo;
      AppendedEntry(model, r, frame);
      ok := AppendEntry(r, frame);
      if ok {
        SquashEntries();
      }
    }

    /** Returns a run. `frame` says whether a new entry page, if one is needed, can be mapped. */
    method DeallocPages(start: nat, pages: nat, frame: bool) returns (ok: bool)
      requires Good() && pages > 0
      modifies Repr
      ensures Good() && fresh(Repr - old(Repr)) && old(View(model)).Good()
      ensures View(model) == Gave(old(View(model)), Usable(start, pages), frame)
      ensures ok <==> Opens(old(View(model)), Usable(start, pages)) ==> frame
      decreases Repr
    {
      hide Packed, Shaped, Flat, Spare, AllRuns, Insertable, Gave, Opens, JoinsAt, PlacedAt;
      var r := Usable(start, pages);
      ghost var list := model;
      InsertableNext(model);
      for i := 0 to ENTRIES
        invariant Valid() && model == list && Repr == old(Repr) && next == old(next)
        invariant LowerTo(list, start, i)
      {
        AtPlace(list, r, i);
        if entries[i] == Empty {
          return true;
        }
        var s, p := entries[i].start, entries[i].pages;
        if s < start {
          continue;
        }
        if s == start + pages * PAGE_SIZE {
          JoinedEntry(list, r, i, frame);
          SetEntry(i, Usable(start, p + pages));
          return true;
        }
        ok := InsertRun(i, r, frame);
        return;
      }
      AllLower(list, r);
      if next != null {
        assert next.Valid();
        ok := next.DeallocPages(start, pages, frame);
        Repr := Repr + next.Repr;
        model := model.(next := next.model);
        GaveRest(list, r, frame, next.model);
      } else {
        ok := AppendRun(r, frame);
      }
    }

    /** The entries in use, over all pages. */
    method Used() returns (runs: seq<Entry>)
      requires Good()
      ensures runs == Flat(model)
      decreases Repr
    {
      hide Packed, Shaped, Flat;
      FirstPage(model);
      runs := [];
      for i := 0 to ENTRIES
        invariant i <= Count(entries[..]) && runs == entries[..i]
      {
        if entries[i] == Empty {
          return;
        }
        runs := runs + [entries[i]];
      }
      if next != null {
        assert next.Valid();
        InsertableNext(model);
        NextPage(model);
        var rest := next.Used();
        runs := runs + rest;
      }
    }
  }

  // ---------------------------------------------------------------- the flat list, page by page

  lemma NextPage(list: PageList)
    requires list.Page? && Shaped(list) && list.next.Page?
    ensures Shaped(list.next) && |list.entries| == ENTRIES == Count(list.entries)
    ensures Flat(list) == list.entries + Flat(list.next) && Flat(list)[ENTRIES..] == Flat(list.next)
  {
    ViewMore(list);
  }

  // ---------------------------------------------------------------- alloc_pages on a chain

  /** The first `i` entries of the first page do not start at `start`. */
  ghost predicate OthersTo(list: PageList, start: nat, i: nat)
    requires list.Page?
  {
    i <= Count(list.entries) && forall j :: 0 <= j < i ==> list.entries[j].start != start
  }

  /** The scan at slot `i`. */
  lemma AtRun(list: PageList, start: nat, pages: nat, i: nat)
    requires Insertable(list) && i < ENTRIES && OthersTo(list, start, i)
    ensures |list.entries| == ENTRIES && View(list).Good()
    ensures list.entries[i] == Empty ==>
        CutAnswer(View(list), start, pages) == NoRun && CutFrom(View(list), start, pages) == View(list)
    ensures list.entries[i].Usable? && list.entries[i].start != start ==> OthersTo(list, start, i + 1)
    ensures list.entries[i].Usable? && list.entries[i].start == start ==> RunAt(list, start, i)
    ensures list.entries[i].Usable? && list.entries[i].start == start && list.entries[i].pages < pages ==>
        CutAnswer(View(list), start, pages) == Overrun && CutFrom(View(list), start, pages) == View(list)
  {
    InsertableNext(list);
    FirstPage(list);
    ViewShape(list);
    if list.entries[i] == Empty {
      ViewLast(list);
      StartIs(Flat(list), start, i);
    } else if list.entries[i].start == start {
      StartIs(Flat(list), start, i);
    }
  }

  ghost predicate RunAt(list: PageList, start: nat, i: nat)
    requires Insertable(list)
  {
    && i < Count(list.entries) && i < ENTRIES && i < |Flat(list)| && StartIn(Flat(list), start) == i
    && i < |list.entries| && Flat(list)[i] == list.entries[i]
  }

  lemma UsedUp(list: PageList, start: nat, pages: nat, i: nat)
    requires Insertable(list) && View(list).Good() && RunAt(list, start, i) && list.entries[i].pages == pages
    ensures Sized(list) && |list.entries| == ENTRIES && Insertable(Removed(list, i))
    ensures CutAnswer(View(list), start, pages) == Done && View(Removed(list, i)) == CutFrom(View(list), start, pages)
  {
    hide Packed, Removed, Flat, Spare, Shaped, Dropped, StartIn;
    InsertableNext(list);
    RemoveRefines(list, i);
    assert CutFrom(View(list), start, pages).Good();
  }

  lemma Shortened(list: PageList, start: nat, pages: nat, i: nat)
    requires Insertable(list) && View(list).Good() && RunAt(list, start, i) && list.entries[i].pages > pages
    ensures CutAnswer(View(list), start, pages) == Done
    ensures var e := Usable(start + pages * PAGE_SIZE, list.entries[i].pages - pages);
      && var after := list.(entries := list.entries[i := e]);
      Insertable(after) && View(after) == CutFrom(View(list), start, pages)
  {
    hide Packed, Flat, Spare, Shaped, Dropped, StartIn;
    ChangedEntry(list, i, Usable(start + pages * PAGE_SIZE, list.entries[i].pages - pages));
    assert CutFrom(View(list), start, pages).Good();
  }

  /** No entry of the full first page starts there. */
  lemma PastRuns(list: PageList, start: nat, pages: nat)
    requires Insertable(list) && OthersTo(list, start, ENTRIES)
    ensures View(list).Good() && (list.next.Page? ==> Insertable(list.next))
    ensures list.next.Nil? ==>
        CutAnswer(View(list), start, pages) == Overrun && CutFrom(View(list), start, pages) == View(list)
  {
    InsertableNext(list);
    FirstPage(list);
    if list.next.Nil? {
      ViewLast(list);
      StartIs(Flat(list), start, ENTRIES);
    }
  }

  lemma CutRest(list: PageList, start: nat, pages: nat, after: PageList)
    requires Insertable(list) && OthersTo(list, start, ENTRIES) && list.next.Page? && Insertable(after)
    requires View(list.next).Good() && View(after) == CutFrom(View(list.next), start, pages)
    ensures View(list).Good() && Insertable(Page(list.entries, after))
    ensures View(Page(list.entries, after)) == CutFrom(View(list), start, pages)
    ensures CutAnswer(View(list), start, pages) == CutAnswer(View(list.next), start, pages)
  {
    hide CutFrom, CutAnswer, Packed, Flat, Shaped, Spare;
    InsertableNext(list);
    ViewMore(list);
    BeforeGood(list.entries, View(list.next));
    FullStays(list.entries, list, after);
    CutBelow(list.entries, View(list.next), start, pages);
  }

  /** The first page stays as it is while the rest changes. */
  lemma FullStays(page: seq<Entry>, before: PageList, after: PageList)
    requires before.Page? && Shaped(before) && before.next.Page? && before.entries == page && after.Page?
    requires Shaped(after)
    ensures Shaped(Page(page, after)) && View(Page(page, after)) == Before(page, View(after)) && |page| == ENTRIES
  {
    NextPage(before);
    FullPage(page, after);
    ViewMore(Page(page, after));
  }

  lemma OnlyPage(list: PageList, page: seq<Entry>)
    requires list.Page? && Shaped(list) && list.next.Nil? && Flat(list) == page && |page| == ENTRIES
    ensures list.entries == page
  {
    ViewLast(list);
    FirstPage(list);
    assert list.entries[..ENTRIES] == list.entries;
  }

  lemma FullAlone(list: PageList)
    requires Insertable(list) && list.next.Nil? && LastFull(list)
    ensures Packed(list.entries, ENTRIES) && AllRuns(list.entries)
    ensures View(list) == FreeList(list.entries, false) && View(list).Good()
  {
    ViewLast(list);
    ViewShape(list);
    assert list.entries[..ENTRIES] == list.entries;
  }

  lemma FirstRunFits(runs: seq<Entry>)
    requires AllRuns(runs) && runs != []
    ensures FitIn(runs, 1) == 0 && StartIn(runs, runs[0].start) == 0
  {
  }

  // ---------------------------------------------------------------- squash_entries on a chain

  /** The loop of `squash_entries` at slot `i`. */
  lemma AtSlot(list: PageList, i: nat)
    requires Insertable(list) && i < ENTRIES - 1
    ensures |list.entries| == ENTRIES && View(list).Good()
    ensures list.entries[i] == Empty || list.entries[i + 1] == Empty ==> Squashed(View(list), i) == View(list)
    ensures list.entries[i].Usable? && list.entries[i + 1].Usable? ==>
        && i + 1 < Count(list.entries) && i + 1 < |Flat(list)|
        && (Touching(Flat(list), i) <==> list.entries[i].End() == list.entries[i + 1].start)
    ensures list.entries[i].Usable? && list.entries[i + 1].Usable? && !Touching(Flat(list), i) ==>
        Squashed(View(list), i) == Squashed(View(list), i + 1)
  {
    InsertableNext(list);
    FirstPage(list);
  }

  /** One merge brings the loop closer to its end and leaves the result as it is. */
  ghost predicate Squashing(before: FreeList, after: FreeList, i: nat) {
    && before.Good() && after.Good() && Squashed(before, i) == Squashed(after, i)
    && |after.runs| <= |before.runs| && (|after.runs| == |before.runs| ==> Climb(after.runs, i) < Climb(before.runs, i))
  }

  lemma MergedSquashing(f: FreeList, i: nat)
    requires f.Good() && Touching(f.runs, i)
    ensures Squashing(f, MergedOnce(f, i), i)
  {
    hide MergedOnce, Climb;
    MergedGood(f, i);
  }

  /** The chain after the entry at `i` was merged with the one after it. */
  ghost function Merged(list: PageList, i: nat): PageList
    requires list.Page? && Shaped(list) && i + 1 < Count(list.entries)
  {
    var e := Usable(list.entries[i].start, list.entries[i].pages + list.entries[i + 1].pages);
    list.(entries := list.entries[i := e])
  }

  lemma MergedView(list: PageList, i: nat)
    requires Insertable(list) && i + 1 < Count(list.entries) && Touching(Flat(list), i)
    ensures var merged := Merged(list, i);
      && Sized(merged) && |merged.entries| == ENTRIES && i + 1 < ENTRIES
      && Removed(merged, i + 1).Page? && Shaped(Removed(merged, i + 1))
      && View(Removed(merged, i + 1)) == MergedOnce(View(list), i)
  {
    hide Dropped, Packed, Removed, Flat, Spare, Shaped, Count;
    FirstPage(list);
    var e := Usable(list.entries[i].start, list.entries[i].pages + list.entries[i + 1].pages);
    ChangedEntry(list, i, e);
    ChangedCount(list, i, e);
    RemoveRefines(Merged(list, i), i + 1);
  }

  lemma MergedRefines(list: PageList, i: nat)
    requires Insertable(list) && i + 1 < Count(list.entries) && Touching(Flat(list), i)
    ensures |list.entries| == ENTRIES && list.entries[i].Usable? && list.entries[i + 1].Usable?
    ensures var merged := Merged(list, i);
      && Sized(merged) && i + 1 < ENTRIES && Insertable(Removed(merged, i + 1))
      && Squashing(View(list), View(Removed(merged, i + 1)), i)
  {
    hide Packed, Removed, Flat, Spare, Shaped, Squashing, MergedOnce, Touching;
    InsertableNext(list);
    FirstPage(list);
    MergedView(list, i);
    MergedSquashing(View(list), i);
    SquashingGood(View(list), MergedOnce(View(list), i), i);
  }

  lemma SquashingGood(f: FreeList, g: FreeList, i: nat)
    requires Squashing(f, g, i)
    ensures g.Good()
  {
  }

  lemma ChangedCount(list: PageList, i: nat, e: Entry)
    requires list.Page? && Shaped(list) && i < Count(list.entries) && e.Usable?
    ensures Count(list.entries[i := e]) == Count(list.entries)
  {
    PackedCount(list.entries[i := e], Count(list.entries));
  }

  /** The last slot of a page is not compared with the first of the next. */
  lemma PastPage(list: PageList)
    requires Insertable(list)
    ensures View(list).Good() && Squashed(View(list), ENTRIES - 1) == Squashed(View(list), ENTRIES)
    ensures list.next.Nil? ==> Squashed(View(list), ENTRIES - 1) == View(list)
  {
    InsertableNext(list);
    FirstPage(list);
  }

  lemma SquashedRest(list: PageList, after: PageList)
    requires Insertable(list) && list.next.Page? && Insertable(list.next) && Insertable(after)
    requires View(list.next).Good() && View(after) == Squashed(View(list.next), 0)
    ensures Insertable(Page(list.entries, after)) && View(list).Good()
    ensures View(Page(list.entries, after)) == Squashed(View(list), ENTRIES)
  {
    hide Squashed, Packed, Flat, Shaped, Spare;
    InsertableNext(list);
    ViewMore(list);
    FullStays(list.entries, list, after);
    SquashedBelow(list.entries, View(list.next), 0);
  }

  // ---------------------------------------------------------------- dealloc_pages on a chain

  /** The first `i` entries of the first page start below `start`. */
  ghost predicate LowerTo(list: PageList, start: nat, i: nat)
    requires list.Page?
  {
    i <= Count(list.entries) && forall j :: 0 <= j < i ==> list.entries[j].start < start
  }

  /** The place of the run is slot `i` of the first page, and it does not end where that entry starts. */
  ghost predicate PlacedAt(list: PageList, r: Entry, i: nat)
    requires Insertable(list) && r.Usable? && View(list).Good()
  {
    && i < Count(list.entries) && i < ENTRIES && PlaceIn(Flat(list), r.start) == i < |Flat(list)|
    && Flat(list)[i].start != r.End()
  }

  /** The place of the run is slot `i` of the first page, and it ends where that entry starts. */
  ghost predicate JoinsAt(list: PageList, r: Entry, i: nat)
    requires Insertable(list) && r.Usable? && View(list).Good()
  {
    && i < Count(list.entries) && i < ENTRIES && PlaceIn(Flat(list), r.start) == i < |Flat(list)|
    && Flat(list)[i].start == r.End()
  }

  /** The scan at slot `i`. */
  lemma AtPlace(list: PageList, r: Entry, i: nat)
    requires Insertable(list) && IsRun(r) && i < ENTRIES && LowerTo(list, r.start, i)
    ensures |list.entries| == ENTRIES && View(list).Good()
    ensures forall frame :: list.entries[i] == Empty ==> Gave(View(list), r, frame) == View(list)
    ensures list.entries[i] == Empty ==> !Opens(View(list), r)
    ensures list.entries[i].Usable? && list.entries[i].start < r.start ==> LowerTo(list, r.start, i + 1)
    ensures list.entries[i].Usable? && r.start <= list.entries[i].start && list.entries[i].start == r.End() ==>
        JoinsAt(list, r, i)
    ensures list.entries[i].Usable? && r.start <= list.entries[i].start && list.entries[i].start != r.End() ==>
        PlacedAt(list, r, i)
  {
    hide Squashed, Put, Opened;
    InsertableNext(list);
    FirstPage(list);
    ViewShape(list);
    if list.entries[i] == Empty {
      ViewLast(list);
      PlaceIs(Flat(list), r.start, i);
    } else if r.start <= list.entries[i].start {
      PlaceIs(Flat(list), r.start, i);
    }
  }

  /** The run ends where the entry at its place starts. */
  lemma JoinedEntry(list: PageList, r: Entry, i: nat, frame: bool)
    requires Insertable(list) && IsRun(r) && View(list).Good() && JoinsAt(list, r, i)
    ensures i < |list.entries| && list.entries[i].Usable?
    ensures var after := list.(entries := list.entries[i := Usable(r.start, list.entries[i].pages + r.pages)]);
      Insertable(after) && View(after) == Gave(View(list), r, frame) && !Opens(View(list), r)
  {
    hide Squashed, Put, Opened, PlaceIn, Packed, Flat, Spare, Shaped;
    FirstPage(list);
    ChangedEntry(list, i, Usable(r.start, list.entries[i].pages + r.pages));
  }

  /** The run gets an entry of its own on the first page. */
  lemma InsertedEntry(list: PageList, r: Entry, i: nat, frame: bool)
    requires Insertable(list) && IsRun(r) && View(list).Good() && PlacedAt(list, r, i)
    ensures i < ENTRIES
    ensures var after := Inserted(list, i, r, frame);
      && Insertable(after) && View(after).Good() && (Opens(View(list), r) <==> LastFull(list))
      && Gave(View(list), r, frame) == if LastFull(list) && !frame then View(after) else Squashed(View(after), 0)
  {
    hide Squashed, Opened, PlaceIn, Packed, Put, Gave, Opens, Flat, Spare, Shaped, Inserted;
    ViewShape(list);
    InsertRefines(list, i, r, frame);
    PutGood(View(list), i, r, frame);
    GavePlaced(View(list), r, i, frame);
  }

  lemma GavePlaced(f: FreeList, r: Entry, i: nat, frame: bool)
    requires f.Good() && IsRun(r) && PlaceIn(f.runs, r.start) == i < |f.runs| && i < ENTRIES
    requires f.runs[i].start != r.End()
    ensures Put(f, i, r, frame).Good() && (Opens(f, r) <==> f.Full())
    ensures Gave(f, r, frame) == if f.Full() && !frame then Put(f, i, r, frame) else Squashed(Put(f, i, r, frame), 0)
  {
    hide Squashed, Opened, PlaceIn, Put;
    PutGood(f, i, r, frame);
    PutClosed(f, i, r, frame);
  }

  lemma PutClosed(f: FreeList, k: nat, e: Entry, frame: bool)
    requires f.Good() && k <= |f.runs|
    ensures f.Full() && !frame ==> Put(f, k, e, frame) == Opened(f)
  {
  }

  /** The run lies above every entry of the full first page. */
  lemma AllLower(list: PageList, r: Entry)
    requires Insertable(list) && IsRun(r) && LowerTo(list, r.start, ENTRIES)
    ensures Count(list.entries) == ENTRIES == |list.entries| && AllRuns(list.entries)
    ensures forall i :: 0 <= i < ENTRIES ==> list.entries[i].start < r.start
    ensures list.next.Page? ==> Insertable(list.next) && View(list) == Before(list.entries, View(list.next))
    ensures View(list).Good()
  {
    InsertableNext(list);
    FirstPage(list);
    if list.next.Page? {
      ViewMore(list);
    }
  }

  lemma GaveRest(list: PageList, r: Entry, frame: bool, after: PageList)
    requires Insertable(list) && IsRun(r) && LowerTo(list, r.start, ENTRIES) && list.next.Page? && Insertable(after)
    requires View(list.next).Good() && View(after) == Gave(View(list.next), r, frame)
    ensures Insertable(Page(list.entries, after)) && View(list).Good()
    ensures View(Page(list.entries, after)) == Gave(View(list), r, frame)
    ensures Opens(View(list), r) <==> Opens(View(list.next), r)
  {
    hide Gave, Packed, Flat, Shaped, Spare, PlaceIn;
    AllLower(list, r);
    FullStays(list.entries, list, after);
    RecordedBelow(list.entries, View(list.next), r);
    BeforeGood(list.entries, View(list.next));
    GaveBelow(list.entries, View(list.next), r, frame);
  }

  /** The run goes behind the last entry of a full list. */
  lemma AppendedEntry(list: PageList, r: Entry, frame: bool)
    requires Insertable(list) && IsRun(r) && LowerTo(list, r.start, ENTRIES) && list.next.Nil?
    ensures LastFull(list) && View(list).Good() && Opens(View(list), r)
    ensures var after := Appended(list, r, frame);
      && Insertable(after) && View(after).Good()
      && Gave(View(list), r, frame) == if !frame then View(after) else Squashed(View(after), 0)
  {
    hide Squashed, Opened, Packed, Put;
    AllLower(list, r);
    FirstPage(list);
    ViewLast(list);
    PlaceIs(Flat(list), r.start, ENTRIES);
    AppendRefines(list, r, frame);
    PutGood(View(list), ENTRIES, r, frame);
    PutClosed(View(list), ENTRIES, r, frame);
  }
}
