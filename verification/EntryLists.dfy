/**
 The pages of the free list as values (kernel/src/memory/allocator/page.rs): 170 entries each, chained, the
 entries in use packed to the front. Every operation on a chain is shown to do to the entries in use what
 `FreeLists` says.
 */
module EntryLists {
  import opened Prelude
  import opened FreeLists

  /** A chain of entry pages. */
  datatype PageList = Nil | Page(entries: seq<Entry>, next: PageList)

  // ---------------------------------------------------------------- one page

  ghost predicate Packed(entries: seq<Entry>, n: nat) {
    && |entries| == ENTRIES && n <= ENTRIES
    && (forall i :: 0 <= i < n ==> entries[i].Usable?)
    && (forall i :: n <= i < ENTRIES ==> entries[i] == Empty)
  }

  /** How many entries are in use: the position of the first empty one. */
  function Count(entries: seq<Entry>): (n: nat)
    ensures n <= |entries| && (n < |entries| ==> entries[n] == Empty)
    ensures forall i :: 0 <= i < n ==> entries[i].Usable?
  {
    if entries == [] || entries[0] == Empty then 0 else 1 + Count(entries[1..])
  }

  lemma PackedCount(entries: seq<Entry>, n: nat)
    requires Packed(entries, n)
    ensures Count(entries) == n
  {
    assert n < ENTRIES ==> entries[n] == Empty;
  }

  /** Shifting up from `idx`; the last entry falls off. */
  function ShiftUp(entries: seq<Entry>, idx: nat, e: Entry): (r: seq<Entry>)
    requires |entries| == ENTRIES && idx < ENTRIES
    ensures |r| == ENTRIES
  {
    entries[..idx] + [e] + entries[idx..ENTRIES - 1]
  }

  /** Shifting down onto `idx`; the last entry keeps its value, unless it was the one removed. */
  function ShiftDown(entries: seq<Entry>, idx: nat): (r: seq<Entry>)
    requires |entries| == ENTRIES && idx < ENTRIES
    ensures |r| == ENTRIES
  {
    entries[..idx] + entries[idx + 1..] + [if idx == ENTRIES - 1 then Empty else entries[ENTRIES - 1]]
  }

  // ---------------------------------------------------------------- chains

  ghost predicate Sized(list: PageList) {
    list.Page? ==> |list.entries| == ENTRIES && Sized(list.next)
  }

  /** All pages but the last are full. The last may be empty, whether or not it is the only one. */
  ghost predicate Shaped(list: PageList) {
    list.Page? ==>
      && Packed(list.entries, Count(list.entries))
      && (list.next.Page? ==> Count(list.entries) == ENTRIES)
      && Shaped(list.next)
  }

  /** The entries in use, over all pages in order. */
  ghost function Flat(list: PageList): seq<Entry> {
    if list.Nil? then [] else list.entries[..Count(list.entries)] + Flat(list.next)
  }

  /** The last page has no entry in use. */
  ghost predicate Spare(list: PageList) {
    list.Page? && if list.next.Page? then Spare(list.next) else Count(list.entries) == 0
  }

  ghost function View(list: PageList): FreeList {
    FreeList(Flat(list), Spare(list))
  }

  ghost predicate LastFull(list: PageList) {
    list.Page? && if list.next.Page? then LastFull(list.next) else Count(list.entries) == ENTRIES
  }

  lemma ViewMore(list: PageList)
    requires list.Page? && Shaped(list) && list.next.Page?
    ensures View(list) == Before(list.entries, View(list.next)) && |list.entries| == ENTRIES
  {
    assert list.entries[..ENTRIES] == list.entries;
  }

  lemma ViewLast(list: PageList)
    requires list.Page? && list.next.Nil?
    ensures View(list) == FreeList(list.entries[..Count(list.entries)], Count(list.entries) == 0)
  {
    assert Flat(list.next) == [];
  }

  lemma {:induction false} ViewShape(list: PageList)
    requires list.Page? && Shaped(list)
    ensures Flat(list) == [] ==> Spare(list)
    ensures Spare(list) ==> |Flat(list)| % ENTRIES == 0
    ensures View(list).Full() <==> LastFull(list)
    ensures AllRuns(Flat(list)) ==> View(list).Good()
  {
    if list.next.Page? {
      ViewShape(list.next);
      ViewMore(list);
    } else {
      ViewLast(list);
    }
  }

  /** What the first page shows of the list. */
  lemma FirstPage(list: PageList)
    requires list.Page? && Shaped(list)
    ensures Count(list.entries) <= |Flat(list)| && |list.entries| == ENTRIES
    ensures forall i :: 0 <= i < Count(list.entries) ==> Flat(list)[i] == list.entries[i]
    ensures list.next.Nil? ==> Flat(list) == list.entries[..Count(list.entries)]
    ensures Count(list.entries) < ENTRIES ==> list.next.Nil?
  {
  }

  lemma {:induction false} ShapedIsSized(list: PageList)
    requires Shaped(list)
    ensures Sized(list)
  {
    if list.Page? {
      ShapedIsSized(list.next);
    }
  }

  // ---------------------------------------------------------------- remove_entry

  ghost function DropLast(list: PageList): PageList
    requires list.Page?
  {
    if list.next.Page? then Page(list.entries, DropLast(list.next)) else Nil
  }

  /** The chain after `remove_entry`. */
  ghost function Removed(list: PageList, idx: nat): (r: PageList)
    requires list.Page? && Sized(list) && idx < ENTRIES
    ensures r.Page? ==> |r.entries| == ENTRIES
    decreases list
  {
    var down := ShiftDown(list.entries, idx);
    if list.next.Nil? then Page(down, Nil)
    else
      assert Sized(list.next);
      var pulled := list.next.entries[0];
      var next := Removed(list.next, 0);
      if pulled == Empty then DropLast(Page(down, next))
      else Page(down[ENTRIES - 1 := pulled], next)
  }

  lemma ShiftDownPacked(entries: seq<Entry>, n: nat, idx: nat)
    requires Packed(entries, n) && idx < n
    ensures n < ENTRIES || idx == ENTRIES - 1 ==> Packed(ShiftDown(entries, idx), n - 1)
    ensures n < ENTRIES || idx == ENTRIES - 1 ==> ShiftDown(entries, idx)[..n - 1] == RemoveAt(entries[..n], idx)
    ensures n == ENTRIES && idx < ENTRIES - 1 ==> Packed(ShiftDown(entries, idx), n)
    ensures n == ENTRIES && idx < ENTRIES - 1 ==> ShiftDown(entries, idx) == RemoveAt(entries, idx) + [entries[n - 1]]
  {
  }

  lemma ShiftDownPull(entries: seq<Entry>, idx: nat, e: Entry)
    requires Packed(entries, ENTRIES) && idx < ENTRIES && e.Usable?
    ensures Packed(ShiftDown(entries, idx)[ENTRIES - 1 := e], ENTRIES)
    ensures ShiftDown(entries, idx)[ENTRIES - 1 := e] == RemoveAt(entries, idx) + [e]
  {
  }

  lemma DroppedFromOne(runs: seq<Entry>, spare: bool, k: nat)
    requires k < |runs| <= ENTRIES
    ensures Dropped(FreeList(runs, spare), k)
         == if |runs| == ENTRIES && k < ENTRIES - 1 then FreeList(RemoveAt(runs, k) + [runs[ENTRIES - 1]], false)
            else FreeList(RemoveAt(runs, k), |runs| == 1)
  {
  }

  /** Removing from the last page that has entries. */
  lemma RemovedLast(entries: seq<Entry>, idx: nat, spare: bool)
    requires Packed(entries, Count(entries)) && idx < Count(entries)
    ensures var after := Page(ShiftDown(entries, idx), Nil);
      Shaped(after) && View(after) == Dropped(FreeList(entries[..Count(entries)], spare), idx)
  {
    hide ShiftDown, Packed, Dropped, View, Count;
    var n := Count(entries);
    PackedLength(entries, n);
    var down := ShiftDown(entries, idx);
    ShiftDownPacked(entries, n, idx);
    DroppedFromOne(entries[..n], spare, idx);
    ViewLast(Page(down, Nil));
    if n < ENTRIES || idx == ENTRIES - 1 {
      PackedCount(down, n - 1);
    } else {
      PackedCount(down, n);
      assert down[..n] == down && entries[..n] == entries;
    }
  }

  lemma PackedLength(entries: seq<Entry>, n: nat)
    requires Packed(entries, n)
    ensures |entries| == ENTRIES && n <= ENTRIES
  {
  }

  /** With an entry pulled in from the rest, removing reaches the rest of the list. */
  lemma DroppedPull(page: seq<Entry>, f: FreeList, idx: nat)
    requires |page| == ENTRIES && idx < ENTRIES && f.runs != []
    ensures Dropped(Before(page, f), idx) == Before(RemoveAt(page, idx) + [f.runs[0]], Dropped(f, 0))
  {
    var all := Before(page, f);
    var front := RemoveAt(page, idx) + [f.runs[0]];
    assert Stale(all.runs, idx) <==> Stale(f.runs, 0);
    assert RemoveAt(all.runs, idx) == front + RemoveAt(f.runs, 0);
    ConcatAssoc(front, RemoveAt(f.runs, 0), [f.runs[|f.runs| - 1]]);
  }

  /** Removing from the chain keeps its shape and does to the list of entries what `Dropped` says. */
  lemma {:induction false} RemoveRefines(list: PageList, idx: nat)
    requires list.Page? && Shaped(list) && idx < Count(list.entries)
    ensures Sized(list) && Removed(list, idx).Page? && Shaped(Removed(list, idx))
    ensures idx < |Flat(list)| && View(Removed(list, idx)) == Dropped(View(list), idx)
    decreases list
  {
    hide ShiftDown, Packed, Dropped;
    ShapedIsSized(list);
    FirstPage(list);
    if list.next.Nil? {
      ViewLast(list);
      RemovedLast(list.entries, idx, Count(list.entries) == 0);
    } else {
      ViewMore(list);
      FirstPage(list.next);
      if Count(list.next.entries) == 0 {
        RemovedSpare(list, idx);
      } else {
        RemoveRefines(list.next, 0);
        RemovedMore(list, idx);
      }
    }
  }

  /** The next page is there but empty: it is unlinked. */
  lemma RemovedSpare(list: PageList, idx: nat)
    requires list.Page? && Shaped(list) && Sized(list) && idx < ENTRIES
    requires list.next.Page? && list.next.next.Nil? && Count(list.next.entries) == 0
    ensures Removed(list, idx).Page? && Shaped(Removed(list, idx))
    ensures idx < |Flat(list)| && View(Removed(list, idx)) == Dropped(View(list), idx)
  {
    hide ShiftDown, Dropped, Packed;
    ViewMore(list);
    ViewLast(list.next);
    assert list.entries + [] == list.entries && list.entries[..ENTRIES] == list.entries;
    var down := ShiftDown(list.entries, idx);
    assert Removed(list.next, 0).next == Nil && DropLast(Removed(list.next, 0)) == Nil;
    assert list.next.entries[0] == Empty;
    assert Removed(list, idx) == Page(down, Nil);
    RemovedLast(list.entries, idx, true);
  }

  lemma RemovedMore(list: PageList, idx: nat)
    requires list.Page? && Shaped(list) && Sized(list) && idx < ENTRIES
    requires list.next.Page? && Count(list.next.entries) > 0
    requires Removed(list.next, 0).Page? && Shaped(Removed(list.next, 0))
    requires Flat(list.next) != [] && View(Removed(list.next, 0)) == Dropped(View(list.next), 0)
    ensures Removed(list, idx).Page? && Shaped(Removed(list, idx))
    ensures idx < |Flat(list)| && View(Removed(list, idx)) == Dropped(View(list), idx)
  {
    hide ShiftDown, Dropped, Packed;
    var pulled := list.next.entries[0];
    var full := ShiftDown(list.entries, idx)[ENTRIES - 1 := pulled];
    var after := Page(full, Removed(list.next, 0));
    FirstPage(list.next);
    ViewMore(list);
    ShiftDownPull(list.entries, idx, pulled);
    PackedCount(full, ENTRIES);
    assert Removed(list, idx) == after;
    ViewMore(after);
    DroppedPull(list.entries, View(list.next), idx);
  }

  /**
   An entry comes out of the list exactly when the entries do not fill whole pages or it is the last of
   them; else the last entry is in the list twice.
   */
  lemma RemoveIsExact(list: PageList, idx: nat)
    requires list.Page? && Shaped(list) && idx < Count(list.entries)
    ensures Sized(list) && idx < |Flat(list)|
    ensures Flat(Removed(list, idx)) == RemoveAt(Flat(list), idx)
       <==> |Flat(list)| % ENTRIES != 0 || idx + 1 == |Flat(list)|
  {
    RemoveRefines(list, idx);
    assert |RemoveAt(Flat(list), idx)| == |Flat(list)| - 1;
  }

  // ---------------------------------------------------------------- insert_entry, append_entry

  ghost function Blank(): (r: seq<Entry>)
    ensures Packed(r, 0)
  {
    seq(ENTRIES, _ => Empty)
  }

  /** A full last page after one page was taken from its first run. */
  ghost function PageTaken(entries: seq<Entry>): (r: seq<Entry>)
    requires |entries| == ENTRIES && IsRun(entries[0])
    ensures |r| == ENTRIES
  {
    var e := entries[0];
    if e.pages == 1 then ShiftDown(entries, 0) else entries[0 := Usable(e.start + PAGE_SIZE, e.pages - 1)]
  }

  ghost predicate Insertable(list: PageList) {
    list.Page? && Shaped(list) && AllRuns(Flat(list))
  }

  lemma InsertableNext(list: PageList)
    requires Insertable(list)
    ensures list.next.Page? ==> Insertable(list.next)
    ensures Count(list.entries) == ENTRIES ==> IsRun(list.entries[0])
    ensures |list.entries| == ENTRIES && (list.entries[ENTRIES - 1].Usable? <==> Count(list.entries) == ENTRIES)
    ensures View(list).Good()
  {
    FirstPage(list);
    ViewShape(list);
    if list.next.Page? {
      ViewMore(list);
      ViewShape(list.next);
      BeforeGood(list.entries, View(list.next));
    }
  }

  /** The chain after `insert_entry`; `frame` says whether a new entry page can be mapped. */
  ghost function Inserted(list: PageList, idx: nat, e: Entry, frame: bool): PageList
    requires Insertable(list) && idx < ENTRIES
    decreases list
  {
    InsertableNext(list);
    var last := list.entries[ENTRIES - 1];
    if last == Empty then Page(ShiftUp(list.entries, idx, e), list.next)
    else if list.next.Page? then
      var next := Inserted(list.next, 0, last, frame);
      Page(if frame || !LastFull(list.next) then ShiftUp(list.entries, idx, e) else list.entries, next)
    else if frame then Page(ShiftUp(PageTaken(list.entries), idx, e), Page(ShiftUp(Blank(), 0, last), Nil))
    else Page(PageTaken(list.entries), Nil)
  }

  /** The chain after the last entry of its full first page was passed on, before that page shifts up. */
  ghost function Overflowed(list: PageList, frame: bool): (o: PageList)
    requires Insertable(list) && Count(list.entries) == ENTRIES
    ensures o.Page? && |o.entries| == ENTRIES
  {
    InsertableNext(list);
    var last := list.entries[ENTRIES - 1];
    if list.next.Page? then Page(list.entries, Inserted(list.next, 0, last, frame))
    else Page(PageTaken(list.entries), if frame then Page(ShiftUp(Blank(), 0, last), Nil) else Nil)
  }

  lemma InsertedOverflow(list: PageList, idx: nat, e: Entry, frame: bool)
    requires Insertable(list) && idx < ENTRIES && Count(list.entries) == ENTRIES
    ensures var o := Overflowed(list, frame);
      Inserted(list, idx, e, frame) == if frame || !LastFull(list) then Page(ShiftUp(o.entries, idx, e), o.next) else o
  {
    hide ShiftUp, Packed, PageTaken, Blank, Flat, AllRuns;
    InsertableNext(list);
  }

  /** The chain after `append_entry`. */
  ghost function Appended(list: PageList, e: Entry, frame: bool): PageList
    requires Insertable(list)
    decreases list
  {
    InsertableNext(list);
    var n := Count(list.entries);
    if n < ENTRIES then Page(list.entries[n := e], list.next)
    else if list.next.Page? then Page(list.entries, Appended(list.next, e, frame))
    else if frame then Page(PageTaken(list.entries), Page(Blank()[0 := e], Nil))
    else Page(PageTaken(list.entries), Nil)
  }

  lemma ShiftUpPacked(entries: seq<Entry>, n: nat, idx: nat, e: Entry)
    requires Packed(entries, n) && idx <= n && idx < ENTRIES && e.Usable?
    ensures n < ENTRIES ==> Packed(ShiftUp(entries, idx, e), n + 1)
    ensures n < ENTRIES ==> ShiftUp(entries, idx, e)[..n + 1] == InsertAt(entries[..n], idx, e)
    ensures n == ENTRIES ==> Packed(ShiftUp(entries, idx, e), n)
    ensures n == ENTRIES ==> ShiftUp(entries, idx, e) + [entries[ENTRIES - 1]] == InsertAt(entries, idx, e)
  {
    assert entries[idx..ENTRIES - 1] + [entries[ENTRIES - 1]] == entries[idx..];
    ConcatAssoc(entries[..idx] + [e], entries[idx..ENTRIES - 1], [entries[ENTRIES - 1]]);
  }

  /** Taking the page for a new entry page, on the full last page. */
  lemma PageTakenOpens(entries: seq<Entry>)
    requires Packed(entries, ENTRIES) && AllRuns(entries)
    ensures var f := FreeList(entries, false);
      && f.Good() && Packed(PageTaken(entries), ENTRIES) && Opened(f) == FreeList(PageTaken(entries), false)
    ensures PageTaken(entries)[ENTRIES - 1] == entries[ENTRIES - 1]
  {
    hide ShiftDown;
    ShiftDownPacked(entries, ENTRIES, 0);
  }

  /** A full page whose last entry moves to the page behind it. */
  lemma PassedOn(page: seq<Entry>, idx: nat, e: Entry, rest: FreeList)
    requires Packed(page, ENTRIES) && idx < ENTRIES && e.Usable?
    ensures Before(ShiftUp(page, idx, e), FreeList(InsertAt(rest.runs, 0, page[ENTRIES - 1]), false))
         == FreeList(InsertAt(page + rest.runs, idx, e), false)
  {
    hide ShiftUp;
    var up, last := ShiftUp(page, idx, e), page[ENTRIES - 1];
    ShiftUpPacked(page, ENTRIES, idx, e);
    assert up + InsertAt(rest.runs, 0, last) == (up + [last]) + rest.runs;
  }

  lemma FullPage(page: seq<Entry>, next: PageList)
    requires Packed(page, ENTRIES) && Shaped(next)
    ensures Shaped(Page(page, next)) && Count(page) == ENTRIES
  {
    PackedCount(page, ENTRIES);
  }

  /** Inserting into the chain keeps its shape and does to the list of entries what `Put` says. */
  lemma {:induction false} InsertRefines(list: PageList, idx: nat, e: Entry, frame: bool)
    requires Insertable(list) && idx <= Count(list.entries) && idx < ENTRIES && e.Usable?
    ensures Inserted(list, idx, e, frame).Page? && Shaped(Inserted(list, idx, e, frame))
    ensures View(list).Good() && idx <= |Flat(list)|
      && View(Inserted(list, idx, e, frame)) == Put(View(list), idx, e, frame)
    decreases list
  {
    hide ShiftUp, Packed, PageTaken, Put;
    InsertableNext(list);
    FirstPage(list);
    if Count(list.entries) < ENTRIES {
      InsertedHere(list, idx, e, frame);
    } else if list.next.Page? {
      var last := list.entries[ENTRIES - 1];
      InsertRefines(list.next, 0, last, frame);
      InsertedMore(list, idx, e, frame);
    } else {
      InsertedNew(list, idx, e, frame);
    }
  }

  lemma InsertedHere(list: PageList, idx: nat, e: Entry, frame: bool)
    requires Insertable(list) && idx <= Count(list.entries) < ENTRIES && e.Usable?
    ensures Shaped(Inserted(list, idx, e, frame))
    ensures View(list).Good() && idx <= |Flat(list)|
      && View(Inserted(list, idx, e, frame)) == Put(View(list), idx, e, frame)
  {
    hide ShiftUp, Packed;
    var n := Count(list.entries);
    InsertableNext(list);
    FirstPage(list);
    ViewLast(list);
    ViewShape(list);
    var up := ShiftUp(list.entries, idx, e);
    ShiftUpPacked(list.entries, n, idx, e);
    PackedCount(up, n + 1);
    ViewLast(Page(up, Nil));
  }

  lemma InsertedMore(list: PageList, idx: nat, e: Entry, frame: bool)
    requires Insertable(list) && idx < ENTRIES == Count(list.entries) && e.Usable?
    requires list.next.Page? && Insertable(list.next)
    requires var last := list.entries[ENTRIES - 1];
      && Inserted(list.next, 0, last, frame).Page? && Shaped(Inserted(list.next, 0, last, frame))
      && View(list.next).Good() && View(Inserted(list.next, 0, last, frame)) == Put(View(list.next), 0, last, frame)
    ensures Shaped(Inserted(list, idx, e, frame))
    ensures View(list).Good() && idx <= |Flat(list)|
      && View(Inserted(list, idx, e, frame)) == Put(View(list), idx, e, frame)
  {
    hide ShiftUp, Opened, Spare, Flat, Packed;
    var page, last, f := list.entries, list.entries[ENTRIES - 1], View(list.next);
    var after := Inserted(list, idx, e, frame);
    InsertableNext(list);
    ViewMore(list);
    ViewShape(list.next);
    BeforeGood(page, f);
    ShiftUpPacked(page, ENTRIES, idx, e);
    FullPage(after.entries, after.next);
    ViewMore(after);
    if f.Full() {
      OpenedBelow(page, f);
      OpenedGood(f);
      PassedOn(page, idx, e, Opened(f));
    } else {
      PassedOn(page, idx, e, f);
    }
  }

  lemma InsertedNew(list: PageList, idx: nat, e: Entry, frame: bool)
    requires Insertable(list) && idx < ENTRIES == Count(list.entries) && e.Usable? && list.next.Nil?
    ensures Shaped(Inserted(list, idx, e, frame))
    ensures View(list).Good() && idx <= |Flat(list)|
      && View(Inserted(list, idx, e, frame)) == Put(View(list), idx, e, frame)
  {
    hide ShiftUp, Packed, Opened, PageTaken;
    var page := list.entries;
    InsertableNext(list);
    var taken, last := PageTaken(page), page[ENTRIES - 1];
    ViewLast(list);
    assert page[..ENTRIES] == page;
    PageTakenOpens(page);
    FullPage(taken, Nil);
    ViewLast(Page(taken, Nil));
    assert taken[..ENTRIES] == taken;
    if frame {
      ShiftUpPacked(taken, ENTRIES, idx, e);
      var after := Inserted(list, idx, e, frame);
      NewPage(ShiftUp(Blank(), 0, last), last);
      FullPage(after.entries, after.next);
      ViewMore(after);
      PassedOn(taken, idx, e, FreeList([], true));
      assert InsertAt([], 0, last) == [last] && taken + [] == taken;
    }
  }

  /** A page with one entry. */
  lemma NewPage(entries: seq<Entry>, e: Entry)
    requires e.Usable? && (entries == ShiftUp(Blank(), 0, e) || entries == Blank()[0 := e])
    ensures Shaped(Page(entries, Nil)) && View(Page(entries, Nil)) == FreeList([e], false)
  {
    assert Packed(entries, 1);
    PackedCount(entries, 1);
    ViewLast(Page(entries, Nil));
    assert entries[..1] == [e];
  }

  /** Appending is putting at the end. */
  lemma {:induction false} AppendRefines(list: PageList, e: Entry, frame: bool)
    requires Insertable(list) && e.Usable?
    ensures Appended(list, e, frame).Page? && Shaped(Appended(list, e, frame))
    ensures View(list).Good() && View(Appended(list, e, frame)) == Put(View(list), |Flat(list)|, e, frame)
    decreases list
  {
    hide Packed, Opened, PageTaken, Flat, Spare;
    var page, n := list.entries, Count(list.entries);
    InsertableNext(list);
    FirstPage(list);
    if n < ENTRIES {
      AppendedHere(list, e, frame);
    } else if list.next.Page? {
      var f := View(list.next);
      AppendRefines(list.next, e, frame);
      ViewMore(list);
      PutBelow(page, f, |f.runs|, e, frame);
      FullPage(page, Appended(list.next, e, frame));
      ViewMore(Appended(list, e, frame));
    } else {
      AppendedNew(list, e, frame);
    }
  }

  lemma AppendedHere(list: PageList, e: Entry, frame: bool)
    requires Insertable(list) && Count(list.entries) < ENTRIES && e.Usable?
    ensures Shaped(Appended(list, e, frame))
    ensures View(list).Good() && View(Appended(list, e, frame)) == Put(View(list), |Flat(list)|, e, frame)
  {
    var page, n := list.entries, Count(list.entries);
    InsertableNext(list);
    FirstPage(list);
    ViewShape(list);
    ViewLast(list);
    PackedCount(page[n := e], n + 1);
    ViewLast(Page(page[n := e], Nil));
    assert page[n := e][..n + 1] == InsertAt(page[..n], n, e);
  }

  lemma AppendedNew(list: PageList, e: Entry, frame: bool)
    requires Insertable(list) && Count(list.entries) == ENTRIES && e.Usable? && list.next.Nil?
    ensures Shaped(Appended(list, e, frame))
    ensures View(list).Good() && View(Appended(list, e, frame)) == Put(View(list), |Flat(list)|, e, frame)
  {
    hide Packed, Opened, PageTaken;
    var page := list.entries;
    InsertableNext(list);
    var taken := PageTaken(page);
    ViewLast(list);
    assert page[..ENTRIES] == page;
    PageTakenOpens(page);
    FullPage(taken, Nil);
    ViewLast(Page(taken, Nil));
    assert taken[..ENTRIES] == taken;
    if frame {
      var after := Appended(list, e, frame);
      NewPage(after.next.entries, e);
      FullPage(taken, after.next);
      ViewMore(after);
      assert InsertAt(taken, ENTRIES, e) == taken + [e];
    }
  }

  // ---------------------------------------------------------------- one entry changed

  /** Overwriting an entry in use. */
  lemma ChangedEntry(list: PageList, i: nat, e: Entry)
    requires list.Page? && Shaped(list) && i < Count(list.entries) && e.Usable?
    ensures var after := list.(entries := list.entries[i := e]);
      && Shaped(after) && i < |Flat(list)| && View(after) == View(list).(runs := Flat(list)[i := e])
  {
    var n := Count(list.entries);
    var after := list.entries[i := e];
    PackedCount(after, n);
    assert after[..n] == list.entries[..n][i := e];
  }
}
