/** The linked buckets of one size class (kernel/src/memory/allocator/mod.rs). */
module Buckets {
  import opened Prelude
  import opened Bits
  import opened Chains

  /** What an allocation in a bucket comes to: a slot and the pages a new bucket took, no page, or no box. */
  datatype Grab = Got(slot: Slot, taken: set<nat>) | NoPage | Aborted

  class Bucket {
    const cls: nat
    const page: nat
    const node: Option<nat>
    const bitmap: array<bv8>
    var next: Bucket?
    ghost var model: Chain
    ghost var Repr: set<object>

    ghost predicate Valid()
      reads this, Repr
      ensures Valid() ==> this in Repr
    {
      && this in Repr && bitmap in Repr && cls < CLASSES
      && model.Link? && model == Link(page, node, bitmap[..], model.next)
      && (next == null ==> model.next == Nil)
      && (next != null ==>
           && next in Repr && next.Repr <= Repr && this !in next.Repr && bitmap !in next.Repr
           && next.cls == cls && next.Valid() && model.next == next.model)
    }

    constructor (cls: nat, page: nat, node: Option<nat>)
      requires cls < CLASSES && page % PAGE_SIZE == 0 && node != Some(page)
      ensures Valid() && fresh(Repr) && this.cls == cls && next == null
      ensures model == Link(page, node, bitmap[..], Nil) && NoBits(bitmap[..])
      ensures Good(cls, model, node.None?, true)
    {
      this.cls := cls;
      this.page := page;
      this.node := node;
      bitmap := new bv8[BitmapBytes(cls)](_ => 0);
      next := null;
      new;
      model := Link(page, node, bitmap[..], Nil);
      Repr := {this, bitmap};
      FirstOfNew(cls, page, node, bitmap[..]);
    }

    method IsEmpty() returns (r: bool)
      ensures r <==> NoBits(bitmap[..])
    {
      hide Bit8;
      for i := 0 to bitmap.Length
        invariant forall o: nat :: o < 8 * i ==> !BitAt(bitmap[..], o)
      {
        AllZeros8(bitmap[i]);
        if bitmap[i] != 0 {
          ghost var k: nat :| k < 8 && Bit8(bitmap[i], k);
          assert BitAt(bitmap[..], 8 * i + k);
          return false;
        }
        assert forall o: nat :: 8 * i <= o < 8 * (i + 1) ==> o / 8 == i && o % 8 < 8;
      }
      return true;
    }

    /** Takes the lowest block whose bit is clear, if there is one on this page. */
    method TakeLowest() returns (r: Option<nat>)
      requires cls < CLASSES && bitmap.Length == BitmapBytes(cls)
      modifies bitmap
      ensures r.None? ==> AllBits(cls, bitmap[..]) && bitmap[..] == old(bitmap[..])
      ensures r.Some? ==> LowestClear(cls, old(bitmap[..]), r.value)
      ensures r.Some? ==> bitmap[..] == SetIn(old(bitmap[..]), r.value)
    {
      hide Bit8, Set8;
      for i := 0 to bitmap.Length
        invariant bitmap[..] == old(bitmap[..])
        invariant forall o: nat :: o < 8 * i && o < Capacity(cls) ==> BitAt(bitmap[..], o)
      {
        assert forall o: nat :: 8 * i <= o < 8 * (i + 1) ==> o / 8 == i && o % 8 == o - 8 * i;
        AllOnes8(bitmap[i]);
        if bitmap[i] == 0xFF {
          continue;
        }
        var leading := LeadingOnes8(bitmap[i]);
        var off := i * 8 + leading;
        assert forall o: nat :: 8 * i <= o < off ==> BitAt(bitmap[..], o);
        if off >= Capacity(cls) {
          continue;
        }
        bitmap[i] := Set8(bitmap[i], leading);
        return Some(off);
      }
      return None;
    }

    /** A new overflow bucket with its first block taken. */
    static method Grow(cls: nat, data: nat, box: nat) returns (b: Bucket, slot: Slot)
      requires cls < CLASSES && data % PAGE_SIZE == 0 && box != data
      ensures b.Valid() && fresh(b.Repr) && b.cls == cls
      ensures Good(cls, b.model, false, false) && Allocated(cls, Nil, b.model, slot)
      ensures Pages(b.model) == {data, box} && Length(b.model) == 1 && slot == Slot(data, 0)
    {
      hide Good, Allocated, AllBits, NoBits;
      b := new Bucket(cls, data, Some(box));
      ghost var empty := b.model;
      GoodParts(cls, empty, false, true);
      var first := b.TakeLowest();
      if first.None? {
        EmptyIsNotFull(cls, empty.bitmap);
      }
      b.model := b.model.(bitmap := b.bitmap[..]);
      LowestOfNew(cls, empty.bitmap, first.value);
      NewTaken(cls, empty, first.value);
      slot := Slot(data, first.value);
    }

    /** `data` and `box` are the pages a new bucket would get for its blocks and for itself. */
    method AllocateBlock(data: Option<nat>, box: Option<nat>, ghost head: bool, ghost held: set<nat>) returns (r: Grab)
      requires Valid() && Good(cls, model, head, false) && Pages(model) <= held
      requires data.Some? ==> data.value % PAGE_SIZE == 0 && data.value !in held
      requires box.Some? ==> box.value !in held && box != data
      modifies Repr
      ensures Valid() && fresh(Repr - old(Repr)) && Good(cls, model, head, false)
      ensures Grabbed(cls, old(model), model, data, box, r)
      decreases Repr
    {
      hide Good, AllBits, Grabbed, Pages;
      ghost var before := model;
      GoodParts(cls, model, head, false);
      var off := TakeLowest();
      if off.Some? {
        GrabHere(cls, before, off.value, head, data, box);
        model := model.(bitmap := bitmap[..]);
        return Got(Slot(page, off.value), {});
      }
      if next != null {
        PagesBelow(model, held);
        r := next.AllocateBlock(data, box, false, held);
        Repr := Repr + next.Repr;
        model := model.(next := next.model);
        GrabBelow(cls, before, next.model, head, held, data, box, r);
      } else if data.None? {
        r := NoPage;
        GrabNothing(cls, before, data, box, r);
      } else if box.None? {
        r := Aborted;
        GrabNothing(cls, before, data, box, r);
      } else {
        var b, slot := Grow(cls, data.value, box.value);
        next := b;
        Repr := Repr + b.Repr;
        model := model.(next := b.model);
        r := Got(slot, {data.value, box.value});
        GrabNew(cls, before, b.model, head, held, data.value, box.value, slot);
      }
    }

    /** Clears the block at `addr`; `dropped` are the pages of the buckets unlinked on the way back. */
    method FreeBlock(addr: nat, ghost head: bool, ghost loose: bool) returns (dropped: set<nat>)
      requires Valid() && Good(cls, model, head, loose)
      modifies Repr
      ensures Valid() && Repr == old(Repr) && Good(cls, model, head, true)
      ensures Released(cls, old(model), model, SlotOf(cls, addr), dropped)
      decreases Repr
    {
      hide Good, Released, NoBits, Clear8;
      ghost var before := model;
      GoodParts(cls, model, head, loose);
      dropped := {};
      if addr - addr % PAGE_SIZE == page {
        SlotOfInPage(cls, addr);
        var off := (addr - page) / BlockSize(cls);
        bitmap[off / 8] := Clear8(bitmap[off / 8], off % 8);
        model := model.(bitmap := bitmap[..]);
        ReleaseHere(cls, before, off, head, loose);
      } else if next != null {
        dropped := next.FreeBlock(addr, false, false);
        ReleaseBelow(cls, before, next.model, SlotOf(cls, addr), dropped, head, loose);
        var empty := next.IsEmpty();
        if empty {
          GoodParts(cls, next.model, false, true);
          dropped := dropped + Own(next.page, next.node);
          next := next.next;
        } else {
          assert dropped + {} == dropped;
        }
        model := model.(next := if next == null then Nil else next.model);
      } else {
        ReleaseNothing(cls, before, SlotOf(cls, addr), head, loose);
      }
    }
  }

  /** The block an address lies in. */
  function SlotOf(c: nat, addr: nat): Slot
    requires c < CLASSES
  {
    Slot(addr - addr % PAGE_SIZE, (addr % PAGE_SIZE) / BlockSize(c))
  }

  lemma SlotOfInPage(c: nat, addr: nat)
    requires c < CLASSES
    ensures SlotOf(c, addr).off < Capacity(c)
  {
    var b, x := BlockSize(c), addr % PAGE_SIZE;
    assert Capacity(c) * b == PAGE_SIZE && (x / b) * b <= x;
  }

  /**
   What freeing does to a chain: exactly one slot stops being live, and the only pages given back are
   the two of each overflow bucket that is gone.
   */
  ghost predicate Released(c: nat, before: Chain, after: Chain, s: Slot, dropped: set<nat>)
    requires c < CLASSES
  {
    && Freed(c, before, after, s) && GivenBack(before, after, dropped)
    && after.Link? && before.Link? && after.page == before.page && after.node == before.node
  }

  ghost predicate GivenBack(before: Chain, after: Chain, dropped: set<nat>) {
    && dropped <= Pages(before) && Pages(after) == Pages(before) - dropped
    && |dropped| == 2 * (Length(before) - Length(after))
  }

  lemma ReleaseHere(c: nat, chain: Chain, o: nat, head: bool, loose: bool)
    requires c < CLASSES && chain.Link? && Good(c, chain, head, loose) && o < Capacity(c)
    ensures var after := chain.(bitmap := ClearIn(chain.bitmap, o));
      Good(c, after, head, true) && Released(c, chain, after, Slot(chain.page, o), {})
  {
    hide ClearIn, Freed, SpareClear, Own;
    DropHere(c, chain, o, head, loose);
    GivesNothing(chain, chain.(bitmap := ClearIn(chain.bitmap, o)));
  }

  lemma GivesNothing(before: Chain, after: Chain)
    requires before.Link? && after.Link? && before.next == after.next
    requires before.page == after.page && before.node == after.node
    ensures GivenBack(before, after, {})
  {
    hide Own;
    assert Pages(before) - {} == Pages(before);
  }

  lemma ReleaseNothing(c: nat, chain: Chain, s: Slot, head: bool, loose: bool)
    requires c < CLASSES && chain.Link? && chain.next == Nil && s.page != chain.page && Good(c, chain, head, loose)
    ensures Good(c, chain, head, true) && Released(c, chain, chain, s, {})
  {
    hide LiveHere, GoodBucket;
    OffPage(c, chain.page, chain.bitmap, s);
    assert !IsLive(c, chain, s);
  }

  /** The rest of the chain after unlinking: an empty overflow bucket goes, with its two pages. */
  ghost function Unlinked(next: Chain): Chain {
    if next.Link? && NoBits(next.bitmap) then next.next else next
  }

  ghost function UnlinkedPages(next: Chain): set<nat> {
    if next.Link? && NoBits(next.bitmap) then Own(next.page, next.node) else {}
  }

  lemma UnlinkPages(c: nat, before: Chain, next: Chain, dropped: set<nat>)
    requires c < CLASSES && next.Link? && Good(c, next, false, true) && GivenBack(before, next, dropped)
    ensures GivenBack(before, Unlinked(next), dropped + UnlinkedPages(next))
  {
    hide NoBits, GoodBucket, Own;
    if NoBits(next.bitmap) {
      var pair := Own(next.page, next.node);
      OwnCount(next.page, next.node);
      DropTwice(Pages(before), dropped, pair, Pages(next.next));
    } else {
      assert dropped + {} == dropped;
    }
  }

  lemma DropTwice(all: set<nat>, dropped: set<nat>, pair: set<nat>, rest: set<nat>)
    requires dropped <= all && pair + rest == all - dropped && pair !! rest
    ensures |dropped + pair| == |dropped| + |pair| && dropped + pair <= all && rest == all - (dropped + pair)
  {
    DisjointCount(dropped, pair);
  }

  lemma DropAside(own: set<nat>, rest: set<nat>, left: set<nat>, dropped: set<nat>)
    requires own !! rest && dropped <= rest && left == rest - dropped
    ensures dropped <= own + rest && own + left == (own + rest) - dropped && left <= rest
  {
  }

  lemma UnlinkLive(c: nat, before: Chain, next: Chain, s: Slot)
    requires c < CLASSES && next.Link? && Good(c, next, false, true) && Freed(c, before, next, s)
    ensures Good(c, Unlinked(next), false, false) && Freed(c, before, Unlinked(next), s)
  {
    hide Good, NoBits, IsLive;
    SkipEmpty(c, next);
    GoodParts(c, next, false, true);
  }

  lemma GivenBackBelow(chain: Chain, next: Chain, dropped: set<nat>)
    requires chain.Link? && GivenBack(chain.next, next, dropped) && OwnPages(chain.page, chain.node, Pages(chain.next))
    ensures GivenBack(chain, chain.(next := next), dropped) && Pages(next) <= Pages(chain.next)
  {
    hide Own;
    DropAside(Own(chain.page, chain.node), Pages(chain.next), Pages(next), dropped);
  }

  lemma ReleaseBelow(c: nat, chain: Chain, next: Chain, s: Slot, dropped: set<nat>, head: bool, loose: bool)
    requires c < CLASSES && chain.Link? && Good(c, chain, head, loose) && s.page != chain.page
    requires Good(c, next, false, true) && Released(c, chain.next, next, s, dropped)
    ensures var after := chain.(next := Unlinked(next));
      Good(c, after, head, true) && Released(c, chain, after, s, dropped + UnlinkedPages(next))
  {
    hide Good, Freed, GivenBack, Unlinked, UnlinkedPages;
    UnlinkPages(c, chain.next, next, dropped);
    UnlinkLive(c, chain.next, next, s);
    GoodParts(c, chain, head, loose);
    GivenBackBelow(chain, Unlinked(next), dropped + UnlinkedPages(next));
    DropBelow(c, chain, Unlinked(next), s, head, loose);
    Loosen(c, chain.(next := Unlinked(next)), head, loose);
  }

  lemma Loosen(c: nat, chain: Chain, head: bool, loose: bool)
    requires c < CLASSES && Good(c, chain, head, loose)
    ensures Good(c, chain, head, true)
  {
  }

  /**
   What one allocation does to a chain. The lowest free slot of the first bucket with one becomes live; the
   chain grows, by one bucket and two pages, only when every bucket was full; without a slot nothing changes.
   */
  ghost predicate Grabbed(c: nat, before: Chain, after: Chain, data: Option<nat>, box: Option<nat>, r: Grab)
    requires c < CLASSES
  {
    match r
    case Got(slot, taken) =>
      && Allocated(c, before, after, slot) && slot.page in Pages(after) && Pages(after) == Pages(before) + taken
      && (!Full(c, before) ==> taken == {} && Length(after) == Length(before) && LowestFree(c, before, slot))
      && (Full(c, before) ==>
           && data.Some? && box.Some? && taken == {data.value, box.value} && slot == Slot(data.value, 0)
           && Length(after) == Length(before) + 1)
    case NoPage => after == before && Full(c, before) && data.None?
    case Aborted => after == before && Full(c, before) && data.Some? && box.None?
  }

  lemma PagesBelow(chain: Chain, held: set<nat>)
    requires chain.Link? && Pages(chain) <= held
    ensures Pages(chain.next) <= held && chain.page in held && (chain.node.Some? ==> chain.node.value in held)
  {
  }

  lemma GrabHere(c: nat, chain: Chain, o: nat, head: bool, data: Option<nat>, box: Option<nat>)
    requires c < CLASSES && chain.Link? && Good(c, chain, head, false)
    requires LowestClear(c, chain.bitmap, o)
    ensures var after := chain.(bitmap := SetIn(chain.bitmap, o));
      Good(c, after, head, false) && Grabbed(c, chain, after, data, box, Got(Slot(chain.page, o), {}))
  {
    hide BitAt, SetIn, Allocated;
    TakeHere(c, chain, o, head);
    NotFull(c, chain, o);
    assert Pages(chain) + {} == Pages(chain);
  }

  lemma GrabNothing(c: nat, chain: Chain, data: Option<nat>, box: Option<nat>, r: Grab)
    requires c < CLASSES && chain.Link? && chain.next == Nil
    requires |chain.bitmap| == BitmapBytes(c) && AllBits(c, chain.bitmap)
    requires (r.NoPage? && data.None?) || (r.Aborted? && data.Some? && box.None?)
    ensures Grabbed(c, chain, chain, data, box, r)
  {
    FullHere(c, chain);
  }

  lemma GrabBelow(c: nat, chain: Chain, next: Chain, head: bool, held: set<nat>, data: Option<nat>,
      box: Option<nat>, r: Grab)
    requires c < CLASSES && chain.Link? && Good(c, chain, head, false) && AllBits(c, chain.bitmap)
    requires Good(c, next, false, false) && Grabbed(c, chain.next, next, data, box, r)
    requires Pages(chain) <= held
    requires data.Some? ==> data.value !in held
    requires box.Some? ==> box.value !in held
    ensures var after := chain.(next := next);
      Good(c, after, head, false) && Grabbed(c, chain, after, data, box, r)
  {
    hide Good, Allocated, AllBits, Full;
    GoodParts(c, chain, head, false);
    FullHere(c, chain);
    if r.Got? {
      TakeBelow(c, chain, next, r.slot, head);
    } else {
      GoodMade(c, chain, head, false);
    }
  }

  lemma GrabNew(c: nat, chain: Chain, next: Chain, head: bool, held: set<nat>, data: nat, box: nat, slot: Slot)
    requires c < CLASSES && chain.Link? && chain.next == Nil && Good(c, chain, head, false) && AllBits(c, chain.bitmap)
    requires Good(c, next, false, false) && Allocated(c, Nil, next, slot)
    requires Pages(next) == {data, box} && Length(next) == 1 && slot == Slot(data, 0)
    requires Pages(chain) <= held && data !in held && box !in held
    ensures var after := chain.(next := next);
      Good(c, after, head, false) && Grabbed(c, chain, after, Some(data), Some(box), Got(slot, {data, box}))
  {
    hide Good, Allocated, AllBits, Full;
    GoodParts(c, chain, head, false);
    FullHere(c, chain);
    TakeBelow(c, chain, next, slot, head);
    assert Length(chain) == 1;
  }
}
