/**
 The kernel allocator: nine bucket classes over one supply of pages, and runs of allocations and frees
 (kernel/src/memory/allocator/mod.rs).
 */
module KernelHeap {
  import opened Prelude
  import opened Chains
  import opened Buckets

  /** What a call comes to. Larger requests go to the page allocator. */
  datatype Outcome = Block(addr: nat) | AllocError | ToPages | Panicked | NoCall

  /** The bucket class of a request, by the larger of its size and alignment. */
  function SizeClass(max: nat): (r: Option<nat>)
    ensures r.Some? ==> r.value < CLASSES
  {
    if max <= 8 then Some(0)
    else if max <= 16 then Some(1)
    else if max <= 32 then Some(2)
    else if max <= 64 then Some(3)
    else if max <= 128 then Some(4)
    else if max <= 256 then Some(5)
    else if max <= 512 then Some(6)
    else if max <= 1024 then Some(7)
    else if max <= 2048 then Some(8)
    else None
  }

  function Max(a: nat, b: nat): nat {
    if a > b then a else b
  }

  predicate PowerOfTwo(n: nat) {
    n > 0 && (n == 1 || (n % 2 == 0 && PowerOfTwo(n / 2)))
  }

  /** The smallest class whose blocks are large enough. */
  lemma SizeClassFits(max: nat)
    ensures SizeClass(max).None? <==> max > 2048
    ensures SizeClass(max).Some? ==>
      var c := SizeClass(max).value;
      max <= BlockSize(c) && (c > 0 ==> BlockSize(c - 1) < max)
  {
  }

  /** The least class whose blocks are as large as the size and the alignment. */
  ghost predicate LeastClass(size: nat, align: nat, c: nat) {
    && c < CLASSES && size <= BlockSize(c) && align <= BlockSize(c)
    && forall d: nat :: d < c ==> BlockSize(d) < size || BlockSize(d) < align
  }

  lemma ClassIs(size: nat, align: nat)
    ensures SizeClass(Max(size, align)).None? <==> size > 2048 || align > 2048
    ensures forall c: nat :: LeastClass(size, align, c) <==> SizeClass(Max(size, align)) == Some(c)
  {
    hide SizeClass;
    SizeClassFits(Max(size, align));
    forall c: nat | c < CLASSES
      ensures LeastClass(size, align, c) <==> SizeClass(Max(size, align)) == Some(c)
    {
      ClassAt(size, align, c);
    }
  }

  lemma ClassAt(size: nat, align: nat, c: nat)
    requires c < CLASSES
    ensures LeastClass(size, align, c) <==>
      Max(size, align) <= BlockSize(c) && (c > 0 ==> BlockSize(c - 1) < Max(size, align))
  {
    if c > 0 {
      assert forall d: nat :: d < c ==> BlockSize(d) <= BlockSize(c - 1);
    }
  }

  // ---------------------------------------------------------------- addresses

  function AddressOf(c: nat, s: Slot): nat
    requires c < CLASSES
  {
    s.page + s.off * BlockSize(c)
  }

  predicate GoodSlot(c: nat, s: Slot)
    requires c < CLASSES
  {
    s.page % PAGE_SIZE == 0 && s.off < Capacity(c)
  }

  lemma BlockInPage(c: nat, s: Slot)
    requires c < CLASSES && GoodSlot(c, s)
    ensures 0 <= s.off * BlockSize(c) && s.off * BlockSize(c) + BlockSize(c) <= PAGE_SIZE
  {
    var b := BlockSize(c);
    assert (s.off + 1) * b <= Capacity(c) * b;
    assert (s.off + 1) * b == s.off * b + b;
  }

  /** The address of a slot leads back to the slot. */
  lemma SlotRoundTrip(c: nat, s: Slot)
    requires c < CLASSES && GoodSlot(c, s)
    ensures SlotOf(c, AddressOf(c, s)) == s
  {
    BlockInPage(c, s);
    var x := s.off * BlockSize(c);
    assert (s.page + x) % PAGE_SIZE == x;
    MultipleDivides(s.off, BlockSize(c));
  }

  predicate Apart(a: nat, n: nat, b: nat, m: nat) {
    a + n <= b || b + m <= a
  }

  lemma {:induction false} PowersDivide(a: nat, b: nat)
    requires PowerOfTwo(a) && PowerOfTwo(b) && a <= b
    ensures b % a == 0
    decreases b
  {
    if a > 1 {
      PowersDivide(a / 2, b / 2);
      var k := (b / 2) / (a / 2);
      assert b / 2 == k * (a / 2);
      assert b == k * a;
      MultipleDivides(k, a);
    }
  }

  lemma MultiplesApart(d: int, a: int)
    requires a > 0
    ensures d >= 1 ==> d * a >= a
    ensures d <= -1 ==> d * a <= -a
  {
  }

  lemma MultipleDivides(k: nat, a: nat)
    requires a > 0
    ensures (k * a) % a == 0 && (k * a) / a == k
  {
    var q, r := (k * a) / a, (k * a) % a;
    assert k * a == q * a + r;
    assert (k - q) * a == r;
    MultiplesApart(k - q, a);
  }

  lemma ClassPower(c: nat)
    requires c < CLASSES
    ensures PowerOfTwo(BlockSize(c)) && PowerOfTwo(PAGE_SIZE)
  {
    assert PowerOfTwo(8) by { assert PowerOfTwo(4) by { assert PowerOfTwo(2); } }
    assert PowerOfTwo(16) && PowerOfTwo(32);
    assert PowerOfTwo(64) && PowerOfTwo(128);
    assert PowerOfTwo(256) && PowerOfTwo(512);
    assert PowerOfTwo(1024) && PowerOfTwo(2048);
    assert PowerOfTwo(4096);
  }

  /** Every block address satisfies the alignment that led to its class. */
  lemma BlockAligned(c: nat, s: Slot, align: nat)
    requires c < CLASSES && GoodSlot(c, s) && PowerOfTwo(align) && align <= BlockSize(c)
    ensures AddressOf(c, s) % align == 0
  {
    hide PowerOfTwo, BlockSize, Capacity;
    ClassPower(c);
    PositivePower(align);
    BlockInPage(c, s);
    PowersDivide(align, BlockSize(c));
    PowersDivide(align, PAGE_SIZE);
    SumDivides(s.page, PAGE_SIZE, s.off, BlockSize(c), align);
  }

  lemma SumDivides(page: nat, size: nat, o: nat, block: nat, align: nat)
    requires align > 0 && size > 0 && page % size == 0 && size % align == 0 && block % align == 0
    ensures (page + o * block) % align == 0
  {
    var i, j, k := block / align, size / align, page / size;
    assert block == i * align && size == j * align && page == k * size;
    Distribute(k, j, o, i, align);
    MultipleDivides(k * j + o * i, align);
  }

  lemma Distribute(k: nat, j: nat, o: nat, i: nat, align: nat)
    ensures k * (j * align) + o * (i * align) == (k * j + o * i) * align
  {
  }

  lemma PositivePower(n: nat)
    requires PowerOfTwo(n)
    ensures n > 0
  {
  }

  // ---------------------------------------------------------------- the state of all classes

  ghost predicate IsModels(models: seq<Chain>) {
    |models| == CLASSES
  }

  ghost predicate LiveIn(models: seq<Chain>, c: nat, s: Slot)
    requires IsModels(models) && c < CLASSES
  {
    IsLive(c, models[c], s)
  }

  ghost function HeldBy(models: seq<Chain>): set<nat> {
    set c, p | 0 <= c < |models| && p in Pages(models[c]) :: p
  }

  /** Every chain in order, no page in two chains, and `held` exactly the pages in use. */
  ghost predicate GoodHeap(models: seq<Chain>, held: set<nat>) {
    && IsModels(models)
    && (forall c :: 0 <= c < CLASSES ==> Good(c, models[c], true, false))
    && (forall c, d :: 0 <= c < d < CLASSES ==> Pages(models[c]) !! Pages(models[d]))
    && held == HeldBy(models)
  }

  /** Two live blocks, of the same class or not, do not overlap. */
  lemma LiveBlocksApart(models: seq<Chain>, held: set<nat>, c: nat, s: Slot, d: nat, t: Slot)
    requires GoodHeap(models, held) && c < CLASSES && d < CLASSES
    requires LiveIn(models, c, s) && LiveIn(models, d, t) && (c != d || s != t)
    ensures Apart(AddressOf(c, s), BlockSize(c), AddressOf(d, t), BlockSize(d))
  {
    hide Good, BlockSize, Capacity;
    LiveShape(c, models[c], s, true, false);
    LiveShape(d, models[d], t, true, false);
    LiveOnPages(c, models[c], s);
    LiveOnPages(d, models[d], t);
    BlockInPage(c, s);
    BlockInPage(d, t);
    if s.page == t.page {
      assert c == d;
      OffsetsApart(s.off, t.off, BlockSize(c));
    } else {
      PagesApart(s.page, t.page);
    }
  }

  lemma OffsetsApart(i: nat, j: nat, b: nat)
    requires i != j && b > 0
    ensures i * b + b <= j * b || j * b + b <= i * b
  {
    MultiplesApart(j - i, b);
    assert (j - i) * b == j * b - i * b;
  }

  lemma PagesApart(p: nat, q: nat)
    requires p % PAGE_SIZE == 0 && q % PAGE_SIZE == 0 && p != q
    ensures p + PAGE_SIZE <= q || q + PAGE_SIZE <= p
  {
  }

  ghost function PageTotal(lengths: seq<nat>): int {
    if lengths == [] then 0
    else
      var last := |lengths| - 1;
      PageTotal(lengths[..last]) + (if lengths[last] == 0 then 0 else 2 * lengths[last] - 1)
  }

  /** How many buckets each class has. */
  ghost function Lengths(models: seq<Chain>): seq<nat> {
    seq(|models|, c requires 0 <= c < |models| => Length(models[c]))
  }

  ghost predicate PairwiseApart(models: seq<Chain>) {
    forall c, d :: 0 <= c < d < |models| ==> Pages(models[c]) !! Pages(models[d])
  }

  /** One page per head bucket and two per overflow bucket. */
  lemma {:induction false} HeldCount(models: seq<Chain>, lengths: seq<nat>)
    requires |models| == |lengths| <= CLASSES && PairwiseApart(models)
    requires forall c :: 0 <= c < |models| ==> Good(c, models[c], true, false) && lengths[c] == Length(models[c])
    ensures |HeldBy(models)| == PageTotal(lengths)
  {
    hide Good, Pages;
    if models == [] {
      assert HeldBy(models) == {};
    } else {
      var last := |models| - 1;
      HeldCount(models[..last], lengths[..last]);
      HeldByLast(models);
      PageCount(last, models[last], true, false);
      DisjointCount(HeldBy(models[..last]), Pages(models[last]));
    }
  }

  lemma HeldByLast(models: seq<Chain>)
    requires models != [] && PairwiseApart(models)
    ensures var last := |models| - 1;
      && HeldBy(models) == HeldBy(models[..last]) + Pages(models[last])
      && HeldBy(models[..last]) !! Pages(models[last])
  {
    hide Pages;
    var last := |models| - 1;
    forall p | p in HeldBy(models)
      ensures p in HeldBy(models[..last]) + Pages(models[last])
    {
      var c :| 0 <= c < |models| && p in Pages(models[c]);
      if c < last {
        assert models[..last][c] == models[c];
      }
    }
    forall p | p in HeldBy(models[..last])
      ensures p in HeldBy(models) && p !in Pages(models[last])
    {
      var c :| 0 <= c < last && p in Pages(models[..last][c]);
      assert models[c] == models[..last][c];
    }
  }

  /** One chain changes its pages by taking free ones and giving some back. */
  lemma HeapStep(models: seq<Chain>, held: set<nat>, c: nat, chain: Chain, taken: set<nat>, dropped: set<nat>)
    requires GoodHeap(models, held) && c < CLASSES && Good(c, chain, true, false)
    requires taken !! held && dropped <= Pages(models[c])
    requires Pages(chain) == (Pages(models[c]) + taken) - dropped
    ensures GoodHeap(models[c := chain], (held + taken) - dropped)
  {
    hide Good, Pages;
    var after := models[c := chain];
    forall p
      ensures p in HeldBy(after) <==> p in (held + taken) - dropped
    {
      if p in HeldBy(after) {
        var d :| 0 <= d < |after| && p in Pages(after[d]);
        assert d != c ==> p in Pages(models[d]) && p in held && p !in Pages(models[c]);
        assert d == c && p !in taken ==> p in Pages(models[c]) && p in held;
      }
      if p in held && p !in dropped {
        var d :| 0 <= d < |models| && p in Pages(models[d]);
        assert p in Pages(after[d]);
      }
      if p in taken && p !in dropped {
        assert p in Pages(after[c]);
      }
    }
    PagesHeld(models);
    forall d, e | 0 <= d < e < CLASSES
      ensures Pages(after[d]) !! Pages(after[e])
    {
    }
  }

  lemma PagesHeld(models: seq<Chain>)
    ensures forall c :: 0 <= c < |models| ==> Pages(models[c]) <= HeldBy(models)
  {
    hide Pages;
  }

  // ---------------------------------------------------------------- the allocator

  /** What the page allocator hands out: an aligned page, not the first of memory, and not in use here. */
  predicate NewPage(held: set<nat>, page: nat) {
    page % PAGE_SIZE == 0 && page != 0 && page !in held
  }

  /** Two answers of the page allocator in a row are new pages, and different ones. */
  predicate Honest(held: set<nat>, data: Option<nat>, box: Option<nat>) {
    && (data.Some? ==> NewPage(held, data.value))
    && (box.Some? ==> NewPage(held, box.value) && box != data)
  }

  class KAllocator {
    var buckets: seq<Bucket?>
    /** Pages taken from the page allocator and not given back. */
    var held: set<nat>
    ghost var models: seq<Chain>
    ghost var Repr: set<object>

    ghost predicate Ties(c: nat)
      requires c < |buckets| && c < |models|
      reads this, Repr
    {
      && (buckets[c] == null ==> models[c] == Nil)
      && (buckets[c] != null ==>
           && buckets[c] in Repr && buckets[c].Repr <= Repr && this !in buckets[c].Repr
           && buckets[c].Valid() && buckets[c].cls == c && models[c] == buckets[c].model)
    }

    ghost predicate Separate(c: nat, d: nat)
      requires c < |buckets| && d < |buckets|
      reads this, Repr
    {
      buckets[c] != null && buckets[d] != null ==>
        buckets[c] in Repr && buckets[d] in Repr && buckets[c].Repr !! buckets[d].Repr
    }

    ghost predicate Valid()
      reads this, Repr
    {
      && this in Repr && |buckets| == CLASSES && IsModels(models)
      && (forall c :: 0 <= c < CLASSES ==> Ties(c))
      && (forall c, d :: 0 <= c < CLASSES && 0 <= d < CLASSES && c != d ==> Separate(c, d))
      && GoodHeap(models, held)
    }

    constructor ()
      ensures Valid() && fresh(Repr)
      ensures forall c, s :: 0 <= c < CLASSES ==> !LiveIn(models, c, s)
    {
      buckets := seq(CLASSES, _ => null);
      held := {};
      models := seq(CLASSES, _ => Nil);
      Repr := {this};
      new;
    }

    /** The first bucket of a class, with its first block taken. */
    method Open(c: nat, data: nat) returns (slot: Slot)
      requires Valid() && c < CLASSES && buckets[c] == null && data % PAGE_SIZE == 0 && data !in held
      modifies this
      ensures Valid() && fresh(Repr - old(Repr))
      ensures |models| == |old(models)| && models == old(models)[c := models[c]]
      ensures Allocated(c, old(models)[c], models[c], slot)
      ensures Full(c, old(models)[c]) && Length(old(models)[c]) == 0 && Length(models[c]) == 1 && slot == Slot(data, 0)
    {
      hide Good, Allocated, AllBits, NoBits, GoodHeap;
      assert Ties(c);
      var b := new Bucket(c, data, None);
      ghost var empty := b.model;
      GoodParts(c, empty, true, true);
      var first := b.TakeLowest();
      if first.None? {
        EmptyIsNotFull(c, empty.bitmap);
      }
      b.model := b.model.(bitmap := b.bitmap[..]);
      LowestOfNew(c, empty.bitmap, first.value);
      slot := Slot(data, first.value);
      OpenedHead(models, held, c, empty, first.value);
      buckets := buckets[c := b];
      models := models[c := b.model];
      held := held + {data};
      Repr := Repr + b.Repr;
      forall d | 0 <= d < CLASSES
        ensures Ties(d)
      {
        assert d != c ==> old(Ties(d));
      }
      forall d, e | 0 <= d < CLASSES && 0 <= e < CLASSES && d != e
        ensures Separate(d, e)
      {
        assert old(Ties(d)) && old(Ties(e)) && old(Separate(d, e));
        assert (d != c ==> old(Separate(d, c))) && (e != c ==> old(Separate(e, c)));
      }
    }

    /** An allocation in a class that already has a bucket. */
    method Extend(c: nat, data: Option<nat>, box: Option<nat>) returns (r: Grab)
      requires Valid() && c < CLASSES && buckets[c] != null
      requires data.Some? ==> data.value % PAGE_SIZE == 0 && data.value !in held
      requires box.Some? ==> box.value !in held && box != data
      modifies Repr
      ensures Valid() && fresh(Repr - old(Repr))
      ensures |models| == |old(models)| && models == old(models)[c := models[c]]
      ensures Grabbed(c, old(models)[c], models[c], data, box, r)
    {
      hide Good, GoodHeap, Grabbed;
      assert Ties(c);
      GoodChain(models, held, c);
      var b := buckets[c];
      r := b.AllocateBlock(data, box, true, held);
      ExtendedHeap(models, held, c, b.model, data, box, r);
      models := models[c := b.model];
      if r.Got? {
        held := held + r.taken;
      }
      Repr := Repr + b.Repr;
      forall d | 0 <= d < CLASSES
        ensures Ties(d)
      {
        assert d != c ==> old(Ties(d)) && old(Separate(d, c));
      }
      forall d, e | 0 <= d < CLASSES && 0 <= e < CLASSES && d != e
        ensures Separate(d, e)
      {
        assert old(Ties(d)) && old(Ties(e)) && old(Separate(d, e));
        assert (d != c ==> old(Separate(d, c))) && (e != c ==> old(Separate(e, c)));
      }
    }

    method Free(c: nat, addr: nat)
      requires Valid() && c < CLASSES && buckets[c] != null
      modifies Repr
      ensures Valid() && Repr == old(Repr)
      ensures |models| == |old(models)| && models == old(models)[c := models[c]]
      ensures Freed(c, old(models)[c], models[c], SlotOf(c, addr))
    {
      hide Good, GoodHeap, Released, Freed;
      assert Ties(c);
      GoodChain(models, held, c);
      var b := buckets[c];
      var dropped := b.FreeBlock(addr, true, false);
      ReleasedHeap(models, held, c, b.model, SlotOf(c, addr), dropped);
      models := models[c := b.model];
      held := held - dropped;
      forall d | 0 <= d < CLASSES
        ensures Ties(d)
      {
        assert d != c ==> old(Ties(d)) && old(Separate(d, c));
      }
      forall d, e | 0 <= d < CLASSES && 0 <= e < CLASSES && d != e
        ensures Separate(d, e)
      {
        assert old(Ties(d)) && old(Ties(e)) && old(Separate(d, e));
        assert (d != c ==> old(Separate(d, c))) && (e != c ==> old(Separate(e, c)));
      }
    }

    /** `data` and `box` are what the page allocator would answer if asked for a page, once and once more. */
    method Allocate(size: nat, align: nat, data: Option<nat>, box: Option<nat>) returns (r: Outcome)
      requires Valid() && PowerOfTwo(align) && Honest(held, data, box)
      modifies Repr
      ensures Valid() && fresh(Repr - old(Repr))
      ensures AllocOutcome(old(models), size, align, data, box, r)
      ensures r.Block? ==> NewBlock(old(models), models, size, align, r.addr)
      ensures !r.Block? ==> models == old(models)
      ensures size > 2048 || align > 2048 ==> r == if align <= 4096 then ToPages else Panicked
      ensures size <= 2048 && align <= 2048 ==> !r.ToPages?
      ensures forall c: nat :: LeastClass(size, align, c) ==> TakenIn(c, old(models), models, data, box, r)
    {
      hide PowerOfTwo, GoodHeap, Allocated, Full, SizeClass, Max, BlockSize, LeastClass, LowestFree;
      ClassIs(size, align);
      var cls := SizeClass(Max(size, align));
      if cls.None? {
        return if align <= PAGE_SIZE then ToPages else Panicked;
      }
      var c := cls.value;
      assert Ties(c);
      var slot;
      if buckets[c] != null {
        var got := Extend(c, data, box);
        match got {
          case NoPage =>
            assert models == old(models);
            return AllocError;
          case Aborted =>
            assert models == old(models);
            return Panicked;
          case Got(s, _) =>
            slot := s;
        }
      } else if data.None? {
        EmptyIsFull(c);
        return AllocError;
      } else {
        slot := Open(c, data.value);
      }
      BlockMade(old(models), models, held, c, slot, size, align);
      SlotOfBlock(models, held, c, old(models)[c], slot);
      return Block(slot.page + slot.off * BlockSize(c));
    }

    method Deallocate(addr: nat, size: nat, align: nat) returns (r: Outcome)
      requires Valid() && PowerOfTwo(align)
      modifies Repr
      ensures Valid() && Repr == old(Repr)
      ensures r.Block? ==>
                && r.addr == addr && SizeClass(Max(size, align)).Some?
                && var c := SizeClass(Max(size, align)).value;
                && |models| == |old(models)| && models == old(models)[c := models[c]]
                && Freed(c, old(models)[c], models[c], SlotOf(c, addr))
      ensures !r.Block? ==> models == old(models)
      ensures match SizeClass(Max(size, align))
        case None => r == if align <= PAGE_SIZE then ToPages else Panicked
        case Some(c) => r == if old(models)[c] != Nil then Block(addr) else Panicked
      ensures size > 2048 || align > 2048 ==> r == if align <= 4096 then ToPages else Panicked
      ensures forall c: nat :: LeastClass(size, align, c) ==> FreedIn(c, old(models), models, addr, r)
    {
      hide PowerOfTwo, GoodHeap, Freed, SizeClass, Max, LeastClass;
      ClassIs(size, align);
      var cls := SizeClass(Max(size, align));
      if cls.None? {
        return if align <= PAGE_SIZE then ToPages else Panicked;
      }
      assert Ties(cls.value);
      if buckets[cls.value] == null {
        return Panicked;
      }
      Free(cls.value, addr);
      return Block(addr);
    }
  }

  /**
   How an allocation ends. It panics exactly for an alignment beyond a page, or when every bucket of a class
   in use is full and there is a page for the blocks of a new one but none for the bucket itself; it fails
   exactly when every bucket is full and there is no page.
   */
  ghost predicate AllocOutcome(models: seq<Chain>, size: nat, align: nat, data: Option<nat>, box: Option<nat>,
      r: Outcome) {
    IsModels(models) && match SizeClass(Max(size, align))
    case None => r == if align <= PAGE_SIZE then ToPages else Panicked
    case Some(c) =>
      && (r.AllocError? <==> Full(c, models[c]) && data.None?)
      && (r.Panicked? <==> models[c] != Nil && Full(c, models[c]) && data.Some? && box.None?)
      && !r.ToPages? && !r.NoCall?
  }

  /**
   An allocation in class `c`: its block is the lowest free one of the first bucket with a free one, or the first
   one of a new page.
   */
  ghost predicate TakenIn(c: nat, before: seq<Chain>, after: seq<Chain>, data: Option<nat>, box: Option<nat>,
      r: Outcome)
    requires c < CLASSES
  {
    IsModels(before) && IsModels(after) && match r
    case Block(addr) =>
      && after == before[c := after[c]] && addr == AddressOf(c, SlotOf(c, addr))
      && Allocated(c, before[c], after[c], SlotOf(c, addr))
      && if Full(c, before[c]) then data == Some(addr) else LowestFree(c, before[c], SlotOf(c, addr))
    case AllocError => after == before && Full(c, before[c]) && data.None?
    case Panicked => after == before && before[c] != Nil && Full(c, before[c]) && data.Some? && box.None?
    case _ => false
  }

  ghost predicate FreedIn(c: nat, before: seq<Chain>, after: seq<Chain>, addr: nat, r: Outcome)
    requires c < CLASSES
  {
    && IsModels(before) && IsModels(after)
    && if before[c] == Nil then r == Panicked && after == before
       else r == Block(addr) && after == before[c := after[c]] && Freed(c, before[c], after[c], SlotOf(c, addr))
  }

  lemma SlotOfBlock(models: seq<Chain>, held: set<nat>, c: nat, before: Chain, slot: Slot)
    requires GoodHeap(models, held) && c < CLASSES && Allocated(c, before, models[c], slot)
    ensures SlotOf(c, AddressOf(c, slot)) == slot
  {
    hide Good;
    GoodChain(models, held, c);
    assert IsLive(c, models[c], slot);
    LiveShape(c, models[c], slot, true, false);
    SlotRoundTrip(c, slot);
  }

  lemma OpenedHead(models: seq<Chain>, held: set<nat>, c: nat, empty: Chain, o: nat)
    requires GoodHeap(models, held) && c < CLASSES && models[c] == Nil
    requires empty.Link? && empty.next == Nil && Good(c, empty, true, true) && NoBits(empty.bitmap)
    requires o < Capacity(c) && empty.page !in held
    ensures var head := empty.(bitmap := SetIn(empty.bitmap, o));
      && GoodHeap(models[c := head], held + {empty.page})
      && Allocated(c, Nil, head, Slot(empty.page, o))
  {
    hide BitAt, SetIn, GoodHeap;
    var head := empty.(bitmap := SetIn(empty.bitmap, o));
    assert !BitAt(empty.bitmap, o);
    TakeHere(c, empty, o, true);
    NothingLive(c, empty);
    HeapStep(models, held, c, head, {empty.page}, {});
    assert (held + {empty.page}) - {} == held + {empty.page};
  }

  lemma NothingLive(c: nat, empty: Chain)
    requires c < CLASSES && empty.Link? && empty.next == Nil && NoBits(empty.bitmap)
    ensures forall t :: !IsLive(c, empty, t) && !IsLive(c, Nil, t)
  {
  }

  lemma EmptyIsFull(c: nat)
    requires c < CLASSES
    ensures Full(c, Nil)
  {
  }

  lemma GoodChain(models: seq<Chain>, held: set<nat>, c: nat)
    requires GoodHeap(models, held) && c < CLASSES
    ensures IsModels(models) && Good(c, models[c], true, false) && Pages(models[c]) <= held
  {
    PagesHeld(models);
  }

  lemma ExtendedHeap(models: seq<Chain>, held: set<nat>, c: nat, chain: Chain, data: Option<nat>, box: Option<nat>,
      r: Grab)
    requires GoodHeap(models, held) && c < CLASSES && Good(c, chain, true, false)
    requires Grabbed(c, models[c], chain, data, box, r)
    requires data.Some? ==> data.value !in held
    requires box.Some? ==> box.value !in held
    ensures GoodHeap(models[c := chain], if r.Got? then held + r.taken else held)
  {
    hide Good, GoodHeap, Pages, Allocated, Full;
    GoodChain(models, held, c);
    if r.Got? {
      HeapStep(models, held, c, chain, r.taken, {});
      assert (held + r.taken) - {} == held + r.taken;
    } else {
      assert models[c := chain] == models;
    }
  }

  lemma ReleasedHeap(models: seq<Chain>, held: set<nat>, c: nat, chain: Chain, s: Slot, dropped: set<nat>)
    requires GoodHeap(models, held) && c < CLASSES && Good(c, chain, true, true)
    requires Released(c, models[c], chain, s, dropped)
    ensures GoodHeap(models[c := chain], held - dropped)
    ensures Freed(c, models[c], chain, s)
  {
    hide GoodHeap, Pages, Freed, GoodBucket;
    HeapStep(models, held, c, chain, {}, dropped);
    assert held + {} == held;
  }

  /** A new block of the right class: aligned, large enough, live from now on, and not live before. */
  ghost predicate NewBlock(before: seq<Chain>, after: seq<Chain>, size: nat, align: nat, addr: nat) {
    && IsModels(before) && IsModels(after) && align > 0 && addr % align == 0 && SizeClass(Max(size, align)).Some?
    && var c := SizeClass(Max(size, align)).value;
    && size <= BlockSize(c) && after == before[c := after[c]]
    && addr == AddressOf(c, SlotOf(c, addr))
    && Allocated(c, before[c], after[c], SlotOf(c, addr))
    && Length(after[c]) == Length(before[c]) + (if Full(c, before[c]) then 1 else 0)
  }

  lemma BlockMade(before: seq<Chain>, after: seq<Chain>, held: set<nat>, c: nat, slot: Slot, size: nat, align: nat)
    requires IsModels(before) && GoodHeap(after, held) && SizeClass(Max(size, align)) == Some(c) && PowerOfTwo(align)
    requires after == before[c := after[c]] && Allocated(c, before[c], after[c], slot)
    requires Length(after[c]) == Length(before[c]) + (if Full(c, before[c]) then 1 else 0)
    ensures NewBlock(before, after, size, align, AddressOf(c, slot))
  {
    hide Good, PowerOfTwo;
    SizeClassFits(Max(size, align));
    GoodChain(after, held, c);
    assert IsLive(c, after[c], slot);
    LiveShape(c, after[c], slot, true, false);
    SlotRoundTrip(c, slot);
    PositivePower(align);
    BlockAligned(c, slot, align);
  }

  // ---------------------------------------------------------------- whole runs

  /** A block handed out, with the layout it was asked for. */
  datatype Loan = Loan(addr: nat, size: nat, align: nat)

  /** `Release` gives back the i-th block still out. */
  datatype HeapCall =
    | Alloc(size: nat, align: nat, data: Option<nat>, box: Option<nat>)
    | Release(i: nat)

  ghost predicate Holds(l: Loan, c: nat, s: Slot)
    requires c < CLASSES
  {
    SizeClass(Max(l.size, l.align)) == Some(c) && SlotOf(c, l.addr) == s
  }

  ghost predicate GoodLoan(models: seq<Chain>, l: Loan)
    requires IsModels(models)
  {
    && PowerOfTwo(l.align) && l.align > 0 && l.addr % l.align == 0 && SizeClass(Max(l.size, l.align)).Some?
    && var c := SizeClass(Max(l.size, l.align)).value;
    && l.size <= BlockSize(c) && l.addr == AddressOf(c, SlotOf(c, l.addr))
    && LiveIn(models, c, SlotOf(c, l.addr))
  }

  /** The live slots of all chains are exactly the blocks out, each once. */
  ghost predicate Matches(models: seq<Chain>, loans: seq<Loan>)
    requires IsModels(models)
  {
    && (forall i :: 0 <= i < |loans| ==> GoodLoan(models, loans[i]))
    && (forall i, j, c: nat, s :: 0 <= i < j < |loans| && c < CLASSES && Holds(loans[i], c, s) ==>
          !Holds(loans[j], c, s))
    && (forall c: nat, s :: c < CLASSES && LiveIn(models, c, s) ==> Someone(loans, c, s))
  }

  ghost predicate Someone(loans: seq<Loan>, c: nat, s: Slot)
    requires c < CLASSES
  {
    exists i :: 0 <= i < |loans| && Holds(loans[i], c, s)
  }

  lemma LendBlock(before: seq<Chain>, after: seq<Chain>, loans: seq<Loan>, l: Loan)
    requires IsModels(before) && IsModels(after) && Matches(before, loans)
    requires NewBlock(before, after, l.size, l.align, l.addr) && PowerOfTwo(l.align)
    ensures Matches(after, loans + [l])
  {
    hide PowerOfTwo, IsLive, BlockSize, Full, Length, SizeClass, SlotOf, AddressOf;
    var c := SizeClass(Max(l.size, l.align)).value;
    var t := SlotOf(c, l.addr);
    var more := loans + [l];
    forall d: nat, s | d < CLASSES
      ensures LiveIn(after, d, s) <==> LiveIn(before, d, s) || (d == c && s == t)
    {
    }
    forall i | 0 <= i < |loans|
      ensures GoodLoan(after, loans[i]) && !Holds(loans[i], c, t)
    {
      assert GoodLoan(before, loans[i]);
    }
    forall d: nat, s | d < CLASSES && LiveIn(after, d, s)
      ensures Someone(more, d, s)
    {
      if d == c && s == t {
        assert Holds(more[|loans|], d, s);
      } else {
        assert Someone(loans, d, s);
        var i :| 0 <= i < |loans| && Holds(loans[i], d, s);
        assert more[i] == loans[i];
      }
    }
    forall i, j, d: nat, s | 0 <= i < j < |more| && d < CLASSES && Holds(more[i], d, s)
      ensures !Holds(more[j], d, s)
    {
      assert more[i] == loans[i];
      if j < |loans| {
        assert more[j] == loans[j];
      }
    }
  }

  lemma WithoutAt(loans: seq<Loan>, k: nat, i: nat)
    requires k < |loans| && i < |loans| - 1
    ensures RemoveAt(loans, k)[i] == loans[if i < k then i else i + 1]
  {
  }

  lemma StillSomeone(loans: seq<Loan>, k: nat, c: nat, s: Slot)
    requires k < |loans| && c < CLASSES && Someone(loans, c, s) && !Holds(loans[k], c, s)
    ensures Someone(RemoveAt(loans, k), c, s)
  {
    hide Holds, RemoveAt;
    var i :| 0 <= i < |loans| && Holds(loans[i], c, s);
    var o := if i < k then i else i - 1;
    assert |RemoveAt(loans, k)| == |loans| - 1 by { WithoutLength(loans, k); }
    WithoutAt(loans, k, o);
  }

  lemma WithoutLength(loans: seq<Loan>, k: nat)
    requires k < |loans|
    ensures |RemoveAt(loans, k)| == |loans| - 1
  {
  }

  /** Freeing one loan's slot leaves every other loan good. */
  lemma OtherLoanGood(before: seq<Chain>, after: seq<Chain>, c: nat, t: Slot, o: Loan)
    requires IsModels(before) && IsModels(after) && c < CLASSES && after == before[c := after[c]]
    requires Freed(c, before[c], after[c], t) && GoodLoan(before, o) && !Holds(o, c, t)
    ensures GoodLoan(after, o)
  {
    hide PowerOfTwo, IsLive, BlockSize, SizeClass, SlotOf, AddressOf;
  }

  lemma ReturnBlock(before: seq<Chain>, after: seq<Chain>, loans: seq<Loan>, k: nat)
    requires IsModels(before) && IsModels(after) && Matches(before, loans) && k < |loans|
    requires SizeClass(Max(loans[k].size, loans[k].align)).Some?
    requires var c := SizeClass(Max(loans[k].size, loans[k].align)).value;
      after == before[c := after[c]] && Freed(c, before[c], after[c], SlotOf(c, loans[k].addr))
    ensures Matches(after, RemoveAt(loans, k))
  {
    hide PowerOfTwo, IsLive, BlockSize, SizeClass, SlotOf, AddressOf, GoodLoan, Someone, RemoveAt;
    assert GoodLoan(before, loans[k]);
    var c := SizeClass(Max(loans[k].size, loans[k].align)).value;
    var t := SlotOf(c, loans[k].addr);
    assert Holds(loans[k], c, t);
    var fewer := RemoveAt(loans, k);
    WithoutLength(loans, k);
    forall i | 0 <= i < |fewer|
      ensures GoodLoan(after, fewer[i])
    {
      WithoutAt(loans, k, i);
      OtherLoanGood(before, after, c, t, fewer[i]);
    }
    forall d: nat, s | d < CLASSES && LiveIn(after, d, s)
      ensures Someone(fewer, d, s)
    {
      assert LiveIn(before, d, s) && !(d == c && s == t);
      StillSomeone(loans, k, d, s);
    }
    forall i, j, d: nat, s | 0 <= i < j < |fewer| && d < CLASSES && Holds(fewer[i], d, s)
      ensures !Holds(fewer[j], d, s)
    {
      WithoutAt(loans, k, i);
      WithoutAt(loans, k, j);
    }
  }

  lemma LoansApart(models: seq<Chain>, held: set<nat>, loans: seq<Loan>, i: nat, j: nat)
    requires IsModels(models) && GoodHeap(models, held) && Matches(models, loans) && i < j < |loans|
    ensures Apart(loans[i].addr, loans[i].size, loans[j].addr, loans[j].size)
  {
    hide GoodHeap, PowerOfTwo, IsLive, BlockSize, SizeClass, SlotOf, AddressOf;
    assert GoodLoan(models, loans[i]) && GoodLoan(models, loans[j]);
    var c := SizeClass(Max(loans[i].size, loans[i].align)).value;
    var d := SizeClass(Max(loans[j].size, loans[j].align)).value;
    var s, t := SlotOf(c, loans[i].addr), SlotOf(d, loans[j].addr);
    assert Holds(loans[i], c, s) && Holds(loans[j], d, t);
    LiveBlocksApart(models, held, c, s, d, t);
  }

  /** The chains and the blocks out after a number of calls. */
  datatype Moment = Moment(models: seq<Chain>, loans: seq<Loan>)

  /** The set bits are exactly the blocks out, these are aligned and do not overlap, and the pages are counted. */
  ghost predicate Sound(m: Moment) {
    && GoodHeap(m.models, HeldBy(m.models)) && Matches(m.models, m.loans)
    && (forall i :: 0 <= i < |m.loans| ==> m.loans[i].align > 0 && m.loans[i].addr % m.loans[i].align == 0)
    && (forall i, j :: 0 <= i < j < |m.loans| ==>
          Apart(m.loans[i].addr, m.loans[i].size, m.loans[j].addr, m.loans[j].size))
    && |HeldBy(m.models)| == PageTotal(Lengths(m.models))
  }

  lemma SoundMade(models: seq<Chain>, held: set<nat>, loans: seq<Loan>)
    requires GoodHeap(models, held) && Matches(models, loans)
    ensures Sound(Moment(models, loans)) && HeldBy(models) == held
  {
    hide Matches, Good;
    HeapPages(models, held);
    forall i | 0 <= i < |loans|
      ensures loans[i].align > 0 && loans[i].addr % loans[i].align == 0
    {
      LoanInUse(models, loans, i);
    }
    forall i, j | 0 <= i < j < |loans|
      ensures Apart(loans[i].addr, loans[i].size, loans[j].addr, loans[j].size)
    {
      LoansApart(models, held, loans, i, j);
    }
  }

  /** The page answers that come with a call are those of a page allocator. */
  predicate HonestCall(held: set<nat>, call: HeapCall) {
    call.Alloc? ==> Honest(held, call.data, call.box)
  }

  /**
   What one call does. A block handed out is new and joins the blocks out; a block given back is the only
   one to leave them, and giving it back never panics; a call that ends otherwise changes nothing.
   */
  ghost predicate Serves(before: Moment, after: Moment, call: HeapCall, r: Outcome)
    requires IsModels(before.models)
  {
    match call
    case Alloc(size, align, data, box) =>
      && AllocOutcome(before.models, size, align, data, box, r)
      && (r.Block? ==>
            && NewBlock(before.models, after.models, size, align, r.addr)
            && after.loans == before.loans + [Loan(r.addr, size, align)])
      && (!r.Block? ==> after == before)
    case Release(i) =>
      if i < |before.loans| then
        && r == Block(before.loans[i].addr) && after.loans == RemoveAt(before.loans, i)
        && LoanFreed(before.models, after.models, before.loans[i])
      else after == before && r == NoCall
  }

  ghost predicate LoanFreed(before: seq<Chain>, after: seq<Chain>, l: Loan)
    requires IsModels(before)
  {
    && SizeClass(Max(l.size, l.align)).Some?
    && var c := SizeClass(Max(l.size, l.align)).value;
    && IsModels(after) && after == before[c := after[c]] && Freed(c, before[c], after[c], SlotOf(c, l.addr))
  }

  /**
   Any run of allocations and frees from an empty heap, up to the first panic or the first answer that no
   page allocator gives. `Release` with no such block is not a call.
   */
  method Run(calls: seq<HeapCall>) returns (outcomes: seq<Outcome>, loans: seq<Loan>, ghost history: seq<Moment>)
    requires forall k :: k in calls && k.Alloc? ==> PowerOfTwo(k.align)
    ensures |outcomes| <= |calls| && |history| == |outcomes| + 1
    ensures history[0].loans == [] && loans == history[|outcomes|].loans
    ensures forall k :: 0 <= k <= |outcomes| ==> Sound(history[k])
    ensures forall k :: 0 <= k < |outcomes| ==>
        IsModels(history[k].models) && Serves(history[k], history[k + 1], calls[k], outcomes[k])
    ensures |outcomes| < |calls| ==>
              || (outcomes != [] && outcomes[|outcomes| - 1].Panicked?)
              || !HonestCall(HeldBy(history[|outcomes|].models), calls[|outcomes|])
  {
    hide Matches, NewBlock, Freed, GoodHeap, Full, PowerOfTwo, RemoveAt, Sound, Serves, Honest, HeldBy;
    var heap := new KAllocator();
    outcomes, loans := [], [];
    NoLoans(heap.models);
    SoundMade(heap.models, heap.held, loans);
    history := [Moment(heap.models, loans)];
    var panicked := false;
    while |outcomes| < |calls| && !panicked && HonestCall(heap.held, calls[|outcomes|])
      invariant |outcomes| <= |calls| && |history| == |outcomes| + 1 && history[0].loans == []
      invariant heap.Valid() && fresh(heap.Repr) && Matches(heap.models, loans)
      invariant history[|outcomes|] == Moment(heap.models, loans) && HeldBy(heap.models) == heap.held
      invariant forall k :: 0 <= k <= |outcomes| ==> Sound(history[k])
      invariant forall k :: 0 <= k < |outcomes| ==>
          IsModels(history[k].models) && Serves(history[k], history[k + 1], calls[k], outcomes[k])
      invariant panicked ==> outcomes != [] && outcomes[|outcomes| - 1].Panicked?
      decreases |calls| - |outcomes|
    {
      var k := |outcomes|;
      assert calls[k] in calls;
      var r;
      r, loans := OneCall(heap, loans, calls[k]);
      SoundMade(heap.models, heap.held, loans);
      history := history + [Moment(heap.models, loans)];
      outcomes := outcomes + [r];
      panicked := r.Panicked?;
    }
  }

  /** One call on the heap. */
  method OneCall(heap: KAllocator, loans: seq<Loan>, call: HeapCall) returns (r: Outcome, out: seq<Loan>)
    requires heap.Valid() && Matches(heap.models, loans) && HonestCall(heap.held, call)
    requires call.Alloc? ==> PowerOfTwo(call.align)
    modifies heap.Repr
    ensures heap.Valid() && fresh(heap.Repr - old(heap.Repr)) && Matches(heap.models, out)
    ensures Serves(Moment(old(heap.models), loans), Moment(heap.models, out), call, r)
  {
    hide Matches, NewBlock, Freed, GoodHeap, Full, PowerOfTwo, RemoveAt, AllocOutcome;
    ghost var before := heap.models;
    out := loans;
    match call {
      case Alloc(size, align, data, box) =>
        r := heap.Allocate(size, align, data, box);
        if r.Block? {
          LendBlock(before, heap.models, loans, Loan(r.addr, size, align));
          out := loans + [Loan(r.addr, size, align)];
        }
      case Release(i) =>
        r := NoCall;
        if i < |loans| {
          LoanInUse(heap.models, loans, i);
          r := heap.Deallocate(loans[i].addr, loans[i].size, loans[i].align);
          ReturnBlock(before, heap.models, loans, i);
          out := RemoveAt(loans, i);
        }
    }
  }

  lemma HeapPages(models: seq<Chain>, held: set<nat>)
    requires GoodHeap(models, held)
    ensures IsModels(models) && |held| == PageTotal(Lengths(models))
  {
    HeldCount(models, Lengths(models));
  }

  lemma NoLoans(models: seq<Chain>)
    requires IsModels(models) && forall c, s :: 0 <= c < CLASSES ==> !LiveIn(models, c, s)
    ensures Matches(models, [])
  {
  }

  lemma LoanInUse(models: seq<Chain>, loans: seq<Loan>, i: nat)
    requires IsModels(models) && Matches(models, loans) && i < |loans|
    ensures var l := loans[i];
      && PowerOfTwo(l.align) && l.align > 0 && l.addr % l.align == 0 && SizeClass(Max(l.size, l.align)).Some?
      && models[SizeClass(Max(l.size, l.align)).value] != Nil
  {
    assert GoodLoan(models, loans[i]);
  }
}
