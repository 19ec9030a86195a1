/**
 What a chain of allocator buckets means (kernel/src/memory/allocator/mod.rs): a set of live slots over
 pages of its own. `Buckets` ties the linked objects to these values.
 */
module Chains {
  import opened Prelude
  import opened Bits

  const CLASSES: nat := 9

  /** The block size of each bucket class. */
  function BlockSize(c: nat): (b: nat)
    requires c < CLASSES
    ensures b > 0 && PAGE_SIZE % b == 0
  {
    if c == 0 then 8 else if c == 1 then 16 else if c == 2 then 32 else if c == 3 then 64
    else if c == 4 then 128 else if c == 5 then 256 else if c == 6 then 512
    else if c == 7 then 1024 else 2048
  }

  function PowerOf2(n: nat): nat {
    if n == 0 then 1 else 2 * PowerOf2(n - 1)
  }

  lemma BlockSizeIs(c: nat)
    requires c < CLASSES
    ensures BlockSize(c) == 8 * PowerOf2(c)
  {
    if c > 0 {
      BlockSizeIs(c - 1);
    }
  }

  function BitmapBytes(c: nat): (n: nat)
    requires c < CLASSES
    ensures n > 0
  {
    if c == 0 then 64 else if c == 1 then 32 else if c == 2 then 16 else if c == 3 then 8
    else if c == 4 then 4 else if c == 5 then 2 else 1
  }

  /** How many blocks a page holds; the two largest classes use fewer bits than their byte has. */
  function Capacity(c: nat): (n: nat)
    requires c < CLASSES
    ensures 0 < n <= 8 * BitmapBytes(c)
    ensures n * BlockSize(c) == PAGE_SIZE
  {
    PAGE_SIZE / BlockSize(c)
  }

  // ---------------------------------------------------------------- bitmaps

  predicate BitAt(bitmap: seq<bv8>, o: nat)
    requires o < 8 * |bitmap|
  {
    Bit8(bitmap[o / 8], o % 8)
  }

  function SetIn(bitmap: seq<bv8>, o: nat): (r: seq<bv8>)
    requires o < 8 * |bitmap|
    ensures |r| == |bitmap|
  {
    bitmap[o / 8 := Set8(bitmap[o / 8], o % 8)]
  }

  function ClearIn(bitmap: seq<bv8>, o: nat): (r: seq<bv8>)
    requires o < 8 * |bitmap|
    ensures |r| == |bitmap|
  {
    bitmap[o / 8 := Clear8(bitmap[o / 8], o % 8)]
  }

  lemma SetInBits(bitmap: seq<bv8>, o: nat, p: nat)
    requires o < 8 * |bitmap| && p < 8 * |bitmap|
    ensures BitAt(SetIn(bitmap, o), p) <==> o == p || BitAt(bitmap, p)
  {
    hide Bit8, Set8;
    SetBit8(bitmap[o / 8], o % 8, p % 8);
  }

  lemma ClearInBits(bitmap: seq<bv8>, o: nat, p: nat)
    requires o < 8 * |bitmap| && p < 8 * |bitmap|
    ensures BitAt(ClearIn(bitmap, o), p) <==> o != p && BitAt(bitmap, p)
  {
    hide Bit8, Clear8;
    ClearBit8(bitmap[o / 8], o % 8, p % 8);
  }

  ghost predicate NoBits(bitmap: seq<bv8>) {
    forall o: nat :: o < 8 * |bitmap| ==> !BitAt(bitmap, o)
  }

  ghost predicate AllBits(c: nat, bitmap: seq<bv8>)
    requires c < CLASSES && |bitmap| == BitmapBytes(c)
  {
    forall o: nat :: o < Capacity(c) ==> BitAt(bitmap, o)
  }

  /** The bits beyond the page's blocks. */
  ghost predicate SpareClear(c: nat, bitmap: seq<bv8>)
    requires c < CLASSES && |bitmap| == BitmapBytes(c)
  {
    forall o: nat :: Capacity(c) <= o < 8 * |bitmap| ==> !BitAt(bitmap, o)
  }

  // ---------------------------------------------------------------- chains

  /** A bucket and its overflow buckets. Only these live in a page of their own, `node`. */
  datatype Chain = Nil | Link(page: nat, node: Option<nat>, bitmap: seq<bv8>, next: Chain)

  /** A block: the page it is on and its number there. */
  datatype Slot = Slot(page: nat, off: nat)

  /** The pages of one bucket. */
  function Own(page: nat, node: Option<nat>): set<nat> {
    if node.Some? then {page, node.value} else {page}
  }

  ghost function Pages(chain: Chain): set<nat> {
    match chain
    case Nil => {}
    case Link(page, node, _, next) => Own(page, node) + Pages(next)
  }

  function Length(chain: Chain): nat {
    if chain.Nil? then 0 else 1 + Length(chain.next)
  }

  ghost predicate LiveHere(c: nat, page: nat, bitmap: seq<bv8>, s: Slot)
    requires c < CLASSES
  {
    s.page == page && s.off < Capacity(c) && s.off < 8 * |bitmap| && BitAt(bitmap, s.off)
  }

  ghost predicate IsLive(c: nat, chain: Chain, s: Slot)
    requires c < CLASSES
  {
    chain.Link? && (LiveHere(c, chain.page, chain.bitmap, s) || IsLive(c, chain.next, s))
  }

  ghost predicate Full(c: nat, chain: Chain)
    requires c < CLASSES
  {
    chain.Link? ==> |chain.bitmap| == BitmapBytes(c) && AllBits(c, chain.bitmap) && Full(c, chain.next)
  }

  /** The lowest free slot of the first bucket that has one. */
  ghost predicate LowestFree(c: nat, chain: Chain, s: Slot)
    requires c < CLASSES
  {
    && chain.Link? && |chain.bitmap| == BitmapBytes(c)
    && if AllBits(c, chain.bitmap) then LowestFree(c, chain.next, s)
       else s.page == chain.page && LowestClear(c, chain.bitmap, s.off)
  }

  ghost predicate LowestClear(c: nat, bitmap: seq<bv8>, o: nat)
    requires c < CLASSES && |bitmap| == BitmapBytes(c)
  {
    o < Capacity(c) && !BitAt(bitmap, o) && forall p: nat :: p < o ==> BitAt(bitmap, p)
  }

  ghost predicate GoodBucket(c: nat, page: nat, bitmap: seq<bv8>)
    requires c < CLASSES
  {
    page % PAGE_SIZE == 0 && |bitmap| == BitmapBytes(c) && SpareClear(c, bitmap)
  }

  /** No page serves twice. */
  ghost predicate OwnPages(page: nat, node: Option<nat>, rest: set<nat>) {
    node != Some(page) && Own(page, node) !! rest
  }

  /**
   Pages and bitmaps in order, and no overflow bucket empty. `head` marks the first bucket, which has no
   node page and may be empty; with `loose` the bucket at the front may be empty as well.
   */
  ghost predicate Good(c: nat, chain: Chain, head: bool, loose: bool)
    requires c < CLASSES
  {
    chain.Link? ==>
      && GoodBucket(c, chain.page, chain.bitmap)
      && (chain.node.None? <==> head)
      && OwnPages(chain.page, chain.node, Pages(chain.next))
      && (!head && !loose ==> !NoBits(chain.bitmap))
      && Good(c, chain.next, false, false)
  }

  /** Live slots lie on the chain's own pages. */
  lemma {:induction false} LiveOnPages(c: nat, chain: Chain, s: Slot)
    requires c < CLASSES && IsLive(c, chain, s)
    ensures s.page in Pages(chain)
  {
    if !LiveHere(c, chain.page, chain.bitmap, s) {
      LiveOnPages(c, chain.next, s);
    }
  }

  lemma {:induction false} LiveShape(c: nat, chain: Chain, s: Slot, head: bool, loose: bool)
    requires c < CLASSES && Good(c, chain, head, loose) && IsLive(c, chain, s)
    ensures s.page % PAGE_SIZE == 0 && s.off < Capacity(c)
  {
    if !LiveHere(c, chain.page, chain.bitmap, s) {
      LiveShape(c, chain.next, s, false, false);
    }
  }

  lemma OwnCount(page: nat, node: Option<nat>)
    requires node != Some(page)
    ensures |Own(page, node)| == if node.Some? then 2 else 1
  {
  }

  lemma DisjointCount(a: set<nat>, b: set<nat>)
    requires a !! b
    ensures |a + b| == |a| + |b|
  {
  }

  /** One page for the first bucket and two for each overflow bucket, all different. */
  lemma {:induction false} PageCount(c: nat, chain: Chain, head: bool, loose: bool)
    requires c < CLASSES && Good(c, chain, head, loose)
    ensures |Pages(chain)| == 2 * Length(chain) - (if head && chain.Link? then 1 else 0)
  {
    hide GoodBucket, NoBits, Own;
    if chain.Link? {
      PageCount(c, chain.next, false, false);
      OwnCount(chain.page, chain.node);
      DisjointCount(Own(chain.page, chain.node), Pages(chain.next));
    }
  }

  // ---------------------------------------------------------------- allocating

  ghost predicate Allocated(c: nat, before: Chain, after: Chain, s: Slot)
    requires c < CLASSES
  {
    !IsLive(c, before, s) && forall t :: IsLive(c, after, t) <==> IsLive(c, before, t) || t == s
  }

  ghost predicate Freed(c: nat, before: Chain, after: Chain, s: Slot)
    requires c < CLASSES
  {
    forall t :: IsLive(c, after, t) <==> IsLive(c, before, t) && t != s
  }

  lemma NotOnOwnPage(c: nat, chain: Chain, s: Slot)
    requires c < CLASSES && s.page !in Pages(chain)
    ensures !IsLive(c, chain, s)
  {
    if IsLive(c, chain, s) {
      LiveOnPages(c, chain, s);
    }
  }

  lemma OffPage(c: nat, page: nat, bitmap: seq<bv8>, s: Slot)
    requires c < CLASSES && s.page != page
    ensures !LiveHere(c, page, bitmap, s)
  {
  }

  /** Taking a clear bit of the first bucket. */
  lemma TakeHere(c: nat, chain: Chain, o: nat, head: bool)
    requires c < CLASSES && chain.Link? && Good(c, chain, head, false)
    requires o < Capacity(c) && !BitAt(chain.bitmap, o)
    ensures var after := chain.(bitmap := SetIn(chain.bitmap, o));
      && Good(c, after, head, false)
      && Allocated(c, chain, after, Slot(chain.page, o))
  {
    hide BitAt, SetIn, Good;
    GoodParts(c, chain, head, false);
    var bitmap := SetIn(chain.bitmap, o);
    var after := chain.(bitmap := bitmap);
    var s := Slot(chain.page, o);
    NotOnOwnPage(c, chain.next, s);
    forall p: nat | p < 8 * |bitmap|
      ensures BitAt(bitmap, p) <==> o == p || BitAt(chain.bitmap, p)
    {
      SetInBits(chain.bitmap, o, p);
    }
    assert BitAt(bitmap, o);
    GoodMade(c, after, head, false);
  }

  lemma GoodParts(c: nat, chain: Chain, head: bool, loose: bool)
    requires c < CLASSES && chain.Link? && Good(c, chain, head, loose)
    ensures GoodBucket(c, chain.page, chain.bitmap) && (chain.node.None? <==> head)
    ensures OwnPages(chain.page, chain.node, Pages(chain.next))
    ensures !head && !loose ==> !NoBits(chain.bitmap)
    ensures Good(c, chain.next, false, false)
  {
  }

  lemma GoodMade(c: nat, chain: Chain, head: bool, loose: bool)
    requires c < CLASSES && chain.Link?
    requires GoodBucket(c, chain.page, chain.bitmap) && (chain.node.None? <==> head)
    requires OwnPages(chain.page, chain.node, Pages(chain.next))
    requires !head && !loose ==> !NoBits(chain.bitmap)
    requires Good(c, chain.next, false, false)
    ensures Good(c, chain, head, loose)
  {
  }

  /** A bucket with a clear bit is not full. */
  lemma NotFull(c: nat, chain: Chain, o: nat)
    requires c < CLASSES && chain.Link? && |chain.bitmap| == BitmapBytes(c)
    requires o < Capacity(c) && !BitAt(chain.bitmap, o)
    ensures !Full(c, chain)
  {
    hide BitAt;
  }

  lemma FullHere(c: nat, chain: Chain)
    requires c < CLASSES && chain.Link? && |chain.bitmap| == BitmapBytes(c) && AllBits(c, chain.bitmap)
    ensures Full(c, chain) <==> Full(c, chain.next)
    ensures Full(c, Nil)
  {
  }

  lemma LowestOfNew(c: nat, bitmap: seq<bv8>, o: nat)
    requires c < CLASSES && |bitmap| == BitmapBytes(c) && NoBits(bitmap) && LowestClear(c, bitmap, o)
    ensures o == 0
  {
    hide BitAt;
    assert !BitAt(bitmap, 0);
  }

  lemma EmptyIsNotFull(c: nat, bitmap: seq<bv8>)
    requires c < CLASSES && |bitmap| == BitmapBytes(c) && NoBits(bitmap)
    ensures !AllBits(c, bitmap)
  {
    hide BitAt;
    assert !BitAt(bitmap, 0);
  }

  /** Taking a slot further down the chain. */
  lemma TakeBelow(c: nat, chain: Chain, next: Chain, s: Slot, head: bool)
    requires c < CLASSES && chain.Link? && Good(c, chain, head, false)
    requires Good(c, next, false, false) && Allocated(c, chain.next, next, s)
    requires s.page in Pages(next) && OwnPages(chain.page, chain.node, Pages(next))
    ensures var after := chain.(next := next);
      && Good(c, after, head, false)
      && Allocated(c, chain, after, s)
  {
    hide Good, GoodBucket, LiveHere;
    GoodParts(c, chain, head, false);
    var after := chain.(next := next);
    GoodMade(c, after, head, false);
    OffPage(c, chain.page, chain.bitmap, s);
    forall t
      ensures IsLive(c, after, t) <==> IsLive(c, chain, t) || t == s
    {
      assert IsLive(c, next, t) <==> IsLive(c, chain.next, t) || t == s;
    }
  }

  /** A bucket fresh from the page allocator, with its first slot taken. */
  lemma FirstOfNew(c: nat, page: nat, node: Option<nat>, bitmap: seq<bv8>)
    requires c < CLASSES && page % PAGE_SIZE == 0 && node != Some(page)
    requires |bitmap| == BitmapBytes(c) && forall i :: 0 <= i < |bitmap| ==> bitmap[i] == 0
    ensures NoBits(bitmap)
    ensures Good(c, Link(page, node, bitmap, Nil), node.None?, true)
  {
    hide Bit8;
    forall o: nat | o < 8 * |bitmap|
      ensures !BitAt(bitmap, o)
    {
      AllZeros8(bitmap[o / 8]);
    }
  }

  /** A new overflow bucket after its first allocation. */
  lemma NewTaken(c: nat, chain: Chain, o: nat)
    requires c < CLASSES && chain.Link? && chain.next == Nil && Good(c, chain, false, true) && NoBits(chain.bitmap)
    requires o < Capacity(c)
    ensures var after := chain.(bitmap := SetIn(chain.bitmap, o));
      Good(c, after, false, false) && Allocated(c, Nil, after, Slot(chain.page, o))
  {
    hide BitAt, SetIn;
    var bitmap := SetIn(chain.bitmap, o);
    forall p: nat | p < 8 * |bitmap|
      ensures BitAt(bitmap, p) <==> o == p
    {
      SetInBits(chain.bitmap, o, p);
    }
    assert BitAt(bitmap, o);
  }

  // ---------------------------------------------------------------- freeing

  /** Clearing a bit of the first bucket: the slot is gone and the bucket may be left empty. */
  lemma DropHere(c: nat, chain: Chain, o: nat, head: bool, loose: bool)
    requires c < CLASSES && chain.Link? && Good(c, chain, head, loose) && o < Capacity(c)
    ensures var after := chain.(bitmap := ClearIn(chain.bitmap, o));
      && Good(c, after, head, true)
      && Freed(c, chain, after, Slot(chain.page, o))
  {
    hide BitAt, ClearIn, Good;
    GoodParts(c, chain, head, loose);
    var bitmap := ClearIn(chain.bitmap, o);
    var after := chain.(bitmap := bitmap);
    NotOnOwnPage(c, chain.next, Slot(chain.page, o));
    forall p: nat | p < 8 * |bitmap|
      ensures BitAt(bitmap, p) <==> o != p && BitAt(chain.bitmap, p)
    {
      ClearInBits(chain.bitmap, o, p);
    }
    GoodMade(c, after, head, true);
  }

  /** An empty bucket at the front holds nothing. */
  lemma SkipEmpty(c: nat, chain: Chain)
    requires c < CLASSES && chain.Link? && Good(c, chain, false, true)
    ensures NoBits(chain.bitmap) ==> forall t :: IsLive(c, chain, t) <==> IsLive(c, chain.next, t)
    ensures !NoBits(chain.bitmap) ==> Good(c, chain, false, false)
  {
  }

  /** Freeing a slot further down, with `next` what is left of the rest after unlinking. */
  lemma DropBelow(c: nat, chain: Chain, next: Chain, s: Slot, head: bool, loose: bool)
    requires c < CLASSES && chain.Link? && Good(c, chain, head, loose)
    requires Good(c, next, false, false) && Freed(c, chain.next, next, s)
    requires s.page != chain.page && Pages(next) <= Pages(chain.next)
    ensures var after := chain.(next := next);
      && Good(c, after, head, loose)
      && Freed(c, chain, after, s)
  {
    hide Good, GoodBucket, LiveHere;
    GoodParts(c, chain, head, loose);
    var after := chain.(next := next);
    GoodMade(c, after, head, loose);
    OffPage(c, chain.page, chain.bitmap, s);
    forall t
      ensures IsLive(c, after, t) <==> IsLive(c, chain, t) && t != s
    {
      assert IsLive(c, next, t) <==> IsLive(c, chain.next, t) && t != s;
    }
  }
}
