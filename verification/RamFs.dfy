/**
 The on-block directory of the RAM file system (kernel/src/fs/ramfs/mod.rs): 256-byte slots in
 4096-byte blocks, refined to a list of names and inode numbers.
 */
module RamFs {
  import opened Prelude
  import opened PathSpec
  import opened Vfs

  const BLOCK_SIZE: nat := 4096
  const SLOT_SIZE: nat := 256
  const SLOTS: nat := 16
  const NAME_SIZE: nat := 247

  /** `length` counts the bytes of `name` in use; the rest are zero. */
  datatype DirEntry = DirEntry(inode: nat, length: u8, name: Bytes)

  // ---------------------------------------------------------------- slots as bytes

  function Power(n: nat): (p: nat)
    ensures p > 0
  {
    if n == 0 then 1 else 256 * Power(n - 1)
  }

  /** The low `k` bytes of `n`, least significant first. */
  function ToBytes(n: nat, k: nat): (b: Bytes)
    ensures |b| == k
    decreases k
  {
    if k == 0 then [] else [(n % 256) as u8] + ToBytes(n / 256, k - 1)
  }

  function FromBytes(b: Bytes): nat {
    if b == [] then 0 else b[0] as nat + 256 * FromBytes(b[1..])
  }

  lemma {:induction false} NumberRoundTrip(n: nat, k: nat)
    requires n < Power(k)
    ensures FromBytes(ToBytes(n, k)) == n
    decreases k
  {
    if k > 0 {
      assert n / 256 < Power(k - 1);
      NumberRoundTrip(n / 256, k - 1);
      assert ToBytes(n, k)[1..] == ToBytes(n / 256, k - 1);
    }
  }

  function EncodeEntry(e: DirEntry): (b: Bytes)
    requires |e.name| == NAME_SIZE
    ensures |b| == SLOT_SIZE
  {
    ToBytes(e.inode, 8) + [e.length] + e.name
  }

  function DecodeEntry(b: Bytes): (e: DirEntry)
    requires |b| == SLOT_SIZE
    ensures |e.name| == NAME_SIZE
  {
    DirEntry(FromBytes(b[..8]), b[8], b[9..])
  }

  lemma EntryRoundTrip(e: DirEntry)
    requires |e.name| == NAME_SIZE && e.inode < U64
    ensures DecodeEntry(EncodeEntry(e)) == e
  {
    var b := EncodeEntry(e);
    assert b[..8] == ToBytes(e.inode, 8) && b[9..] == e.name;
    EightBytes();
    NumberRoundTrip(e.inode, 8);
  }

  lemma {:induction false} ByteOf(n: nat, k: nat, i: nat)
    requires i < k
    ensures ToBytes(n, k)[i] as nat == n / Power(i) % 256
    decreases k
  {
    if i > 0 {
      ByteOf(n / 256, k - 1, i - 1);
      DivideTwice(n, Power(i - 1));
    }
  }

  lemma DivideTwice(n: nat, p: nat)
    requires p > 0
    ensures n / 256 / p == n / (256 * p)
  {
    var q := n / 256 / p;
    assert n / 256 == q * p + (n / 256) % p;
    assert n == 256 * (q * p) + (256 * ((n / 256) % p) + n % 256);
    assert 256 * (q * p) == q * (256 * p);
    QuotientIs(n, 256 * p, q, 256 * ((n / 256) % p) + n % 256);
  }

  lemma QuotientIs(n: nat, d: nat, q: nat, r: nat)
    requires d > 0 && n == q * d + r && r < d
    ensures n / d == q
  {
    var k, m := n / d, n % d;
    assert n == k * d + m;
    SameQuotient(k, q, d, m, r);
  }

  lemma SameQuotient(k: int, q: int, d: int, m: int, r: int)
    requires k * d + m == q * d + r && 0 <= m < d && 0 <= r < d
    ensures k == q
  {
    assert (k - q) * d == r - m;
    if k > q {
      AtLeastOnce(k - q, d);
    } else if k < q {
      AtLeastOnce(q - k, d);
    }
  }

  lemma AtLeastOnce(x: int, d: int)
    requires x >= 1 && d > 0
    ensures x * d >= d
  {
  }

  /** Where the parts of an entry lie: the number, least byte first, the length, the name. */
  lemma EntryLayout(e: DirEntry, i: nat)
    requires |e.name| == NAME_SIZE && i < SLOT_SIZE
    ensures EncodeEntry(e)[i] as nat ==
      if i < 8 then e.inode / Power(i) % 256 else if i == 8 then e.length as nat else e.name[i - 9] as nat
  {
    if i < 8 {
      ByteOf(e.inode, 8, i);
    }
  }

  lemma EightBytes()
    ensures Power(8) == U64
  {
    assert Power(2) == 65536;
    assert Power(4) == 0x1_0000_0000;
    assert Power(6) == 0x1_0000_0000_0000;
  }

  predicate IsSlots(slots: seq<Bytes>) {
    forall s :: s in slots ==> |s| == SLOT_SIZE
  }

  /** `append_dir_entry` may write here. */
  predicate Free(slot: Bytes)
    requires |slot| == SLOT_SIZE
  {
    DecodeEntry(slot).inode == 0
  }

  /** `DirIterator` passes over these. */
  predicate Skipped(slot: Bytes)
    requires |slot| == SLOT_SIZE
  {
    DecodeEntry(slot).inode == 0 || DecodeEntry(slot).length == 0
  }

  /** What the iterator reports; a length beyond the name would be a slice error. */
  predicate Readable(slot: Bytes)
    requires |slot| == SLOT_SIZE
  {
    DecodeEntry(slot).length as nat <= NAME_SIZE
  }

  function Shown(slot: Bytes): (Bytes, nat)
    requires |slot| == SLOT_SIZE && Readable(slot)
  {
    var e := DecodeEntry(slot);
    (e.name[..e.length as nat], e.inode)
  }

  function ListingOne(slot: Bytes): seq<(Bytes, nat)>
    requires |slot| == SLOT_SIZE && Readable(slot)
  {
    if Skipped(slot) then [] else [Shown(slot)]
  }

  /** The listing of a row of slots. */
  function Listing(slots: seq<Bytes>): seq<(Bytes, nat)>
    requires IsSlots(slots) && forall s :: s in slots ==> Readable(s)
  {
    if slots == [] then []
    else ListingOne(slots[0]) + Listing(slots[1..])
  }

  /** The slot is in use by `name`: its number is `inode`, neither it nor the length is 0, and the name is in front. */
  ghost predicate ShowsPair(slot: Bytes, name: Bytes, inode: nat)
    requires |slot| == SLOT_SIZE
  {
    var e := DecodeEntry(slot);
    e.inode == inode != 0 && e.length as nat == |name| != 0 && name <= e.name
  }

  lemma PairShown(slot: Bytes, name: Bytes, inode: nat)
    requires |slot| == SLOT_SIZE && Readable(slot)
    ensures (name, inode) in ListingOne(slot) <==> ShowsPair(slot, name, inode)
  {
    var e := DecodeEntry(slot);
    assert |name| <= NAME_SIZE ==> (name <= e.name <==> name == e.name[..|name|]);
  }

  /** A pair is listed exactly when some slot is in use by it. */
  lemma {:induction false} ListedPair(slots: seq<Bytes>, name: Bytes, inode: nat)
    requires IsSlots(slots) && forall s :: s in slots ==> Readable(s)
    ensures (name, inode) in Listing(slots) <==> exists k :: 0 <= k < |slots| && ShowsPair(slots[k], name, inode)
  {
    if slots != [] {
      var rest := slots[1..];
      ListedPair(rest, name, inode);
      assert slots[0] in slots;
      PairShown(slots[0], name, inode);
      if k :| 0 <= k < |slots| && ShowsPair(slots[k], name, inode) {
        if k > 0 {
          assert rest[k - 1] == slots[k];
        }
      }
    }
  }

  // ---------------------------------------------------------------- blocks as rows of slots

  function Chunks(block: Bytes): (r: seq<Bytes>)
    requires |block| == BLOCK_SIZE
    ensures |r| == SLOTS && IsSlots(r)
  {
    seq(SLOTS, i requires 0 <= i < SLOTS => block[i * SLOT_SIZE..(i + 1) * SLOT_SIZE])
  }

  predicate IsBlocks(blocks: seq<Bytes>) {
    forall b :: b in blocks ==> |b| == BLOCK_SIZE
  }

  function Slots(blocks: seq<Bytes>): (r: seq<Bytes>)
    requires IsBlocks(blocks)
    ensures |r| == SLOTS * |blocks| && IsSlots(r)
  {
    if blocks == [] then []
    else
      var last := |blocks| - 1;
      Slots(blocks[..last]) + Chunks(blocks[last])
  }

  lemma ChunkAt(block: Bytes, i: nat)
    requires |block| == BLOCK_SIZE && i < SLOTS
    ensures Chunks(block)[i] == block[i * SLOT_SIZE..(i + 1) * SLOT_SIZE]
  {
  }

  lemma {:induction false} SlotAt(blocks: seq<Bytes>, j: nat, i: nat)
    requires IsBlocks(blocks) && j < |blocks| && i < SLOTS
    ensures Slots(blocks)[j * SLOTS + i] == blocks[j][i * SLOT_SIZE..(i + 1) * SLOT_SIZE]
    decreases |blocks|
  {
    hide Chunks, IsSlots;
    var last := |blocks| - 1;
    if j < last {
      SlotAt(blocks[..last], j, i);
    } else {
      ChunkAt(blocks[last], i);
    }
  }

  /** A block with one slot overwritten. */
  function WithSlot(block: Bytes, i: nat, slot: Bytes): (r: Bytes)
    requires |block| == BLOCK_SIZE && i < SLOTS && |slot| == SLOT_SIZE
    ensures |r| == BLOCK_SIZE
  {
    block[..i * SLOT_SIZE] + slot + block[(i + 1) * SLOT_SIZE..]
  }

  lemma ChunksWithSlot(block: Bytes, i: nat, slot: Bytes)
    requires |block| == BLOCK_SIZE && i < SLOTS && |slot| == SLOT_SIZE
    ensures Chunks(WithSlot(block, i, slot)) == Chunks(block)[i := slot]
  {
    var changed := WithSlot(block, i, slot);
    forall k | 0 <= k < SLOTS
      ensures Chunks(changed)[k] == Chunks(block)[i := slot][k]
    {
      assert Chunks(changed)[k] == changed[k * SLOT_SIZE..(k + 1) * SLOT_SIZE];
      assert Chunks(block)[k] == block[k * SLOT_SIZE..(k + 1) * SLOT_SIZE];
    }
  }

  lemma UpdateConcat<T>(a: seq<T>, b: seq<T>, k: nat, x: T)
    requires k < |a| + |b|
    ensures (a + b)[k := x] == if k < |a| then a[k := x] + b else a + b[k - |a| := x]
  {
  }

  lemma {:induction false} SlotsWithSlot(blocks: seq<Bytes>, j: nat, i: nat, slot: Bytes)
    requires IsBlocks(blocks) && j < |blocks| && i < SLOTS && |slot| == SLOT_SIZE
    ensures var changed := blocks[j := WithSlot(blocks[j], i, slot)];
      IsBlocks(changed) && Slots(changed) == Slots(blocks)[j * SLOTS + i := slot]
    decreases |blocks|
  {
    hide Chunks, WithSlot, IsSlots;
    var last := |blocks| - 1;
    var changed := blocks[j := WithSlot(blocks[j], i, slot)];
    UpdateConcat(Slots(blocks[..last]), Chunks(blocks[last]), j * SLOTS + i, slot);
    if j < last {
      SlotsWithSlot(blocks[..last], j, i, slot);
      assert changed[..last] == blocks[..last][j := WithSlot(blocks[j], i, slot)];
    } else {
      ChunksWithSlot(blocks[last], i, slot);
      assert changed[..last] == blocks[..last];
    }
  }

  // ---------------------------------------------------------------- the packed invariant

  ghost predicate AllReadable(slots: seq<Bytes>) {
    IsSlots(slots) && forall s :: s in slots ==> Readable(s)
  }

  /** The first `n` slots are in use and the rest are free. */
  ghost predicate Packed(slots: seq<Bytes>, n: nat) {
    && AllReadable(slots) && n <= |slots|
    && (forall k :: 0 <= k < n ==> !Free(slots[k]))
    && (forall k :: n <= k < |slots| ==> Free(slots[k]))
  }

  /** All blocks but the last are full. */
  ghost predicate Directory(blocks: seq<Bytes>, n: nat) {
    IsBlocks(blocks) && Packed(Slots(blocks), n) && n >= SLOTS * (|blocks| - 1)
  }

  lemma NextFree(slots: seq<Bytes>, n: nat)
    requires Packed(slots, n)
    ensures n < |slots| ==> Free(slots[n])
  {
  }

  lemma {:induction false} ListingJoin(a: seq<Bytes>, b: seq<Bytes>)
    requires AllReadable(a) && AllReadable(b)
    ensures AllReadable(a + b) && Listing(a + b) == Listing(a) + Listing(b)
  {
    hide Readable, ListingOne;
    if a == [] {
      assert a + b == b;
    } else {
      ListingJoin(a[1..], b);
      assert (a + b)[1..] == a[1..] + b;
      ConcatAssoc(ListingOne(a[0]), Listing(a[1..]), Listing(b));
    }
  }

  lemma {:induction false} ListingFree(slots: seq<Bytes>)
    requires AllReadable(slots) && forall s :: s in slots ==> Free(s)
    ensures Listing(slots) == []
  {
    if slots != [] {
      assert slots[0] in slots;
      ListingFree(slots[1..]);
    }
  }

  /** What a directory entry adds to a listing: nothing if its inode is 0 or its name is empty. */
  function Shows(name: Bytes, inode: nat): seq<(Bytes, nat)> {
    if inode == 0 || name == [] then [] else [(name, inode)]
  }

  function EntryFor(name: Bytes, inode: nat): (e: DirEntry)
    requires |name| <= NAME_SIZE
    ensures |e.name| == NAME_SIZE
  {
    DirEntry(inode, |name| as u8, name + seq(NAME_SIZE - |name|, _ => 0 as u8))
  }

  /** The bytes `append_dir_entry` writes for a name: zeros behind it. */
  lemma EntryForLayout(name: Bytes, inode: nat, i: nat)
    requires |name| <= NAME_SIZE && i < SLOT_SIZE
    ensures EncodeEntry(EntryFor(name, inode))[i] as nat ==
      if i < 8 then inode / Power(i) % 256
      else if i == 8 then |name|
      else if i - 9 < |name| then name[i - 9] as nat
      else 0
  {
    hide EncodeEntry, Power;
    EntryLayout(EntryFor(name, inode), i);
  }

  lemma EntryShows(name: Bytes, inode: nat)
    requires |name| <= NAME_SIZE && inode < U64
    ensures var slot := EncodeEntry(EntryFor(name, inode));
      && AllReadable([slot]) && (Free(slot) <==> inode == 0)
      && Listing([slot]) == Shows(name, inode)
  {
    var e := EntryFor(name, inode);
    var slot := EncodeEntry(e);
    EntryRoundTrip(e);
    assert e.name[..|name|] == name;
    assert Listing([slot]) == ListingOne(slot) + Listing([]);
  }

  /** Writing the first free slot appends to the listing. */
  lemma WriteFirstFree(slots: seq<Bytes>, n: nat, name: Bytes, inode: nat)
    requires Packed(slots, n) && n < |slots| && |name| <= NAME_SIZE && inode < U64
    ensures var after := slots[n := EncodeEntry(EntryFor(name, inode))];
      && Packed(after, if inode == 0 then n else n + 1)
      && Listing(after) == Listing(slots) + Shows(name, inode)
  {
    hide Free, Readable, EncodeEntry, EntryFor, Listing, Shows;
    var slot := EncodeEntry(EntryFor(name, inode));
    EntryShows(name, inode);
    var used, tail := slots[..n], slots[n + 1..];
    assert slots == used + slots[n..] && slots[n := slot] == used + ([slot] + tail);
    ListingJoin(used, slots[n..]);
    ListingFree(slots[n..]);
    ListingFree(tail);
    ListingJoin([slot], tail);
    ListingJoin(used, [slot] + tail);
  }

  /** A fresh block holding one entry in its first slot. */
  function NewBlock(slot: Bytes): (b: Bytes)
    requires |slot| == SLOT_SIZE
    ensures |b| == BLOCK_SIZE
  {
    slot + seq(BLOCK_SIZE - SLOT_SIZE, _ => 0 as u8)
  }

  lemma {:induction false} ZeroBytes(b: Bytes)
    requires forall i :: 0 <= i < |b| ==> b[i] == 0
    ensures FromBytes(b) == 0
  {
    if b != [] {
      ZeroBytes(b[1..]);
    }
  }

  lemma NewBlockSlots(slot: Bytes)
    requires |slot| == SLOT_SIZE
    ensures var row := Chunks(NewBlock(slot));
      row[0] == slot && forall k :: 0 < k < SLOTS ==> Free(row[k]) && Readable(row[k])
  {
    var b := NewBlock(slot);
    var row := Chunks(b);
    assert row[0] == slot;
    forall k | 0 < k < SLOTS
      ensures Free(row[k]) && Readable(row[k])
    {
      var zero := row[k];
      assert zero == b[k * SLOT_SIZE..(k + 1) * SLOT_SIZE];
      assert forall i :: 0 <= i < SLOT_SIZE ==> zero[i] == b[k * SLOT_SIZE + i] == 0;
      ZeroBytes(zero[..8]);
    }
  }

  /** With every slot taken, a new block continues the listing. */
  lemma PushBlock(blocks: seq<Bytes>, n: nat, name: Bytes, inode: nat)
    requires Directory(blocks, n) && n == |Slots(blocks)| && |name| <= NAME_SIZE && inode < U64
    ensures var after := blocks + [NewBlock(EncodeEntry(EntryFor(name, inode)))];
      && Directory(after, if inode == 0 then n else n + 1)
      && Listing(Slots(after)) == Listing(Slots(blocks)) + Shows(name, inode)
  {
    hide Free, Readable, EncodeEntry, EntryFor, Listing, Shows, NewBlock, Chunks;
    var slot := EncodeEntry(EntryFor(name, inode));
    var after := blocks + [NewBlock(slot)];
    var row := Chunks(NewBlock(slot));
    assert after[..|blocks|] == blocks;
    assert Slots(after) == Slots(blocks) + row;
    NewBlockSlots(slot);
    EntryShows(name, inode);
    assert row == [slot] + row[1..];
    ListingFree(row[1..]);
    ListingJoin([slot], row[1..]);
    ListingJoin(Slots(blocks), row);
  }

  // ---------------------------------------------------------------- reading a directory

  /** Listing from one slot on: that slot, then the rest. */
  lemma ListingFrom(slots: seq<Bytes>, k: nat)
    requires AllReadable(slots) && k < |slots|
    ensures Listing(slots[k..]) == ListingOne(slots[k]) + Listing(slots[k + 1..])
  {
    hide Readable, ListingOne;
    assert slots[k..][1..] == slots[k + 1..];
  }

  class DirIterator {
    const blocks: seq<Bytes>
    var blkidx: nat
    var entryidx: nat

    ghost predicate Valid()
      reads this
    {
      && IsBlocks(blocks) && AllReadable(Slots(blocks))
      && entryidx <= SLOTS && blkidx <= |blocks| && (blkidx == |blocks| ==> entryidx == 0)
    }

    ghost function Remaining(): seq<(Bytes, nat)>
      requires Valid()
      reads this
    {
      Listing(Slots(blocks)[blkidx * SLOTS + entryidx..])
    }

    constructor (blocks: seq<Bytes>)
      requires IsBlocks(blocks) && AllReadable(Slots(blocks))
      ensures Valid() && Remaining() == Listing(Slots(blocks))
    {
      this.blocks := blocks;
      blkidx := 0;
      entryidx := 0;
    }

    method Next() returns (r: Option<(Bytes, nat)>)
      requires Valid()
      modifies this
      ensures Valid()
      ensures r.None? ==> old(Remaining()) == [] == Remaining()
      ensures r.Some? ==> old(Remaining()) == [r.value] + Remaining()
      decreases |blocks| - blkidx, SLOTS - entryidx
    {
      hide Readable, Skipped, Shown, IsSlots, Slots, Listing;
      if blkidx >= |blocks| {
        ListingEnd(Slots(blocks));
        return None;
      }
      if entryidx >= SLOTS {
        blkidx := blkidx + 1;
        entryidx := 0;
        r := Next();
        return;
      }
      var slot := blocks[blkidx][entryidx * SLOT_SIZE..(entryidx + 1) * SLOT_SIZE];
      SlotAt(blocks, blkidx, entryidx);
      ListingFrom(Slots(blocks), blkidx * SLOTS + entryidx);
      entryidx := entryidx + 1;
      if Skipped(slot) {
        r := Next();
      } else {
        r := Some(Shown(slot));
      }
    }
  }

  lemma ListingEnd(slots: seq<Bytes>)
    requires AllReadable(slots)
    ensures Listing(slots[|slots|..]) == []
  {
  }

  // ---------------------------------------------------------------- directories

  datatype AddOutcome = Added | Refused(error: FSError) | Panicked

  predicate HasName(listing: seq<(Bytes, nat)>, name: Bytes) {
    exists i :: 0 <= i < |listing| && listing[i].0 == name
  }

  /** What adding `path` to a directory with this listing must come to. */
  function Judge(isDir: bool, listing: seq<(Bytes, nat)>, path: Component): AddOutcome {
    if !path.Normal? then Refused(BadPath)
    else if !isDir then Refused(NotDirectory)
    else if HasName(listing, path.name) then Refused(Exists)
    else if |path.name| > NAME_SIZE then Panicked
    else Added
  }

  /** Some listed pair has this name. */
  ghost predicate Holds(listing: seq<(Bytes, nat)>, name: Bytes) {
    exists n :: (name, n) in listing
  }

  lemma JudgeIs(isDir: bool, listing: seq<(Bytes, nat)>, path: Component)
    ensures var r := Judge(isDir, listing, path);
      && (r == Refused(BadPath) <==> !path.Normal?)
      && (r == Refused(NotDirectory) <==> path.Normal? && !isDir)
      && (r == Refused(Exists) <==> path.Normal? && isDir && Holds(listing, path.name))
      && (r.Panicked? <==> path.Normal? && isDir && !Holds(listing, path.name) && |path.name| > 247)
      && (r.Added? <==> path.Normal? && isDir && !Holds(listing, path.name) && |path.name| <= 247)
  {
    if path.Normal? {
      if i :| 0 <= i < |listing| && listing[i].0 == path.name {
        assert (path.name, listing[i].1) in listing;
      }
    }
  }

  class Inode {
    const isDir: bool
    var blocks: seq<Bytes>

    ghost predicate Valid()
      reads this
    {
      exists n: nat :: Directory(blocks, n)
    }

    ghost function Entries(): seq<(Bytes, nat)>
      requires Valid()
      reads this
    {
      Listing(Slots(blocks))
    }

    constructor (isDir: bool)
      ensures Valid() && Entries() == [] && this.isDir == isDir
    {
      this.isDir := isDir;
      blocks := [];
      new;
      EmptyDirectory();
      assert Directory(blocks, 0);
    }

    /** The first free slot, looking at the last block first. */
    method FindFree() returns (found: bool, j: nat, i: nat)
      requires IsBlocks(blocks)
      ensures found ==> j < |blocks| && i < SLOTS && Free(Slots(blocks)[j * SLOTS + i])
      ensures found ==>
          forall k :: 0 <= k < |Slots(blocks)| && (j * SLOTS <= k < j * SLOTS + i || k >= (j + 1) * SLOTS) ==>
                !Free(Slots(blocks)[k])
      ensures !found ==> forall k :: 0 <= k < |Slots(blocks)| ==> !Free(Slots(blocks)[k])
    {
      hide Free, Slots;
      found, j, i := false, |blocks|, 0;
      while j > 0
        invariant j <= |blocks|
        invariant forall k :: j * SLOTS <= k < |Slots(blocks)| ==> !Free(Slots(blocks)[k])
      {
        j := j - 1;
        i := 0;
        while i < SLOTS
          invariant i <= SLOTS
          invariant forall k :: j * SLOTS <= k < j * SLOTS + i ==> !Free(Slots(blocks)[k])
        {
          SlotAt(blocks, j, i);
          if Free(blocks[j][i * SLOT_SIZE..(i + 1) * SLOT_SIZE]) {
            found := true;
            return;
          }
          i := i + 1;
        }
      }
    }

    method AppendDirEntry(name: Bytes, inode: nat)
      requires Valid() && |name| <= NAME_SIZE && inode < U64
      modifies this
      ensures Valid() && Entries() == old(Entries()) + Shows(name, inode)
    {
      hide Free, Readable, EncodeEntry, EntryFor, Listing, Shows, Slots, WithSlot;
      ghost var n: nat :| Directory(blocks, n);
      var slot := EncodeEntry(EntryFor(name, inode));
      var found, j, i := FindFree();
      if found {
        FirstFreeIsNext(blocks, n, j, i);
        SlotsWithSlot(blocks, j, i, slot);
        WriteFirstFree(Slots(blocks), n, name, inode);
        blocks := blocks[j := WithSlot(blocks[j], i, slot)];
        assert Directory(blocks, if inode == 0 then n else n + 1);
      } else {
        NextFree(Slots(blocks), n);
        PushBlock(blocks, n, name, inode);
        blocks := blocks + [NewBlock(slot)];
      }
    }

    method List() returns (r: Result<seq<(Bytes, nat)>, FSError>)
      requires Valid()
      ensures r == if isDir then Ok(Entries()) else Err(NotDirectory)
    {
      hide Slots, Listing, Packed;
      if !isDir {
        return Err(NotDirectory);
      }
      DirectoryReadable(blocks);
      var iter := new DirIterator(blocks);
      var all := [];
      var item := iter.Next();
      while item.Some?
        invariant iter.Valid()
        invariant item.None? ==> all == Entries()
        invariant item.Some? ==> all + [item.value] + iter.Remaining() == Entries()
        decreases item.Some?, |iter.Remaining()|
      {
        all := all + [item.value];
        item := iter.Next();
      }
      return Ok(all);
    }

    /** The inode as the directory cache sees it. */
    method Seen(num: nat) returns (v: Vfs.Inode)
      requires Valid()
      ensures v.num == num && v.isDir == isDir && IsSeen(v, blocks)
    {
      var listing := List();
      v := Vfs.Inode.Inode(num, isDir, listing);
    }

    method AddDirEntry(inode: nat, path: Component) returns (r: AddOutcome)
      requires Valid() && inode < U64
      modifies this
      ensures Valid() && r == Judge(isDir, old(Entries()), path)
      ensures r == Refused(BadPath) <==> !path.Normal?
      ensures r == Refused(NotDirectory) <==> path.Normal? && !isDir
      ensures r == Refused(Exists) <==> path.Normal? && isDir && Holds(old(Entries()), path.name)
      ensures r.Panicked? <==> path.Normal? && isDir && !Holds(old(Entries()), path.name) && |path.name| > 247
      ensures r.Added? <==> path.Normal? && isDir && !Holds(old(Entries()), path.name) && |path.name| <= 247
      ensures Entries() == old(Entries()) + if r.Added? then Shows(path.name, inode) else []
    {
      hide Slots, Listing, Packed, Shows;
      JudgeIs(isDir, Entries(), path);
      if !path.Normal? {
        return Refused(BadPath);
      }
      if !isDir {
        return Refused(NotDirectory);
      }
      var listed := List();
      for k := 0 to |listed.value|
        invariant forall i :: 0 <= i < k ==> listed.value[i].0 != path.name
      {
        if listed.value[k].0 == path.name {
          return Refused(Exists);
        }
      }
      if |path.name| > NAME_SIZE {
        return Panicked;
      }
      AppendDirEntry(path.name, inode);
      return Added;
    }
  }

  /** What the directory cache sees of an inode with these blocks. */
  ghost predicate IsSeen(v: Vfs.Inode, blocks: seq<Bytes>) {
    && (exists n: nat :: Directory(blocks, n))
    && v.listing == if v.isDir then Ok(Listing(Slots(blocks))) else Err(NotDirectory)
  }

  /** `v` is the stored inode `num` as the cache sees it. */
  ghost predicate Stored(v: Vfs.Inode, num: nat, inode: Inode)
    reads inode
  {
    v.num == num && v.isDir == inode.isDir && IsSeen(v, inode.blocks)
  }

  /**
   The file system a super block with these inodes is while they do not change: each number gives its own
   inode, no other number gives any, and only directories list anything, as the cache needs it.
   */
  method AsFileSystem(root: nat, inodes: map<nat, Inode>) returns (fs: FileSystem)
    requires root in inodes && forall n :: n in inodes ==> inodes[n].Valid()
    ensures Coherent(fs) && Stored(fs.root, root, inodes[root])
    ensures forall n :: n in inodes ==>
        fs.getInode(n).Ok? && fs.getInode(n).value.Some? && Stored(fs.getInode(n).value.value, n, inodes[n])
    ensures forall n: nat :: n !in inodes ==> fs.getInode(n) == Ok(None)
  {
    hide Directory, Listing, Slots;
    var seen: map<nat, Vfs.Inode> := map[];
    var todo := inodes.Keys;
    while todo != {}
      invariant todo <= inodes.Keys && seen.Keys == inodes.Keys - todo
      invariant forall n :: n in seen ==> Stored(seen[n], n, inodes[n])
      decreases |todo|
    {
      var n :| n in todo;
      todo := todo - {n};
      var v := inodes[n].Seen(n);
      seen := seen[n := v];
    }
    fs := FileSystem(seen[root], n => if n in seen then Ok(Some(seen[n])) else Ok(None));
  }

  lemma DirectoryReadable(blocks: seq<Bytes>)
    requires exists n: nat :: Directory(blocks, n)
    ensures IsBlocks(blocks) && AllReadable(Slots(blocks))
  {
  }

  lemma EmptyDirectory()
    ensures Directory([], 0) && Listing(Slots([])) == []
  {
    assert Slots([]) == [];
  }

  /** Because the blocks before the last are full, the slot found is the first free one of all. */
  lemma FirstFreeIsNext(blocks: seq<Bytes>, n: nat, j: nat, i: nat)
    requires Directory(blocks, n) && j < |blocks| && i < SLOTS && Free(Slots(blocks)[j * SLOTS + i])
    requires forall k :: 0 <= k < |Slots(blocks)| && (j * SLOTS <= k < j * SLOTS + i || k >= (j + 1) * SLOTS) ==>
        !Free(Slots(blocks)[k])
    ensures n == j * SLOTS + i
  {
    hide Free, Slots;
    assert n <= j * SLOTS + i;
    assert Free(Slots(blocks)[n]);
  }

  // ---------------------------------------------------------------- whole runs

  /** The pairs that were added, in the order they were added. */
  function AddedPairs(adds: seq<(Component, nat)>, outcomes: seq<AddOutcome>): seq<(Bytes, nat)>
    requires |adds| == |outcomes|
  {
    if adds == [] then []
    else
      var last := |adds| - 1;
      AddedPairs(adds[..last], outcomes[..last])
      + if outcomes[last].Added? && adds[last].0.Normal? then Shows(adds[last].0.name, adds[last].1) else []
  }

  ghost predicate DistinctNames(listing: seq<(Bytes, nat)>) {
    forall i, j :: 0 <= i < j < |listing| ==> listing[i].0 != listing[j].0
  }

  /** The outcomes `Judge` gives call by call. */
  ghost predicate JudgedSoFar(isDir: bool, adds: seq<(Component, nat)>, outcomes: seq<AddOutcome>) {
    && |outcomes| <= |adds|
    && (forall i :: 0 <= i < |outcomes| ==>
          outcomes[i] == Judge(isDir, AddedPairs(adds[..i], outcomes[..i]), adds[i].0))
  }

  /** A run is judged to its end, or to the panic that stops it. */
  ghost predicate Judged(isDir: bool, adds: seq<(Component, nat)>, outcomes: seq<AddOutcome>) {
    && JudgedSoFar(isDir, adds, outcomes)
    && (forall i :: 0 <= i < |outcomes| - 1 ==> !outcomes[i].Panicked?)
    && (|outcomes| < |adds| ==> outcomes != [] && outcomes[|outcomes| - 1].Panicked?)
  }

  /** Call `i` is the first to add `name` with a number, and the name fits a slot. */
  ghost predicate FirstUse(adds: seq<(Component, nat)>, i: nat, name: Bytes, n: nat) {
    && i < |adds| && adds[i] == (Normal(name), n) && n != 0 && 1 <= |name| <= 247
    && forall j :: 0 <= j < i && adds[j].0 == Normal(name) ==> adds[j].1 == 0
  }

  /** What is listed after the first `k` calls: exactly the names they used first, with their numbers. */
  lemma {:induction false} AddedExactly(adds: seq<(Component, nat)>, outcomes: seq<AddOutcome>, k: nat, name: Bytes,
      n: nat)
    requires k <= |outcomes| <= |adds| && JudgedSoFar(true, adds, outcomes)
    ensures (name, n) in AddedPairs(adds[..k], outcomes[..k]) <==>
      exists i: nat :: i < k && FirstUse(adds, i, name, n)
  {
    hide Judge, AddedPairs, JudgedSoFar, FirstUse;
    if k == 0 {
      EmptyRun(true, adds);
    } else {
      var last := k - 1;
      var before := AddedPairs(adds[..last], outcomes[..last]);
      forall m: nat
        ensures (name, m) in before <==> exists i: nat :: i < last && FirstUse(adds, i, name, m)
      {
        AddedExactly(adds, outcomes, last, name, m);
      }
      AddedLast(adds, outcomes, last, name, n);
      if adds[last] == (Normal(name), n) && n != 0 && 1 <= |name| <= 247 {
        UsedBefore(adds, last, name, n, before);
      } else {
        NoUse(adds, last, name, n);
      }
    }
  }

  lemma NoUse(adds: seq<(Component, nat)>, i: nat, name: Bytes, n: nat)
    requires i < |adds| && !(adds[i] == (Normal(name), n) && n != 0 && 1 <= |name| <= 247)
    ensures !FirstUse(adds, i, name, n)
  {
  }

  /** The pair a call adds. */
  lemma AddedLast(adds: seq<(Component, nat)>, outcomes: seq<AddOutcome>, last: nat, name: Bytes, n: nat)
    requires last < |outcomes| && JudgedSoFar(true, adds, outcomes)
    ensures var before := AddedPairs(adds[..last], outcomes[..last]);
      (name, n) in AddedPairs(adds[..last + 1], outcomes[..last + 1]) <==>
        || (name, n) in before
        || (adds[last] == (Normal(name), n) && n != 0 && 1 <= |name| <= 247 && !Holds(before, name))
  {
    hide Judge, Holds, AddedPairs;
    var before := AddedPairs(adds[..last], outcomes[..last]);
    JudgeIs(true, before, adds[last].0);
    assert outcomes[..last + 1] == outcomes[..last] + [outcomes[last]];
    AddedPairsStep(adds, outcomes[..last], outcomes[last]);
  }

  /** A name was not listed before exactly when no call used it. */
  lemma UsedBefore(adds: seq<(Component, nat)>, last: nat, name: Bytes, n: nat, before: seq<(Bytes, nat)>)
    requires last < |adds| && adds[last] == (Normal(name), n) && n != 0 && 1 <= |name| <= 247
    requires forall m: nat :: (name, m) in before <==> exists i: nat :: i < last && FirstUse(adds, i, name, m)
    ensures FirstUse(adds, last, name, n) <==> !Holds(before, name)
  {
    if Holds(before, name) {
      var m :| (name, m) in before;
      var i: nat :| i < last && FirstUse(adds, i, name, m);
      assert adds[i].0 == Normal(name);
    } else {
      forall j | 0 <= j < last && adds[j].0 == Normal(name)
        ensures adds[j].1 == 0
      {
        if adds[j].1 != 0 {
          UseIsHeld(adds, j, last, name, before);
        }
      }
    }
  }

  lemma UseIsHeld(adds: seq<(Component, nat)>, j: nat, last: nat, name: Bytes, before: seq<(Bytes, nat)>)
    requires j < last < |adds| && adds[j].0 == Normal(name) && adds[j].1 != 0 && 1 <= |name| <= 247
    requires forall m: nat :: (name, m) in before <==> exists i: nat :: i < last && FirstUse(adds, i, name, m)
    ensures Holds(before, name)
  {
    hide FirstUse;
    var i := EarliestUse(adds, j, name);
    assert (name, adds[i].1) in before;
  }

  lemma {:induction false} EarliestUse(adds: seq<(Component, nat)>, j: nat, name: Bytes) returns (i: nat)
    requires j < |adds| && adds[j].0 == Normal(name) && adds[j].1 != 0 && 1 <= |name| <= 247
    ensures i <= j && FirstUse(adds, i, name, adds[i].1)
    decreases j
  {
    if k :| 0 <= k < j && adds[k].0 == Normal(name) && adds[k].1 != 0 {
      i := EarliestUse(adds, k, name);
    } else {
      i := j;
    }
  }

  lemma AddKeepsDistinct(isDir: bool, listing: seq<(Bytes, nat)>, path: Component, inode: nat)
    requires DistinctNames(listing) && Judge(isDir, listing, path).Added?
    ensures DistinctNames(listing + Shows(path.name, inode))
  {
  }

  lemma AddedPairsStep(adds: seq<(Component, nat)>, outcomes: seq<AddOutcome>, r: AddOutcome)
    requires |outcomes| < |adds|
    requires r.Added? ==> adds[|outcomes|].0.Normal?
    ensures AddedPairs(adds[..|outcomes| + 1], outcomes + [r]) == AddedPairs(adds[..|outcomes|], outcomes)
        + if r.Added? then Shows(adds[|outcomes|].0.name, adds[|outcomes|].1) else []
  {
    var i := |outcomes|;
    assert adds[..i + 1][..i] == adds[..i] && (outcomes + [r])[..i] == outcomes;
  }

  lemma JudgedStep(isDir: bool, adds: seq<(Component, nat)>, outcomes: seq<AddOutcome>, r: AddOutcome)
    requires |outcomes| < |adds| && JudgedSoFar(isDir, adds, outcomes)
    requires r == Judge(isDir, AddedPairs(adds[..|outcomes|], outcomes), adds[|outcomes|].0)
    ensures JudgedSoFar(isDir, adds, outcomes + [r])
  {
    hide Judge, AddedPairs;
    var longer := outcomes + [r];
    forall i | 0 <= i < |longer|
      ensures longer[i] == Judge(isDir, AddedPairs(adds[..i], longer[..i]), adds[i].0)
    {
      assert longer[..i] == outcomes[..i];
      assert outcomes[..|outcomes|] == outcomes;
    }
  }

  /**
   Any run of adds on a new directory: listing the blocks gives back exactly the pairs that were added,
   in order, each name once, and every block but the last is full.
   */
  method AddAll(isDir: bool, adds: seq<(Component, nat)>)
    returns (outcomes: seq<AddOutcome>, listed: Result<seq<(Bytes, nat)>, FSError>, blocks: seq<Bytes>)
    requires forall a :: a in adds ==> a.1 < U64
    ensures Judged(isDir, adds, outcomes)
    ensures listed == if isDir then Ok(AddedPairs(adds[..|outcomes|], outcomes)) else Err(NotDirectory)
    ensures isDir ==> DistinctNames(listed.value)
    ensures isDir ==> forall name, n: nat ::
        (name, n) in listed.value <==> exists i: nat :: i < |outcomes| && FirstUse(adds, i, name, n)
    ensures exists n: nat :: Directory(blocks, n)
    ensures isDir ==> listed == Ok(Listing(Slots(blocks)))
  {
    hide Shows, Directory, Judge, AddedPairs, JudgedSoFar, DistinctNames, Slots, Listing;
    var dir := new Inode(isDir);
    outcomes := [];
    EmptyRun(isDir, adds);
    while |outcomes| < |adds| && (outcomes == [] || !outcomes[|outcomes| - 1].Panicked?)
      invariant JudgedSoFar(isDir, adds, outcomes) && |outcomes| <= |adds| && dir.Valid() && dir.isDir == isDir
      invariant dir.Entries() == AddedPairs(adds[..|outcomes|], outcomes) && DistinctNames(dir.Entries())
      invariant forall i :: 0 <= i < |outcomes| - 1 ==> !outcomes[i].Panicked?
      decreases |adds| - |outcomes|
    {
      var i := |outcomes|;
      assert adds[i] in adds;
      ghost var before := dir.Entries();
      var r := dir.AddDirEntry(adds[i].1, adds[i].0);
      RunStep(isDir, adds, outcomes, r, before);
      outcomes := outcomes + [r];
    }
    listed := dir.List();
    blocks := dir.blocks;
    if isDir {
      assert outcomes[..|outcomes|] == outcomes;
      forall name, n: nat
        ensures (name, n) in listed.value <==> exists i: nat :: i < |outcomes| && FirstUse(adds, i, name, n)
      {
        AddedExactly(adds, outcomes, |outcomes|, name, n);
      }
    }
  }

  lemma RunStep(isDir: bool, adds: seq<(Component, nat)>, outcomes: seq<AddOutcome>, r: AddOutcome,
      before: seq<(Bytes, nat)>)
    requires |outcomes| < |adds| && JudgedSoFar(isDir, adds, outcomes) && DistinctNames(before)
    requires before == AddedPairs(adds[..|outcomes|], outcomes) && r == Judge(isDir, before, adds[|outcomes|].0)
    ensures JudgedSoFar(isDir, adds, outcomes + [r]) && (r.Added? ==> adds[|outcomes|].0.Normal?)
    ensures var after := before + if r.Added? then Shows(adds[|outcomes|].0.name, adds[|outcomes|].1) else [];
      DistinctNames(after) && after == AddedPairs(adds[..|outcomes| + 1], outcomes + [r])
  {
    hide Shows, Judge, AddedPairs, JudgedSoFar, DistinctNames;
    var i := |outcomes|;
    if r.Added? {
      AddKeepsDistinct(isDir, before, adds[i].0, adds[i].1);
      AddedIsNormal(isDir, before, adds[i].0);
    } else {
      assert before + [] == before;
    }
    AddedPairsStep(adds, outcomes, r);
    JudgedStep(isDir, adds, outcomes, r);
  }

  lemma EmptyRun(isDir: bool, adds: seq<(Component, nat)>)
    ensures JudgedSoFar(isDir, adds, []) && AddedPairs(adds[..0], []) == [] && DistinctNames([])
  {
  }

  lemma AddedIsNormal(isDir: bool, listing: seq<(Bytes, nat)>, path: Component)
    requires Judge(isDir, listing, path).Added?
    ensures path.Normal?
  {
  }

  /** A walk that searches such a listing finds exactly the pairs it holds. */
  lemma {:induction false} FindInListing(listing: seq<(Bytes, nat)>, name: Bytes, inode: nat)
    requires DistinctNames(listing)
    ensures Find(listing, name) == Some(inode) <==> (name, inode) in listing
  {
    if listing != [] {
      var rest := listing[1..];
      assert listing == [listing[0]] + rest;
      assert forall i, j :: 0 <= i < j < |rest| ==> rest[i] == listing[i + 1] && rest[j] == listing[j + 1];
      FindInListing(rest, name, inode);
    }
  }
}
