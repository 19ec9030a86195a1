/**
 Physical frame numbers over a list of memory regions (kernel/src/memory/frame/mod.rs,
 kernel/src/memory/frame/boot.rs).
 */
module Frames {
  import opened Prelude

  const FRAME: nat := 4096
  /** Physical addresses have at most 52 bits. */
  const PHYSICAL_END: nat := 0x10_0000_0000_0000

  datatype Region = Region(start: nat, end: nat, usable: bool)

  function UsableRegions(regions: seq<Region>): (r: seq<Region>) {
    if regions == [] then []
    else (if regions[0].usable then [regions[0]] else []) + UsableRegions(regions[1..])
  }

  predicate Aligned(r: Region) {
    r.start <= r.end <= PHYSICAL_END && r.start % FRAME == 0 && r.end % FRAME == 0
  }

  predicate AllAligned(us: seq<Region>) {
    forall i :: 0 <= i < |us| ==> Aligned(us[i])
  }

  /** Page-aligned, ascending and disjoint. */
  ghost predicate GoodRegions(us: seq<Region>) {
    && AllAligned(us)
    && (forall i, j :: 0 <= i < j < |us| ==> us[i].end <= us[j].start)
  }

  lemma {:induction false} UsableIn(regions: seq<Region>)
    ensures forall u :: u in UsableRegions(regions) ==> u in regions && u.usable
  {
    if regions != [] {
      UsableIn(regions[1..]);
    }
  }

  /** `at` are places of usable regions from `i` on, in order. */
  ghost predicate Picks(regions: seq<Region>, i: nat, at: seq<nat>, us: seq<Region>) {
    && |at| == |us|
    && (forall k :: 0 <= k < |at| ==> i <= at[k] < |regions| && regions[at[k]] == us[k] && us[k].usable)
    && (forall k, l :: 0 <= k < l < |at| ==> at[k] < at[l])
  }

  ghost predicate PicksAll(regions: seq<Region>, i: nat, at: seq<nat>) {
    forall k :: i <= k < |regions| && regions[k].usable ==> k in at
  }

  /** Every usable region is kept, in order, and no other. */
  lemma {:induction false} UsableKept(regions: seq<Region>, i: nat) returns (at: seq<nat>)
    requires i <= |regions|
    ensures Picks(regions, i, at, UsableRegions(regions[i..])) && PicksAll(regions, i, at)
    decreases |regions| - i
  {
    hide Picks, PicksAll;
    var us := UsableRegions(regions[i..]);
    if i == |regions| {
      at := [];
      PicksNone(regions);
    } else {
      at := UsableKept(regions, i + 1);
      assert regions[i..][1..] == regions[i + 1..];
      PicksMore(regions, i, at, UsableRegions(regions[i + 1..]));
      if regions[i].usable {
        at := [i] + at;
      } else {
        assert us == UsableRegions(regions[i + 1..]);
      }
    }
  }

  lemma PicksNone(regions: seq<Region>)
    ensures Picks(regions, |regions|, [], []) && PicksAll(regions, |regions|, [])
  {
  }

  lemma PicksMore(regions: seq<Region>, i: nat, later: seq<nat>, us: seq<Region>)
    requires i < |regions| && Picks(regions, i + 1, later, us) && PicksAll(regions, i + 1, later)
    ensures regions[i].usable ==>
      Picks(regions, i, [i] + later, [regions[i]] + us) && PicksAll(regions, i, [i] + later)
    ensures !regions[i].usable ==> Picks(regions, i, later, us) && PicksAll(regions, i, later)
  {
    hide PicksAll, Picks;
    PicksAllMore(regions, i, later);
    if regions[i].usable {
      PicksPrepend(regions, i, later, us);
    } else {
      PicksLower(regions, i, later, us);
    }
  }

  lemma PicksLower(regions: seq<Region>, i: nat, later: seq<nat>, us: seq<Region>)
    requires Picks(regions, i + 1, later, us)
    ensures Picks(regions, i, later, us)
  {
  }

  lemma PicksPrepend(regions: seq<Region>, i: nat, later: seq<nat>, us: seq<Region>)
    requires i < |regions| && regions[i].usable && Picks(regions, i + 1, later, us)
    ensures Picks(regions, i, [i] + later, [regions[i]] + us)
  {
    var at, all := [i] + later, [regions[i]] + us;
    assert forall k :: 0 < k < |at| ==> at[k] == later[k - 1];
    assert forall k :: 0 < k < |all| ==> all[k] == us[k - 1];
    assert Picks(regions, i, at, all);
  }

  lemma PicksAllMore(regions: seq<Region>, i: nat, later: seq<nat>)
    requires i < |regions| && PicksAll(regions, i + 1, later)
    ensures PicksAll(regions, i, if regions[i].usable then [i] + later else later)
  {
  }

  lemma HeadBelow(regions: seq<Region>, x: Region)
    requires GoodRegions(regions) && regions != [] && x in regions[1..]
    ensures regions[0].end <= x.start
  {
    var k :| 0 <= k < |regions[1..]| && regions[1..][k] == x;
    assert regions[k + 1] == x;
  }

  lemma PrependGood(u: Region, rest: seq<Region>)
    requires Aligned(u) && GoodRegions(rest) && forall x :: x in rest ==> u.end <= x.start
    ensures GoodRegions([u] + rest)
  {
    hide Aligned;
    var all := [u] + rest;
    assert forall i :: 0 < i < |all| ==> all[i] == rest[i - 1] && all[i] in rest;
  }

  /** Filtering keeps a good list good. */
  lemma {:induction false} UsableGood(regions: seq<Region>)
    requires GoodRegions(regions)
    ensures GoodRegions(UsableRegions(regions))
  {
    if regions != [] {
      UsableGood(regions[1..]);
      UsableIn(regions[1..]);
      var rest := UsableRegions(regions[1..]);
      forall x | x in rest
        ensures regions[0].end <= x.start
      {
        HeadBelow(regions, x);
      }
      PrependGood(regions[0], rest);
      assert [] + rest == rest;
    }
  }

  function FrameCount(r: Region): nat
    requires r.start <= r.end
  {
    (r.end - r.start) / FRAME
  }

  /** The addresses the boot allocator steps through in one region. */
  function Steps(r: Region): (s: seq<nat>)
    requires Aligned(r)
    ensures |s| == FrameCount(r)
  {
    seq(FrameCount(r), i requires 0 <= i < FrameCount(r) => r.start + i * FRAME)
  }

  /** All usable frames, in the order the boot allocator hands them out. */
  function BootFrames(us: seq<Region>): seq<nat>
    requires AllAligned(us)
  {
    if us == [] then [] else Steps(us[0]) + BootFrames(us[1..])
  }

  function FrameAddress(us: seq<Region>, k: nat): Option<nat>
    requires AllAligned(us)
    decreases |us|
  {
    if us == [] then None
    else if k < FrameCount(us[0]) then Some(us[0].start + k * FRAME)
    else FrameAddress(us[1..], k - FrameCount(us[0]))
  }

  /** The frame number of an address, counting from `base`. */
  function FrameNumber(us: seq<Region>, addr: nat, base: nat := 0): Option<nat>
    requires AllAligned(us)
    decreases |us|
  {
    if us == [] then None
    else if us[0].start <= addr < us[0].end then Some(base + (addr - us[0].start) / FRAME)
    else FrameNumber(us[1..], addr, base + FrameCount(us[0]))
  }

  lemma GoodTail(us: seq<Region>)
    requires GoodRegions(us) && us != []
    ensures GoodRegions(us[1..]) && AllAligned(us) && Aligned(us[0])
  {
  }

  // ---------------------------------------------------------------- numbers and addresses

  /** The k-th boot frame is the frame numbered k, and there is no other. */
  lemma {:induction false} BootFrameAddress(us: seq<Region>, k: nat)
    requires AllAligned(us)
    ensures FrameAddress(us, k) == if k < |BootFrames(us)| then Some(BootFrames(us)[k]) else None
    decreases |us|
  {
    if us != [] {
      assert us[0] in us;
      var n := FrameCount(us[0]);
      if k >= n {
        BootFrameAddress(us[1..], k - n);
      }
    }
  }

  lemma {:induction false} FramesInRegions(us: seq<Region>, k: nat)
    requires GoodRegions(us) && k < |BootFrames(us)|
    ensures BootFrames(us)[k] % FRAME == 0 && us[0].start <= BootFrames(us)[k]
    ensures exists i :: 0 <= i < |us| && us[i].start <= BootFrames(us)[k] && BootFrames(us)[k] + FRAME <= us[i].end
    decreases |us|
  {
    var n := FrameCount(us[0]);
    if k < n {
      StepInRegion(us[0], k);
      assert us[0].start <= BootFrames(us)[k] && BootFrames(us)[k] + FRAME <= us[0].end;
    } else {
      GoodTail(us);
      FramesInRegions(us[1..], k - n);
      var frame := BootFrames(us)[k];
      var i :| 0 <= i < |us[1..]| && us[1..][i].start <= frame && frame + FRAME <= us[1..][i].end;
      assert us[i + 1] == us[1..][i];
      assert us[0].end <= us[i + 1].start;
    }
  }

  lemma StepInRegion(r: Region, k: nat)
    requires Aligned(r) && k < FrameCount(r)
    ensures Steps(r)[k] == r.start + k * FRAME && Steps(r)[k] % FRAME == 0 && Steps(r)[k] + FRAME <= r.end
  {
  }

  /** Boot frames ascend by whole frames, so no address comes twice. */
  lemma {:induction false} FramesAscend(us: seq<Region>, i: nat, j: nat)
    requires GoodRegions(us) && i < j < |BootFrames(us)|
    ensures BootFrames(us)[i] + FRAME <= BootFrames(us)[j]
    decreases |us|
  {
    var n := FrameCount(us[0]);
    GoodTail(us);
    if i >= n {
      FramesAscend(us[1..], i - n, j - n);
    } else {
      StepInRegion(us[0], i);
      if j < n {
        StepInRegion(us[0], j);
      } else {
        FramesInRegions(us[1..], j - n);
        assert us[0].end <= us[1].start;
      }
    }
  }

  /** The number of a boot frame is its position. */
  lemma {:induction false} NumberOfFrame(us: seq<Region>, k: nat, base: nat)
    requires GoodRegions(us) && k < |BootFrames(us)|
    ensures FrameNumber(us, BootFrames(us)[k], base) == Some(base + k)
    decreases |us|
  {
    var n := FrameCount(us[0]);
    GoodTail(us);
    if k < n {
      StepInRegion(us[0], k);
    } else {
      FramesInRegions(us[1..], k - n);
      assert us[0].end <= us[1].start;
      NumberOfFrame(us[1..], k - n, base + n);
    }
  }

  /** Some region holds `addr`. */
  ghost predicate Held(us: seq<Region>, addr: nat) {
    us != [] && (us[0].start <= addr < us[0].end || Held(us[1..], addr))
  }

  lemma {:induction false} HeldSomewhere(us: seq<Region>, addr: nat)
    ensures Held(us, addr) <==> exists i :: 0 <= i < |us| && us[i].start <= addr < us[i].end
  {
    if us != [] {
      HeldSomewhere(us[1..], addr);
      if i :| 0 <= i < |us[1..]| && us[1..][i].start <= addr < us[1..][i].end {
        assert us[i + 1] == us[1..][i];
      }
      if i :| 0 <= i < |us| && us[i].start <= addr < us[i].end {
        assert i > 0 ==> us[1..][i - 1] == us[i];
      }
    }
  }

  lemma InFrame(r: Region, addr: nat)
    requires Aligned(r) && r.start <= addr < r.end
    ensures var k := (addr - r.start) / FRAME;
      k < FrameCount(r) && r.start + k * FRAME <= addr < r.start + k * FRAME + FRAME
  {
  }

  /** An address has a number exactly when a region holds it, and it lies in the frame of that number. */
  lemma {:induction false} FrameOfNumber(us: seq<Region>, addr: nat, base: nat)
    requires GoodRegions(us)
    ensures FrameNumber(us, addr, base).Some? <==> Held(us, addr)
    ensures FrameNumber(us, addr, base).Some? ==>
      var k := FrameNumber(us, addr, base).value - base;
      0 <= k < |BootFrames(us)| && BootFrames(us)[k] <= addr < BootFrames(us)[k] + FRAME
    decreases |us|
  {
    if us != [] {
      GoodTail(us);
      var n := FrameCount(us[0]);
      if us[0].start <= addr < us[0].end {
        InFrame(us[0], addr);
        StepInRegion(us[0], (addr - us[0].start) / FRAME);
      } else {
        FrameOfNumber(us[1..], addr, base + n);
      }
    }
  }

  // ---------------------------------------------------------------- the numbering as written

  /** `(start - end) / 4096` with the subtraction wrapping at 64 bits. */
  function WrappedCount(r: Region): nat
    requires Aligned(r)
  {
    if r.start == r.end then 0 else (r.start + U64 - r.end) / FRAME
  }

  /** The code subtracts a region's end from its start when it moves past it. */
  function WrittenNumber(us: seq<Region>, addr: nat, base: nat := 0): Option<nat>
    requires AllAligned(us)
    decreases |us|
  {
    if us == [] then None
    else if us[0].start <= addr < us[0].end then Some((base + (addr - us[0].start) / FRAME) % U64)
    else WrittenNumber(us[1..], addr, (base + WrappedCount(us[0])) % U64)
  }

  /** Every region before the one that holds `addr` is empty. */
  ghost predicate InFirstFrames(us: seq<Region>, addr: nat) {
    us != [] && (us[0].start <= addr < us[0].end || (us[0].start == us[0].end && InFirstFrames(us[1..], addr)))
  }

  /** 2^64 bytes of frames. */
  const TURN: nat := 0x10_0000_0000_0000

  lemma WrappedCountIs(r: Region)
    requires Aligned(r) && r.start < r.end
    ensures WrappedCount(r) == TURN - FrameCount(r) && 0 < FrameCount(r)
  {
  }

  lemma EmptyRegion(r: Region)
    requires Aligned(r) && r.start == r.end
    ensures WrappedCount(r) == 0 && FrameCount(r) == 0
  {
  }

  lemma {:induction false} FrameBound(us: seq<Region>)
    requires GoodRegions(us) && us != []
    ensures FRAME * |BootFrames(us)| <= PHYSICAL_END - us[0].start
    decreases |us|
  {
    if |us| > 1 {
      GoodTail(us);
      FrameBound(us[1..]);
      assert us[0].end <= us[1].start;
    }
  }

  // ---------------------------------------------------------------- where the written number lands

  /** How many regions with frames are passed before the one that holds `addr`. */
  ghost function RegionsPassed(us: seq<Region>, addr: nat): nat
    requires Held(us, addr)
  {
    if us[0].start <= addr < us[0].end then 0
    else (if us[0].start < us[0].end then 1 else 0) + RegionsPassed(us[1..], addr)
  }

  /** How many frames are passed before that region. */
  ghost function FramesPassed(us: seq<Region>, addr: nat): nat
    requires AllAligned(us) && Held(us, addr)
  {
    if us[0].start <= addr < us[0].end then 0 else FrameCount(us[0]) + FramesPassed(us[1..], addr)
  }

  /** The frame within that region. */
  ghost function FrameWithin(us: seq<Region>, addr: nat): nat
    requires Held(us, addr)
  {
    if us[0].start <= addr < us[0].end then (addr - us[0].start) / FRAME else FrameWithin(us[1..], addr)
  }

  /** The number meant: the frames before the region, and the one within. */
  lemma {:induction false} MeantIs(us: seq<Region>, addr: nat, base: nat)
    requires GoodRegions(us) && Held(us, addr)
    ensures FrameNumber(us, addr, base) == Some(base + FramesPassed(us, addr) + FrameWithin(us, addr))
    ensures FramesPassed(us, addr) + FrameWithin(us, addr) < |BootFrames(us)|
    ensures RegionsPassed(us, addr) > 0 <==> FramesPassed(us, addr) > 0
    ensures RegionsPassed(us, addr) > 0 <==> !InFirstFrames(us, addr)
    ensures RegionsPassed(us, addr) <= FramesPassed(us, addr)
    decreases |us|
  {
    hide Steps, GoodRegions;
    GoodTail(us);
    if us[0].start <= addr < us[0].end {
      InFrame(us[0], addr);
    } else {
      MeantIs(us[1..], addr, base + FrameCount(us[0]));
      if us[0].start < us[0].end {
        WrappedCountIs(us[0]);
      }
    }
  }

  lemma WrapAdd(b: nat, c: nat, d: int)
    ensures ((b + c) % U64 + d) % U64 == (b + c + d) % U64
  {
  }

  /**
   The number as written: a whole turn too much for every region passed, and its frames taken off instead of added.
   */
  lemma {:induction false} WrittenIs(us: seq<Region>, addr: nat, base: nat)
    requires GoodRegions(us) && Held(us, addr)
    ensures WrittenNumber(us, addr, base)
         == Some((base + RegionsPassed(us, addr) * TURN - FramesPassed(us, addr) + FrameWithin(us, addr)) % U64)
    decreases |us|
  {
    hide Steps, GoodRegions, WrappedCount, FrameCount;
    GoodTail(us);
    if !(us[0].start <= addr < us[0].end) {
      var c := WrappedCount(us[0]);
      WrittenIs(us[1..], addr, (base + c) % U64);
      WrapAdd(base, c, RegionsPassed(us[1..], addr) * TURN - FramesPassed(us[1..], addr) + FrameWithin(us[1..], addr));
      if us[0].start < us[0].end {
        WrappedCountIs(us[0]);
      } else {
        EmptyRegion(us[0]);
      }
    }
  }

  /** How many turns make 2^64. */
  const TURNS: nat := 4096

  lemma TurnsWrap(m: nat, n: nat, q: nat, bits: nat)
    requires n + q < TURN && bits + n <= TURN
    ensures var k := (m * TURN - n + q) % U64;
      && (k < bits <==> m % TURNS == 0 && n <= q < n + bits)
      && (k < bits ==> k == q - n)
  {
    var a, b := m / TURNS, m % TURNS;
    var d := b * TURN - n + q;
    assert m * TURN - n + q == a * U64 + d;
    WholeTurns(a, d);
    if b > 0 {
      assert TURN - n <= d < U64;
    }
  }

  lemma WholeTurns(a: nat, d: int)
    ensures (a * U64 + d) % U64 == d % U64
  {
  }

  /**
   Where releasing a frame as written ends up, in a bitmap of `bits` bits: at a bit only if a multiple of
   4096 regions was passed and the frame lies that much further in its region than frames were passed.
   Past the first region with frames, that is another frame's bit.
   */
  lemma WrittenLands(us: seq<Region>, addr: nat, bits: nat)
    requires GoodRegions(us) && Held(us, addr) && bits + |BootFrames(us)| <= TURN
    ensures WrittenNumber(us, addr).Some? && FrameNumber(us, addr).Some?
    ensures var m, n, q := RegionsPassed(us, addr), FramesPassed(us, addr), FrameWithin(us, addr);
      && var k := WrittenNumber(us, addr).value;
      && (k < bits <==> m % TURNS == 0 && n <= q < n + bits)
      && (k < bits ==> k == q - n && (k == FrameNumber(us, addr).value <==> InFirstFrames(us, addr)))
  {
    hide BootFrames, Held, WrittenNumber, FrameNumber, RegionsPassed, FramesPassed, FrameWithin, InFirstFrames;
    MeantIs(us, addr, 0);
    WrittenIs(us, addr, 0);
    TurnsWrap(RegionsPassed(us, addr), FramesPassed(us, addr), FrameWithin(us, addr), bits);
  }

  lemma {:induction false} NotHeld(us: seq<Region>, addr: nat, base: nat, other: nat)
    requires AllAligned(us) && !Held(us, addr)
    ensures WrittenNumber(us, addr, base).None? && FrameNumber(us, addr, other).None?
    decreases |us|
  {
    if us != [] {
      NotHeld(us[1..], addr, (base + WrappedCount(us[0])) % U64, other + FrameCount(us[0]));
    }
  }

  /** As written, an address gets its number exactly when no frame comes before its region, or no region holds it. */
  lemma WrittenNumberIsRight(us: seq<Region>, addr: nat)
    requires GoodRegions(us)
    ensures WrittenNumber(us, addr) == FrameNumber(us, addr) <==> !Held(us, addr) || InFirstFrames(us, addr)
  {
    hide BootFrames, Held, WrittenNumber, FrameNumber, RegionsPassed, FramesPassed, FrameWithin, InFirstFrames;
    if Held(us, addr) {
      HeldNonEmpty(us, addr);
      FrameBound(us);
      MeantIs(us, addr, 0);
      WrittenIs(us, addr, 0);
      WrittenLands(us, addr, |BootFrames(us)|);
    } else {
      NotHeld(us, addr, 0, 0);
    }
  }

  lemma HeldNonEmpty(us: seq<Region>, addr: nat)
    requires Held(us, addr)
    ensures us != []
  {
  }

  // ---------------------------------------------------------------- builds

  /** The count that is meant, and the code's subtraction in a build where it wraps and in one where it is checked. */
  datatype Numbering = Meant | Wrapping | Checked

  datatype Number = Found(n: nat) | Nowhere | Overflowed

  /** With the subtraction checked, moving past a region that is not empty panics. */
  function CheckedNumber(us: seq<Region>, addr: nat): Number {
    if us == [] then Nowhere
    else if us[0].start <= addr < us[0].end then Found((addr - us[0].start) / FRAME)
    else if us[0].start < us[0].end then Overflowed
    else CheckedNumber(us[1..], addr)
  }

  function AsNumber(r: Option<nat>): Number {
    match r
    case None => Nowhere
    case Some(n) => Found(n)
  }

  function NumberBy(how: Numbering, us: seq<Region>, addr: nat): Number
    requires AllAligned(us)
  {
    match how
    case Meant => AsNumber(FrameNumber(us, addr))
    case Wrapping => AsNumber(WrittenNumber(us, addr))
    case Checked => CheckedNumber(us, addr)
  }

  /**
   With the subtraction checked, the number is right exactly when no non-empty region is passed; else the code
   panics.
   */
  lemma {:induction false} CheckedNumberIsRight(us: seq<Region>, addr: nat)
    requires GoodRegions(us)
    ensures CheckedNumber(us, addr) == AsNumber(FrameNumber(us, addr))
       <==> InFirstFrames(us, addr) || forall i :: 0 <= i < |us| ==> us[i].start == us[i].end
    ensures CheckedNumber(us, addr) != AsNumber(FrameNumber(us, addr)) ==> CheckedNumber(us, addr) == Overflowed
    decreases |us|
  {
    if us != [] {
      GoodTail(us);
      if us[0].start == us[0].end {
        CheckedNumberIsRight(us[1..], addr);
        assert forall i :: 0 < i < |us| ==> us[i] == us[1..][i - 1];
        assert forall i :: 0 <= i < |us[1..]| ==> us[1..][i] == us[i + 1];
      }
    }
  }
}
