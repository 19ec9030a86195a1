/**
 The boot frame allocator, the bitmap it leaves behind, and the bitmap frame allocator
 (kernel/src/memory/frame/boot.rs, kernel/src/memory/frame/mod.rs).
 */
module FrameAllocator {
  import opened Prelude
  import opened Bits
  import opened Frames
  import opened FrameBitmap

  class BootFrameAllocator {
    const us: seq<Region>
    var next: nat

    constructor (us: seq<Region>)
      ensures this.us == us && next == 0
    {
      this.us := us;
      next := 0;
    }

    method AllocateFrame() returns (r: Option<nat>)
      requires AllAligned(us)
      modifies this
      ensures r == FrameAddress(us, old(next))
      ensures next == old(next) + if r.Some? then 1 else 0
    {
      BootFrameAddress(us, next);
      var frames := BootFrames(us);
      if next >= |frames| {
        return None;
      }
      r := Some(frames[next]);
      next := next + 1;
    }
  }

  method FrameToAddress(us: seq<Region>, frame: nat) returns (r: Option<nat>)
    requires AllAligned(us)
    ensures r == if frame < |BootFrames(us)| then Some(BootFrames(us)[frame]) else None
  {
    BootFrameAddress(us, frame);
    var left: nat := frame;
    for i := 0 to |us|
      invariant AllAligned(us[i..]) && FrameAddress(us[i..], left) == FrameAddress(us, frame)
    {
      assert us[i..][1..] == us[i + 1..];
      var frames := (us[i].end - us[i].start) / FRAME;
      if left < frames {
        return Some(us[i].start + left * FRAME);
      }
      left := left - frames;
    }
    return None;
  }

  method AddressToFrame(us: seq<Region>, addr: nat, how: Numbering) returns (r: Number)
    requires AllAligned(us)
    ensures r == NumberBy(how, us, addr)
  {
    var frame: nat := 0;
    for i := 0 to |us|
      invariant AllAligned(us[i..])
      invariant how == Meant ==> FrameNumber(us[i..], addr, frame) == FrameNumber(us, addr)
      invariant how == Wrapping ==> WrittenNumber(us[i..], addr, frame) == WrittenNumber(us, addr)
      invariant how == Checked ==> frame == 0 && CheckedNumber(us[i..], addr) == CheckedNumber(us, addr)
    {
      assert us[i..][1..] == us[i + 1..];
      if us[i].start <= addr < us[i].end {
        var n := frame + (addr - us[i].start) / FRAME;
        return Found(if how == Wrapping then n % U64 else n);
      }
      match how {
        case Meant =>
          frame := frame + (us[i].end - us[i].start) / FRAME;
        case Wrapping =>
          frame := (frame + WrappedCount(us[i])) % U64;
        case Checked =>
          if us[i].start < us[i].end {
            return Overflowed;
          }
      }
    }
    return Nowhere;
  }

  method RequiredBitmapSize(us: seq<Region>) returns (bytes: nat)
    requires AllAligned(us)
    ensures bytes == DivCeil(DivCeil(FRAME * |BootFrames(us)|, FRAME), 8)
    ensures 8 * bytes >= |BootFrames(us)| && (bytes > 0 ==> 8 * (bytes - 1) < |BootFrames(us)|)
  {
    hide DivCeil;
    var total := 0;
    for i := 0 to |us|
      invariant AllAligned(us[..i]) && total == TotalBytes(us[..i])
    {
      assert us[..i + 1][..i] == us[..i];
      total := total + us[i].end - us[i].start;
    }
    assert us[..|us|] == us;
    BytesAreFrames(us);
    WholeFrames(|BootFrames(us)|);
    bytes := DivCeil(DivCeil(total, FRAME), 8);
    DivCeilIs(DivCeil(total, FRAME), 8);
  }

  lemma WholeFrames(n: nat)
    ensures DivCeil(FRAME * n, FRAME) == n
  {
  }

  // ---------------------------------------------------------------- building the bitmap

  datatype Built = Ready(words: seq<bv64>, used: nat) | Failed

  /** A bit for every usable frame, set for exactly the first `used`. */
  ghost predicate Prepared(us: seq<Region>, words: seq<bv64>, used: nat)
    requires AllAligned(us)
  {
    && |BootFrames(us)| <= 64 * |words| && used <= |BootFrames(us)|
    && forall k: nat :: k < 64 * |words| ==> (Marked(words, k) <==> k < used)
  }

  lemma {:induction false} ZeroWords(words: seq<bv64>)
    requires forall i :: 0 <= i < |words| ==> words[i] == 0
    ensures forall k: nat :: k < 64 * |words| ==> !Marked(words, k)
  {
    hide Bit64;
    forall k: nat | k < 64 * |words|
      ensures !Marked(words, k)
    {
      ZeroBits64(k % 64);
    }
  }

  /** `tables` is how many frames mapping the bitmap takes for page tables. */
  method AllocateBitmap(us: seq<Region>, tables: nat) returns (r: Built)
    requires GoodRegions(us)
    ensures r.Ready? ==>
      && Prepared(us, r.words, r.used)
      && var n := BitmapFrames(FRAME * |BootFrames(us)|);
      && r.used == n + tables && |r.words| == n * WORDS_PER_FRAME
      && forall k: nat :: k < n ==> BootFrames(us)[k] == BootFrames(us)[0] + k * FRAME
    ensures r.Failed? <==>
      var n, total := BitmapFrames(FRAME * |BootFrames(us)|), |BootFrames(us)|;
      total < n + tables || total == 0 || BootFrames(us)[n - 1] != BootFrames(us)[0] + (n - 1) * FRAME
  {
    hide DivCeil, Marked, GoodRegions;
    GoodParts(us);
    ghost var frames := BootFrames(us);
    BitmapSuffices(|frames|);
    var boot := new BootFrameAllocator(us);
    var size := RequiredBitmapSize(us);
    var n := DivCeil(size, FRAME);
    BootFrameAddress(us, 0);
    var first := boot.AllocateFrame();
    if first.None? {
      return Failed;
    }
    var last := first.value;
    for i := 1 to n
      invariant boot.us == us && boot.next == i && last == frames[i - 1]
    {
      BootFrameAddress(us, i);
      var frame := boot.AllocateFrame();
      last := frame.value;
    }
    if !IsContiguous(first.value, last, n) {
      return Failed;
    }
    for i := 0 to tables
      invariant boot.us == us && boot.next == n + i <= |frames|
    {
      BootFrameAddress(us, n + i);
      var frame := boot.AllocateFrame();
      if frame.None? {
        return Failed;
      }
    }
    var words := seq(n * WORDS_PER_FRAME, _ => 0 as bv64);
    ZeroWords(words);
    for i := 0 to boot.next
      invariant |words| == n * WORDS_PER_FRAME && boot.next <= |frames|
      invariant forall k: nat :: k < 64 * |words| ==> (Marked(words, k) <==> k < i)
    {
      forall k: nat | k < 64 * |words|
        ensures Marked(Mark(words, i), k) <==> k == i || Marked(words, k)
      {
        MarkBits(words, i, k);
      }
      words := Mark(words, i);
    }
    forall k: nat | k < n
      ensures frames[k] == frames[0] + k * FRAME
    {
      EndsDecide(us, n, k);
    }
    return Ready(words, boot.next);
  }

  lemma GoodParts(us: seq<Region>)
    requires GoodRegions(us)
    ensures AllAligned(us)
  {
  }

  // ---------------------------------------------------------------- the bitmap allocator

  datatype Outcome = Frame(addr: nat) | NoFrame | Panicked

  class BitmapFrameAllocator {
    const us: seq<Region>
    const bitmap: array<bv64>

    constructor (us: seq<Region>, words: seq<bv64>)
      ensures this.us == us && fresh(bitmap) && bitmap[..] == words
    {
      this.us := us;
      bitmap := new bv64[|words|](i requires 0 <= i < |words| => words[i]);
    }

    method FirstFreeFrame(guard: Guard) returns (r: Option<nat>)
      ensures r == FirstFree(guard, bitmap[..])
    {
      hide LeadingOnes64;
      for i := 0 to bitmap.Length
        invariant FirstFree(guard, bitmap[..]) == FirstFree(guard, bitmap[..], i)
      {
        if Passes(guard, bitmap[i]) {
          return Some(64 * i + LeadingOnes64(bitmap[i]));
        }
      }
      return None;
    }

    /** Marks the frame found, even one beyond the last usable frame; only then is its address looked up. */
    method AllocateFrame(guard: Guard) returns (r: Outcome)
      requires AllAligned(us)
      modifies bitmap
      ensures match FirstFree(guard, old(bitmap[..]))
        case None => r == NoFrame && bitmap[..] == old(bitmap[..])
        case Some(k) =>
          if k < 64 * bitmap.Length then
            && bitmap[..] == Mark(old(bitmap[..]), k)
            && r == if k < |BootFrames(us)| then Frame(BootFrames(us)[k]) else NoFrame
          else r == Panicked && bitmap[..] == old(bitmap[..])
    {
      hide FirstFree, Set64;
      var found := FirstFreeFrame(guard);
      if found.None? {
        return NoFrame;
      }
      var k := found.value;
      if k / 64 >= bitmap.Length {
        return Panicked;
      }
      bitmap[k / 64] := Set64(bitmap[k / 64], k % 64);
      var addr := FrameToAddress(us, k);
      return if addr.Some? then Frame(addr.value) else NoFrame;
    }

    method DeallocateFrame(addr: nat, how: Numbering) returns (r: Outcome)
      requires AllAligned(us)
      modifies bitmap
      ensures match NumberBy(how, us, addr)
        case Nowhere => r == Panicked && bitmap[..] == old(bitmap[..])
        case Overflowed => r == Panicked && bitmap[..] == old(bitmap[..])
        case Found(k) =>
          if k < 64 * bitmap.Length then bitmap[..] == Unmark(old(bitmap[..]), k) && r == Frame(addr)
          else r == Panicked && bitmap[..] == old(bitmap[..])
    {
      hide Clear64;
      var number := AddressToFrame(us, addr, how);
      if !number.Found? {
        return Panicked;
      }
      var k := number.n;
      if k / 64 >= bitmap.Length {
        return Panicked;
      }
      bitmap[k / 64] := Clear64(bitmap[k / 64], k % 64);
      return Frame(addr);
    }
  }

  // ---------------------------------------------------------------- whole runs

  /** `Release` gives back the i-th frame still out. */
  datatype Call = Take | Release(i: nat)

  /** Frame `k` can be handed out: usable, not taken while booting, and not out. */
  ghost predicate Available(us: seq<Region>, used: nat, live: seq<nat>, k: nat)
    requires AllAligned(us)
  {
    used <= k < |BootFrames(us)| && BootFrames(us)[k] !in live
  }

  /** The frames that are out are different usable frames, none taken while booting. */
  ghost predicate GoodLive(us: seq<Region>, used: nat, live: seq<nat>)
    requires AllAligned(us)
  {
    && (forall i :: 0 <= i < |live| ==> IsFrame(us, used, live[i]))
    && (forall i, j :: 0 <= i < j < |live| ==> live[i] != live[j])
  }

  ghost predicate IsFrame(us: seq<Region>, used: nat, addr: nat)
    requires AllAligned(us)
  {
    exists k :: used <= k < |BootFrames(us)| && BootFrames(us)[k] == addr
  }

  /** What each call must do: take the lowest available frame, or none when none is; give back one frame. */
  ghost predicate Serves(us: seq<Region>, used: nat, before: seq<nat>, after: seq<nat>, call: Call, r: Outcome)
    requires AllAligned(us)
  {
    match call
    case Take =>
      (match r
       case Frame(addr) =>
         && after == before + [addr]
         && exists k: nat :: Available(us, used, before, k) && BootFrames(us)[k] == addr
                        && forall j: nat :: j < k ==> !Available(us, used, before, j)
       case NoFrame => after == before && forall k: nat :: !Available(us, used, before, k)
       case Panicked => false)
    case Release(i) =>
      !r.Panicked? && after == if i < |before| then RemoveAt(before, i) else before
  }

  /** The set bits of the usable frames are those taken while booting and those out. */
  ghost predicate Tracks(us: seq<Region>, words: seq<bv64>, used: nat, live: seq<nat>)
    requires AllAligned(us)
  {
    && |BootFrames(us)| <= 64 * |words| && GoodLive(us, used, live)
    && forall k: nat :: k < |BootFrames(us)| ==> (Marked(words, k) <==> !Available(us, used, live, k))
  }

  lemma FrameOnce(us: seq<Region>, i: nat, j: nat)
    requires GoodRegions(us) && i < |BootFrames(us)| && j < |BootFrames(us)|
    ensures BootFrames(us)[i] == BootFrames(us)[j] <==> i == j
  {
    if i < j {
      FramesAscend(us, i, j);
    } else if j < i {
      FramesAscend(us, j, i);
    }
  }

  lemma TakeFrame(us: seq<Region>, words: seq<bv64>, used: nat, live: seq<nat>, k: nat)
    requires GoodRegions(us) && Tracks(us, words, used, live) && IsLowest(words, Some(k)) && k < |BootFrames(us)|
    ensures var addr := BootFrames(us)[k];
      Tracks(us, Mark(words, k), used, live + [addr]) && Serves(us, used, live, live + [addr], Take, Frame(addr))
  {
    hide Marked, Mark, GoodRegions;
    GoodParts(us);
    var addr := BootFrames(us)[k];
    var more := live + [addr];
    assert Available(us, used, live, k);
    assert IsFrame(us, used, addr);
    forall j: nat | j < |BootFrames(us)|
      ensures Marked(Mark(words, k), j) <==> !Available(us, used, more, j)
    {
      MarkBits(words, k, j);
      FrameOnce(us, j, k);
    }
  }

  lemma TakeSpare(us: seq<Region>, words: seq<bv64>, used: nat, live: seq<nat>, k: nat)
    requires GoodRegions(us) && Tracks(us, words, used, live) && IsLowest(words, Some(k)) && k >= |BootFrames(us)|
    ensures Tracks(us, Mark(words, k), used, live) && Serves(us, used, live, live, Take, NoFrame)
  {
    hide Marked, Mark, GoodRegions;
    GoodParts(us);
    forall j: nat | j < |BootFrames(us)|
      ensures Marked(Mark(words, k), j) <==> Marked(words, j)
    {
      MarkBits(words, k, j);
    }
  }

  lemma TakeNone(us: seq<Region>, words: seq<bv64>, used: nat, live: seq<nat>)
    requires AllAligned(us) && Tracks(us, words, used, live) && IsLowest(words, None)
    ensures Serves(us, used, live, live, Take, NoFrame)
  {
    hide Marked;
  }

  lemma GiveFrame(us: seq<Region>, words: seq<bv64>, used: nat, live: seq<nat>, i: nat) returns (k: nat)
    requires GoodRegions(us) && Tracks(us, words, used, live) && i < |live|
    ensures k < |BootFrames(us)| && FrameNumber(us, live[i]) == Some(k)
    ensures Tracks(us, Unmark(words, k), used, RemoveAt(live, i))
  {
    hide Marked, Unmark, GoodRegions;
    GoodParts(us);
    assert IsFrame(us, used, live[i]);
    k :| used <= k < |BootFrames(us)| && BootFrames(us)[k] == live[i];
    NumberOfFrame(us, k, 0);
    RemovedOne(live, i);
    var fewer := RemoveAt(live, i);
    forall j: nat | j < |BootFrames(us)|
      ensures Marked(Unmark(words, k), j) <==> !Available(us, used, fewer, j)
    {
      UnmarkBits(words, k, j);
      FrameOnce(us, j, k);
    }
  }

  lemma RemovedOne(live: seq<nat>, i: nat)
    requires i < |live| && forall p, q :: 0 <= p < q < |live| ==> live[p] != live[q]
    ensures forall a :: a in RemoveAt(live, i) <==> a in live && a != live[i]
    ensures forall p, q :: 0 <= p < q < |live| - 1 ==> RemoveAt(live, i)[p] != RemoveAt(live, i)[q]
    ensures forall p :: 0 <= p < |live| - 1 ==> RemoveAt(live, i)[p] in live
  {
    var fewer := RemoveAt(live, i);
    assert forall p :: 0 <= p < |fewer| ==> fewer[p] == live[if p < i then p else p + 1];
    forall a | a in live && a != live[i]
      ensures a in fewer
    {
      var p :| 0 <= p < |live| && live[p] == a;
      assert fewer[if p < i then p else p - 1] == a;
    }
  }

  /** One call, with the test of the comment and correct numbering. */
  method OneCall(allocator: BitmapFrameAllocator, ghost used: nat, live: seq<nat>, call: Call)
    returns (r: Outcome, out: seq<nat>)
    requires GoodRegions(allocator.us) && AllAligned(allocator.us)
    requires Tracks(allocator.us, allocator.bitmap[..], used, live)
    modifies allocator.bitmap
    ensures Tracks(allocator.us, allocator.bitmap[..], used, out) && Serves(allocator.us, used, live, out, call, r)
  {
    hide GoodRegions, Tracks, Serves, IsLowest, Mark, Unmark;
    ghost var us, bits := allocator.us, allocator.bitmap[..];
    out := live;
    match call {
      case Take =>
        CommentedLowest(bits);
        r := allocator.AllocateFrame(NotFull);
        ghost var k := FirstFree(NotFull, bits);
        if k.None? {
          TakeNone(us, bits, used, live);
        } else if k.value < |BootFrames(us)| {
          TakeFrame(us, bits, used, live, k.value);
        } else {
          TakeSpare(us, bits, used, live, k.value);
        }
        LowestInRange(bits, k);
        if r.Frame? {
          out := live + [r.addr];
        }
      case Release(i) =>
        r := NoFrame;
        if i < |live| {
          ghost var k := GiveFrame(us, bits, used, live, i);
          TracksRoom(us, bits, used, live);
          r := allocator.DeallocateFrame(live[i], Meant);
          out := RemoveAt(live, i);
        }
        GiveServes(us, used, live, out, i, r);
    }
  }

  /**
   Any run of allocations and frees after boot, with the test of the comment and correct numbering. Each
   call serves as a simple list of frames would, and no call panics.
   */
  method Run(us: seq<Region>, words: seq<bv64>, used: nat, calls: seq<Call>)
    returns (live: seq<nat>, outcomes: seq<Outcome>, ghost history: seq<seq<nat>>)
    requires GoodRegions(us) && Prepared(us, words, used)
    ensures |outcomes| == |calls| && |history| == |calls| + 1 && history[0] == [] && history[|calls|] == live
    ensures forall i :: 0 <= i < |calls| ==> Serves(us, used, history[i], history[i + 1], calls[i], outcomes[i])
    ensures GoodLive(us, used, live)
  {
    hide GoodRegions, Tracks, Serves, Prepared, IsLowest, GoodLive;
    GoodParts(us);
    StartTracks(us, words, used);
    var allocator := new BitmapFrameAllocator(us, words);
    live, outcomes, history := [], [], [[]];
    for n := 0 to |calls|
      invariant allocator.us == us && fresh(allocator.bitmap) && Tracks(us, allocator.bitmap[..], used, live)
      invariant |outcomes| == n && |history| == n + 1 && history[0] == [] && history[n] == live
      invariant forall i :: 0 <= i < n ==> Serves(us, used, history[i], history[i + 1], calls[i], outcomes[i])
    {
      var r;
      r, live := OneCall(allocator, used, live, calls[n]);
      outcomes := outcomes + [r];
      history := history + [live];
    }
    TracksRoom(us, allocator.bitmap[..], used, live);
  }

  lemma StartTracks(us: seq<Region>, words: seq<bv64>, used: nat)
    requires AllAligned(us) && Prepared(us, words, used)
    ensures Tracks(us, words, used, [])
  {
    hide Marked;
  }

  lemma CommentedLowest(words: seq<bv64>)
    ensures IsLowest(words, FirstFree(NotFull, words))
  {
    CommentedFindsLowest(words, 0);
  }

  lemma LowestInRange(words: seq<bv64>, r: Option<nat>)
    requires IsLowest(words, r)
    ensures r.Some? ==> r.value < 64 * |words|
  {
  }

  lemma TracksRoom(us: seq<Region>, words: seq<bv64>, used: nat, live: seq<nat>)
    requires AllAligned(us) && Tracks(us, words, used, live)
    ensures |BootFrames(us)| <= 64 * |words| && GoodLive(us, used, live)
  {
  }

  lemma GiveServes(us: seq<Region>, used: nat, before: seq<nat>, after: seq<nat>, i: nat, r: Outcome)
    requires AllAligned(us) && !r.Panicked? && after == if i < |before| then RemoveAt(before, i) else before
    ensures Serves(us, used, before, after, Release(i), r)
  {
  }

  // ---------------------------------------------------------------- the test as written

  /**
   The frame the t-th take gives, by the test of the code: the rest of the first word, then frame 64 over and over.
   */
  function WrittenTake(used: nat, t: nat): nat {
    if used + t < 64 then used + t else 64
  }

  /** The first word is marked up to `n`. */
  ghost predicate FirstWordTo(words: seq<bv64>, n: nat) {
    |words| > 1 && forall k: nat :: k < 64 ==> (Marked(words, k) <==> k < n)
  }

  lemma WrittenFirst(words: seq<bv64>, n: nat)
    requires FirstWordTo(words, n) && n > 0
    ensures FirstFree(NotZero, words) == Some(if n < 64 then n else 64)
  {
    hide LeadingOnes64, Bit64;
    var w := words[0];
    assert Marked(words, 0);
    if w == 0 {
      ZeroBits64(0);
    }
    LeadingOnesEnd64(w);
    assert forall k: nat :: k < 64 ==> (Bit64(w, k) <==> k < n) by {
      forall k: nat | k < 64
        ensures Bit64(w, k) <==> k < n
      {
        assert Marked(words, k) <==> k < n;
      }
    }
    var l := LeadingOnes64(w);
    assert l < 64 ==> !Bit64(w, l);
    assert 0 < l ==> Bit64(w, l - 1);
    assert n < 64 ==> !Bit64(w, n);
  }

  lemma WrittenMark(words: seq<bv64>, n: nat)
    requires FirstWordTo(words, n)
    ensures FirstWordTo(Mark(words, if n < 64 then n else 64), n + 1)
  {
    hide Marked, Mark;
    var f := if n < 64 then n else 64;
    var after := Mark(words, f);
    forall k: nat | k < 64
      ensures Marked(after, k) <==> k < n + 1
    {
      MarkBits(words, f, k);
    }
  }

  /** What the takes give. */
  ghost predicate GivenAsWritten(us: seq<Region>, used: nat, outcomes: seq<Outcome>)
    requires AllAligned(us)
  {
    forall t :: 0 <= t < |outcomes| ==> var k := WrittenTake(used, t);
      outcomes[t] == if k < |BootFrames(us)| then Frame(BootFrames(us)[k]) else NoFrame
  }

  /** The `t`-th take gives a frame that was used while booting, or that an earlier take gave. */
  ghost predicate GivenAgain(us: seq<Region>, used: nat, outcomes: seq<Outcome>, t: nat)
    requires AllAligned(us) && t < |outcomes|
  {
    && outcomes[t].Frame?
    && ((exists k :: 0 <= k < used && k < |BootFrames(us)| && BootFrames(us)[k] == outcomes[t].addr)
        || (exists s :: 0 <= s < t && outcomes[s] == outcomes[t]))
  }

  /** Takes only, by the test of the code, on a bitmap as it is after boot. */
  method TakeAsWritten(us: seq<Region>, words: seq<bv64>, used: nat, takes: nat) returns (outcomes: seq<Outcome>)
    requires GoodRegions(us) && Prepared(us, words, used) && used > 0 && |words| > 1
    ensures |outcomes| == takes && GivenAsWritten(us, used, outcomes)
    ensures forall t: nat :: t < takes ==>
        (GivenAgain(us, used, outcomes, t) <==> |BootFrames(us)| > 64 && used + t > 64)
  {
    hide GoodRegions, FirstFree, Mark, Marked, Set64, GivenAgain;
    GoodParts(us);
    var allocator := new BitmapFrameAllocator(us, words);
    outcomes := [];
    for n := 0 to takes
      invariant allocator.us == us && fresh(allocator.bitmap) && |outcomes| == n
      invariant FirstWordTo(allocator.bitmap[..], used + n) && GivenAsWritten(us, used, outcomes)
    {
      WrittenFirst(allocator.bitmap[..], used + n);
      WrittenMark(allocator.bitmap[..], used + n);
      var r := allocator.AllocateFrame(NotZero);
      outcomes := outcomes + [r];
    }
    forall t: nat | t < takes
      ensures GivenAgain(us, used, outcomes, t) <==> |BootFrames(us)| > 64 && used + t > 64
    {
      WrittenRepeats(us, used, outcomes, t);
    }
  }

  /** With more than 64 usable frames, a take gives a frame in use exactly from the one after frame 64 was given. */
  lemma WrittenRepeats(us: seq<Region>, used: nat, outcomes: seq<Outcome>, t: nat)
    requires GoodRegions(us) && t < |outcomes| && GivenAsWritten(us, used, outcomes)
    ensures GivenAgain(us, used, outcomes, t) <==> |BootFrames(us)| > 64 && used + t > 64
  {
    hide GoodRegions, BootFrames;
    GoodParts(us);
    var k := WrittenTake(used, t);
    forall j: nat | j < |BootFrames(us)| && k < |BootFrames(us)|
      ensures BootFrames(us)[j] == BootFrames(us)[k] <==> j == k
    {
      FrameOnce(us, j, k);
    }
    if |BootFrames(us)| > 64 && used + t > 64 {
      if used > 64 {
        assert BootFrames(us)[64] == outcomes[t].addr;
      } else {
        assert outcomes[64 - used] == outcomes[t];
      }
    }
  }
}
