/**
 The bitmap frame allocator as the code has it (kernel/src/memory/frame/mod.rs): its own test for a free
 word and its own frame numbers, in a build where the subtraction wraps.
 */
module WrittenFrames {
  import opened Prelude
  import opened Bits
  import opened Frames
  import opened FrameBitmap
  import opened FrameAllocator

  /** A bitmap of the size the kernel makes is far smaller than a turn of the wrapped count. */
  lemma BitmapFits(us: seq<Region>, words: seq<bv64>)
    requires GoodRegions(us) && |words| == BitmapFrames(FRAME * |BootFrames(us)|) * WORDS_PER_FRAME
    ensures 64 * |words| + |BootFrames(us)| <= TURN
  {
    hide GoodRegions, BootFrames, DivCeil;
    GoodParts(us);
    var frames := |BootFrames(us)|;
    var a := DivCeil(FRAME * frames, FRAME);
    DivCeilIs(FRAME * frames, FRAME);
    DivCeilIs(a, 8);
    DivCeilIs(DivCeil(a, 8), FRAME);
    NoRegionsNoFrames(us);
    if us != [] {
      FrameBound(us);
    }
  }

  lemma NoRegionsNoFrames(us: seq<Region>)
    requires AllAligned(us)
    ensures us == [] ==> BootFrames(us) == []
  {
  }

  /**
   Releasing a frame beyond the first region with frames. The bit of another frame is cleared exactly when
   a multiple of 4096 regions was passed and the frame lies that much further in its region than frames
   were passed; else the kernel panics.
   */
  method ReleaseAsWritten(us: seq<Region>, words: seq<bv64>, addr: nat) returns (r: Outcome, after: seq<bv64>)
    requires GoodRegions(us) && Held(us, addr) && !InFirstFrames(us, addr)
    requires 64 * |words| + |BootFrames(us)| <= TURN
    ensures var n, q := FramesPassed(us, addr), FrameWithin(us, addr);
      if RegionsPassed(us, addr) % TURNS == 0 && n <= q < n + 64 * |words| then
        && r == Frame(addr) && after == Unmark(words, q - n)
        && q - n < |BootFrames(us)| && FrameNumber(us, addr) != Some(q - n)
      else r == Panicked && after == words
  {
    hide GoodRegions, Held, InFirstFrames, WrittenNumber, FrameNumber, Unmark, Clear64;
    GoodParts(us);
    MeantIs(us, addr, 0);
    WrittenLands(us, addr, 64 * |words|);
    var allocator := new BitmapFrameAllocator(us, words);
    r := allocator.DeallocateFrame(addr, Wrapping);
    after := allocator.bitmap[..];
  }

  // ---------------------------------------------------------------- whole runs

  /** `a` is a frame the code can hand out: one of the first word not used while booting, or frame 64. */
  ghost predicate Numbered(us: seq<Region>, used: nat, a: nat)
    requires AllAligned(us)
  {
    exists k: nat :: (used <= k < 64 || k == 64) && k < |BootFrames(us)| && BootFrames(us)[k] == a
  }

  /** The frames out are such frames, and none but frame 64 is out more than once. */
  ghost predicate GoodOut(us: seq<Region>, used: nat, live: seq<nat>)
    requires AllAligned(us)
  {
    && (forall i :: 0 <= i < |live| ==> Numbered(us, used, live[i]))
    && (forall i, j :: 0 <= i < j < |live| && live[i] == live[j] ==> IsFrame64(us, live[i]))
  }

  ghost predicate IsFrame64(us: seq<Region>, a: nat)
    requires AllAligned(us)
  {
    64 < |BootFrames(us)| && BootFrames(us)[64] == a
  }

  /** The bits of the first word say which of its frames are used while booting or out. */
  ghost predicate TracksWord(us: seq<Region>, words: seq<bv64>, used: nat, live: seq<nat>)
    requires AllAligned(us)
  {
    && |words| > 1 && 0 < used <= |BootFrames(us)| && GoodOut(us, used, live)
    && forall k: nat :: k < 64 && k < |BootFrames(us)| ==> (Marked(words, k) <==> !Available(us, used, live, k))
  }

  /** Frame `k` is the lowest of the first word that can be handed out. */
  ghost predicate LowestInWord(us: seq<Region>, used: nat, live: seq<nat>, k: nat)
    requires AllAligned(us)
  {
    k < 64 && Available(us, used, live, k) && forall j: nat :: j < k ==> !Available(us, used, live, j)
  }

  ghost predicate WordUsedUp(us: seq<Region>, used: nat, live: seq<nat>)
    requires AllAligned(us)
  {
    forall k: nat :: k < 64 ==> !Available(us, used, live, k)
  }

  /**
   What each call does. A take gives the lowest frame of the first word that is neither out nor used while
   booting; without one it gives frame 64, out or not, and none when there are no more than 64 frames. A
   release works in the first region with frames and panics beyond it.
   */
  ghost predicate ServesAsWritten(us: seq<Region>, used: nat, before: seq<nat>, after: seq<nat>, call: Call, r: Outcome)
    requires AllAligned(us)
  {
    match call
    case Take =>
      || (exists k: nat :: LowestInWord(us, used, before, k)
            && r == Frame(BootFrames(us)[k]) && after == before + [BootFrames(us)[k]])
      || (WordUsedUp(us, used, before)
          && if |BootFrames(us)| > 64 then r == Frame(BootFrames(us)[64]) && after == before + [BootFrames(us)[64]]
             else r == NoFrame && after == before)
    case Release(i) =>
      if i >= |before| then r == NoFrame && after == before
      else if InFirstFrames(us, before[i]) then r == Frame(before[i]) && after == RemoveAt(before, i)
      else r == Panicked && after == before
  }

  /** The first word has its boot bits set, so the code's test stops there: at its first clear bit, or past its end. */
  lemma StopsInWord(us: seq<Region>, words: seq<bv64>, used: nat, live: seq<nat>) returns (l: nat)
    requires AllAligned(us) && TracksWord(us, words, used, live)
    ensures l <= 64 && FirstFree(NotZero, words) == Some(l)
    ensures forall k: nat :: k < l ==> Marked(words, k)
    ensures l < 64 ==> !Marked(words, l)
  {
    hide LeadingOnes64, Bit64;
    var w := words[0];
    assert Marked(words, 0);
    if w == 0 {
      ZeroBits64(0);
    }
    LeadingOnesEnd64(w);
    l := LeadingOnes64(w);
    assert forall k: nat :: k < 64 ==> (Marked(words, k) <==> Bit64(w, k));
  }

  lemma TakeLowest(us: seq<Region>, words: seq<bv64>, used: nat, live: seq<nat>, k: nat)
    requires GoodRegions(us) && AllAligned(us) && TracksWord(us, words, used, live)
    requires k < 64 && k < |BootFrames(us)| && !Marked(words, k) && forall j: nat :: j < k ==> Marked(words, j)
    ensures LowestInWord(us, used, live, k)
    ensures TracksWord(us, Mark(words, k), used, live + [BootFrames(us)[k]])
  {
    hide Marked, Mark, GoodRegions, BootFrames;
    var a := BootFrames(us)[k];
    var more := live + [a];
    assert Available(us, used, live, k);
    assert Numbered(us, used, a);
    forall j: nat | j < 64 && j < |BootFrames(us)|
      ensures Marked(Mark(words, k), j) <==> !Available(us, used, more, j)
    {
      MarkBits(words, k, j);
      FrameOnce(us, j, k);
    }
    forall j: nat | j < k
      ensures !Available(us, used, live, j)
    {
      assert Marked(words, j);
    }
  }

  /** A take beyond the frames of the first word: a spare bit, or frame 64. */
  lemma TakeBeyond(us: seq<Region>, words: seq<bv64>, used: nat, live: seq<nat>, k: nat)
    requires GoodRegions(us) && AllAligned(us) && TracksWord(us, words, used, live)
    requires k <= 64 && (k == 64 || k >= |BootFrames(us)|) && forall j: nat :: j < k ==> Marked(words, j)
    ensures WordUsedUp(us, used, live)
    ensures TracksWord(us, Mark(words, k), used, live)
    ensures |BootFrames(us)| > 64 ==> TracksWord(us, Mark(words, k), used, live + [BootFrames(us)[64]])
  {
    hide Marked, Mark, GoodRegions, BootFrames;
    forall j: nat | j < 64
      ensures !Available(us, used, live, j)
    {
      if j < |BootFrames(us)| {
        assert Marked(words, j);
      }
    }
    forall j: nat | j < 64 && j < |BootFrames(us)|
      ensures Marked(Mark(words, k), j) <==> Marked(words, j)
    {
      MarkBits(words, k, j);
    }
    if |BootFrames(us)| > 64 {
      var a := BootFrames(us)[64];
      assert Numbered(us, used, a) && IsFrame64(us, a);
      forall j: nat | j < 64
        ensures Available(us, used, live + [a], j) <==> Available(us, used, live, j)
      {
        FrameOnce(us, j, 64);
      }
    }
  }

  /** Which number a frame out has, meant and as written. */
  lemma OutNumber(us: seq<Region>, words: seq<bv64>, used: nat, live: seq<nat>, i: nat) returns (k: nat)
    requires GoodRegions(us) && AllAligned(us) && TracksWord(us, words, used, live) && i < |live|
    requires 64 * |words| + |BootFrames(us)| <= TURN
    ensures (used <= k < 64 || k == 64) && k < |BootFrames(us)| && BootFrames(us)[k] == live[i]
    ensures InFirstFrames(us, live[i]) ==> NumberBy(Wrapping, us, live[i]) == Found(k)
    ensures !InFirstFrames(us, live[i]) ==>
        NumberBy(Wrapping, us, live[i]).Found? && NumberBy(Wrapping, us, live[i]).n >= 64 * |words|
  {
    hide Marked, GoodRegions, BootFrames, InFirstFrames, WrittenNumber, FrameNumber, Held, RegionsPassed, FramesPassed,
      FrameWithin;
    var a := live[i];
    assert Numbered(us, used, a);
    k :| (used <= k < 64 || k == 64) && k < |BootFrames(us)| && BootFrames(us)[k] == a;
    NumberOfFrame(us, k, 0);
    FrameOfNumber(us, a, 0);
    MeantIs(us, a, 0);
    WrittenNumberIsRight(us, a);
    WrittenLands(us, a, 64 * |words|);
  }

  lemma GiveBack(us: seq<Region>, words: seq<bv64>, used: nat, live: seq<nat>, i: nat, k: nat)
    requires GoodRegions(us) && AllAligned(us) && TracksWord(us, words, used, live) && i < |live|
    requires (used <= k < 64 || k == 64) && k < |BootFrames(us)| && BootFrames(us)[k] == live[i]
    ensures TracksWord(us, Unmark(words, k), used, RemoveAt(live, i))
  {
    hide Marked, Unmark, GoodRegions, BootFrames, RemoveAt;
    var fewer := RemoveAt(live, i);
    StillOut(live, i);
    forall j: nat | j < 64 && j < |BootFrames(us)|
      ensures Marked(Unmark(words, k), j) <==> !Available(us, used, fewer, j)
    {
      UnmarkBits(words, k, j);
      FrameOnce(us, j, k);
      if 64 < |BootFrames(us)| {
        FrameOnce(us, k, 64);
      }
    }
  }

  /** What taking one frame out of the list leaves. */
  lemma StillOut(live: seq<nat>, i: nat)
    requires i < |live|
    ensures var fewer := RemoveAt(live, i);
      && |fewer| == |live| - 1
      && (forall p :: 0 <= p < |fewer| ==> fewer[p] == live[if p < i then p else p + 1])
      && (forall a :: a in live && a != live[i] ==> a in fewer)
      && (forall a :: a in fewer ==> a in live)
      && (live[i] in fewer ==> exists p :: 0 <= p < |live| && p != i && live[p] == live[i])
  {
    var fewer := RemoveAt(live, i);
    assert forall p :: 0 <= p < |fewer| ==> fewer[p] == live[if p < i then p else p + 1];
    forall a | a in live && a != live[i]
      ensures a in fewer
    {
      var p :| 0 <= p < |live| && live[p] == a;
      assert fewer[if p < i then p else p - 1] == a;
    }
    if live[i] in fewer {
      var p :| 0 <= p < |fewer| && fewer[p] == live[i];
      assert live[if p < i then p else p + 1] == live[i];
    }
  }

  /** One call by the code's own test and numbers. */
  method OneCall(allocator: BitmapFrameAllocator, ghost used: nat, live: seq<nat>, call: Call)
    returns (r: Outcome, out: seq<nat>)
    requires GoodRegions(allocator.us) && AllAligned(allocator.us)
    requires TracksWord(allocator.us, allocator.bitmap[..], used, live)
    requires 64 * allocator.bitmap.Length + |BootFrames(allocator.us)| <= TURN
    modifies allocator.bitmap
    ensures TracksWord(allocator.us, allocator.bitmap[..], used, out)
    ensures ServesAsWritten(allocator.us, used, live, out, call, r)
  {
    hide GoodRegions, FirstFree, Mark, Unmark, Marked, InFirstFrames, BootFrames;
    ghost var us, bits := allocator.us, allocator.bitmap[..];
    out := live;
    match call {
      case Take =>
        ghost var k := StopsInWord(us, bits, used, live);
        r := allocator.AllocateFrame(NotZero);
        if k < 64 && k < |BootFrames(us)| {
          TakeLowest(us, bits, used, live, k);
        } else {
          TakeBeyond(us, bits, used, live, k);
        }
        if r.Frame? {
          out := live + [r.addr];
        }
      case Release(i) =>
        r := NoFrame;
        if i < |live| {
          ghost var k := OutNumber(us, bits, used, live, i);
          GiveBack(us, bits, used, live, i, k);
          r := allocator.DeallocateFrame(live[i], Wrapping);
          if r.Frame? {
            out := RemoveAt(live, i);
          }
        }
    }
  }

  /**
   Any run of takes and releases after boot by the code's own test and numbers, up to the first panic. The
   frames out stay frames of the first word, each once, and frame 64, any number of times.
   */
  method Run(us: seq<Region>, words: seq<bv64>, used: nat, calls: seq<Call>)
    returns (live: seq<nat>, outcomes: seq<Outcome>, ghost history: seq<seq<nat>>)
    requires GoodRegions(us) && Prepared(us, words, used) && used > 0 && |words| > 1
    requires 64 * |words| + |BootFrames(us)| <= TURN
    ensures |outcomes| <= |calls| && |history| == |outcomes| + 1 && history[0] == [] && history[|outcomes|] == live
    ensures forall i :: 0 <= i < |outcomes| ==>
        ServesAsWritten(us, used, history[i], history[i + 1], calls[i], outcomes[i])
    ensures |outcomes| < |calls| ==> outcomes != [] && outcomes[|outcomes| - 1].Panicked?
    ensures GoodOut(us, used, live)
  {
    hide GoodRegions, TracksWord, ServesAsWritten, GoodOut;
    GoodParts(us);
    StartTracksWord(us, words, used);
    var allocator := new BitmapFrameAllocator(us, words);
    live, outcomes, history := [], [], [[]];
    var panicked := false;
    while |outcomes| < |calls| && !panicked
      invariant allocator.us == us && fresh(allocator.bitmap) && allocator.bitmap.Length == |words|
      invariant TracksWord(us, allocator.bitmap[..], used, live) && |outcomes| <= |calls|
      invariant |history| == |outcomes| + 1 && history[0] == [] && history[|outcomes|] == live
      invariant forall i :: 0 <= i < |outcomes| ==>
          ServesAsWritten(us, used, history[i], history[i + 1], calls[i], outcomes[i])
      invariant panicked ==> outcomes != [] && outcomes[|outcomes| - 1].Panicked?
      decreases |calls| - |outcomes|
    {
      var r;
      r, live := OneCall(allocator, used, live, calls[|outcomes|]);
      outcomes := outcomes + [r];
      history := history + [live];
      panicked := r.Panicked?;
    }
    TracksOut(us, allocator.bitmap[..], used, live);
  }

  lemma StartTracksWord(us: seq<Region>, words: seq<bv64>, used: nat)
    requires AllAligned(us) && Prepared(us, words, used) && used > 0 && |words| > 1
    ensures TracksWord(us, words, used, [])
  {
    hide Marked;
  }

  lemma TracksOut(us: seq<Region>, words: seq<bv64>, used: nat, live: seq<nat>)
    requires AllAligned(us) && TracksWord(us, words, used, live)
    ensures GoodOut(us, used, live)
  {
  }
}
