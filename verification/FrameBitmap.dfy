/**
 The bitmap over frame numbers, most significant bit first (kernel/src/memory/frame/mod.rs): finding the
 first free frame, and how large the bitmap has to be.
 */
module FrameBitmap {
  import opened Prelude
  import opened Bits
  import opened Frames

  predicate Marked(words: seq<bv64>, k: nat)
    requires k < 64 * |words|
  {
    Bit64(words[k / 64], k % 64)
  }

  function Mark(words: seq<bv64>, k: nat): (r: seq<bv64>)
    requires k < 64 * |words|
    ensures |r| == |words|
  {
    words[k / 64 := Set64(words[k / 64], k % 64)]
  }

  function Unmark(words: seq<bv64>, k: nat): (r: seq<bv64>)
    requires k < 64 * |words|
    ensures |r| == |words|
  {
    words[k / 64 := Clear64(words[k / 64], k % 64)]
  }

  lemma MarkBits(words: seq<bv64>, k: nat, j: nat)
    requires k < 64 * |words| && j < 64 * |words|
    ensures Marked(Mark(words, k), j) <==> j == k || Marked(words, j)
  {
    hide Bit64, Set64;
    SetBit64(words[k / 64], k % 64, j % 64);
  }

  lemma UnmarkBits(words: seq<bv64>, k: nat, j: nat)
    requires k < 64 * |words| && j < 64 * |words|
    ensures Marked(Unmark(words, k), j) <==> j != k && Marked(words, j)
  {
    hide Bit64, Clear64;
    ClearBit64(words[k / 64], k % 64, j % 64);
  }

  // ---------------------------------------------------------------- the first free frame

  /** The code looks for a word that is not zero; its comment, for one that is not all ones. */
  datatype Guard = NotZero | NotFull

  predicate Passes(guard: Guard, w: bv64) {
    match guard
    case NotZero => w != 0
    case NotFull => w != MAX64
  }

  /** The first passing word from `i` on, and the ones it starts with. */
  function FirstFree(guard: Guard, words: seq<bv64>, i: nat := 0): Option<nat>
    requires i <= |words|
    decreases |words| - i
  {
    if i == |words| then None
    else if Passes(guard, words[i]) then Some(64 * i + LeadingOnes64(words[i]))
    else FirstFree(guard, words, i + 1)
  }

  /** The lowest clear bit, or none when every bit is set. */
  ghost predicate IsLowest(words: seq<bv64>, r: Option<nat>) {
    match r
    case None => forall j: nat :: j < 64 * |words| ==> Marked(words, j)
    case Some(k) => k < 64 * |words| && !Marked(words, k) && forall j: nat :: j < k ==> Marked(words, j)
  }

  ghost predicate MarkedTo(words: seq<bv64>, n: nat) {
    n <= 64 * |words| && forall j: nat :: j < n ==> Marked(words, j)
  }

  /** A word of ones carries the marked prefix over to the next word. */
  lemma FullWord(words: seq<bv64>, i: nat)
    requires i < |words| && words[i] == MAX64 && MarkedTo(words, 64 * i)
    ensures MarkedTo(words, 64 * (i + 1))
  {
    hide Bit64, LeadingOnes64;
    AllOnes64(words[i]);
    LeadingOnesEnd64(words[i]);
    forall j: nat | 64 * i <= j < 64 * (i + 1)
      ensures Marked(words, j)
    {
      assert j / 64 == i && j % 64 < 64;
    }
  }

  /** Within a word that is not all ones, the leading ones end at the lowest clear bit. */
  lemma OpenWord(words: seq<bv64>, i: nat)
    requires i < |words| && words[i] != MAX64 && MarkedTo(words, 64 * i)
    ensures IsLowest(words, Some(64 * i + LeadingOnes64(words[i])))
  {
    hide Bit64, LeadingOnes64;
    AllOnes64(words[i]);
    LeadingOnesEnd64(words[i]);
    var n := LeadingOnes64(words[i]);
    assert (64 * i + n) / 64 == i && (64 * i + n) % 64 == n;
    forall j: nat | 64 * i <= j < 64 * i + n
      ensures Marked(words, j)
    {
      assert j / 64 == i && j % 64 == j - 64 * i;
    }
  }

  lemma {:induction false} CommentedFindsLowest(words: seq<bv64>, i: nat)
    requires i <= |words| && MarkedTo(words, 64 * i)
    ensures IsLowest(words, FirstFree(NotFull, words, i))
    decreases |words| - i
  {
    hide Marked, LeadingOnes64;
    if i < |words| {
      if words[i] == MAX64 {
        FullWord(words, i);
        CommentedFindsLowest(words, i + 1);
      } else {
        OpenWord(words, i);
      }
    }
  }

  /** There is only one right answer. */
  lemma LowestIsUnique(words: seq<bv64>, r: Option<nat>, q: Option<nat>)
    requires IsLowest(words, r) && IsLowest(words, q)
    ensures r == q
  {
    hide Marked;
  }

  lemma {:induction false} WrittenSkips(words: seq<bv64>, i: nat)
    requires i <= |words|
    ensures FirstFree(NotZero, words, i) != Some(0) || i == 0
    decreases |words| - i
  {
    hide LeadingOnes64;
    if i < |words| {
      WrittenSkips(words, i + 1);
    }
  }

  lemma FirstWordFree(words: seq<bv64>)
    requires words != [] && words[0] == 0
    ensures IsLowest(words, Some(0))
  {
    ZeroBits64(0);
  }

  /**
   With the test as written, the answer is right exactly when the first word is partly used, or full with
   the next frame free, or there are no words at all.
   */
  lemma WrittenFindsLowest(words: seq<bv64>)
    ensures IsLowest(words, FirstFree(NotZero, words)) <==>
      words == [] || (words[0] != 0 && (words[0] != MAX64 || (|words| > 1 && !Bit64(words[1], 0))))
  {
    hide Marked, LeadingOnes64, Bit64;
    if words != [] {
      if words[0] == 0 {
        FirstWordFree(words);
        WrittenSkips(words, 1);
        if IsLowest(words, FirstFree(NotZero, words)) {
          LowestIsUnique(words, Some(0), FirstFree(NotZero, words));
        }
      } else if words[0] != MAX64 {
        OpenWord(words, 0);
      } else {
        AllOnes64(words[0]);
        FullWord(words, 0);
        SecondWord(words);
      }
    }
  }

  lemma SecondWord(words: seq<bv64>)
    requires words != [] && MarkedTo(words, 64)
    ensures IsLowest(words, Some(64)) <==> |words| > 1 && !Bit64(words[1], 0)
  {
    hide Bit64;
  }

  /** Word `j` is the first from `i` on that is not zero, and it starts with exactly `n` ones. */
  ghost predicate StopsIn(words: seq<bv64>, i: nat, j: nat, n: nat) {
    && i <= j < |words| && words[j] != 0 && (forall h :: i <= h < j ==> words[h] == 0)
    && n <= 64 && (forall b: nat :: b < n ==> Bit64(words[j], b)) && (n < 64 ==> !Bit64(words[j], n))
  }

  /** Where the test as written stops: in the first word that is not zero, behind the ones it starts with. */
  lemma {:induction false} WrittenStops(words: seq<bv64>, i: nat)
    requires i <= |words|
    ensures match FirstFree(NotZero, words, i)
      case None => forall j :: i <= j < |words| ==> words[j] == 0
      case Some(k) => exists j: nat, n: nat :: StopsIn(words, i, j, n) && k == 64 * j + n
    decreases |words| - i
  {
    hide Bit64, LeadingOnes64;
    if i < |words| {
      if words[i] != 0 {
        LeadingOnesEnd64(words[i]);
        assert StopsIn(words, i, i, LeadingOnes64(words[i]));
      } else {
        WrittenStops(words, i + 1);
        if FirstFree(NotZero, words, i + 1).Some? {
          var k := FirstFree(NotZero, words, i + 1).value;
          var j: nat, n: nat :| StopsIn(words, i + 1, j, n) && k == 64 * j + n;
          assert StopsIn(words, i, j, n);
        }
      }
    }
  }

  /** A full first word whose successor has begun: as written, a frame in use is returned again. */
  lemma WrittenReturnsUsed(words: seq<bv64>)
    requires |words| > 1 && words[0] == MAX64 && Bit64(words[1], 0)
    ensures FirstFree(NotZero, words) == Some(64) && Marked(words, 64)
  {
    hide LeadingOnes64;
    AllOnes64(words[0]);
  }

  // ---------------------------------------------------------------- sizing

  function DivCeil(a: nat, b: nat): nat
    requires b > 0
  {
    if a % b == 0 then a / b else a / b + 1
  }

  /** The least number of `b`s that hold `a`. */
  lemma DivCeilIs(a: nat, b: nat)
    requires b > 0
    ensures DivCeil(a, b) * b >= a && (DivCeil(a, b) > 0 ==> (DivCeil(a, b) - 1) * b < a)
  {
    var q, r := a / b, a % b;
    assert a == q * b + r;
    NextMultiple(q, b);
  }

  lemma NextMultiple(q: int, b: int)
    ensures (q + 1) * b == q * b + b && (q - 1) * b == q * b - b
  {
  }

  ghost function TotalBytes(us: seq<Region>): nat
    requires AllAligned(us)
  {
    if us == [] then 0 else TotalBytes(us[..|us| - 1]) + us[|us| - 1].end - us[|us| - 1].start
  }

  lemma {:induction false} BootFramesJoin(us: seq<Region>, u: Region)
    requires AllAligned(us) && Aligned(u)
    ensures AllAligned(us + [u]) && BootFrames(us + [u]) == BootFrames(us) + Steps(u)
    decreases |us|
  {
    hide Steps;
    if us == [] {
      assert us + [u] == [u] && [u][1..] == [];
      assert BootFrames([]) == [];
    } else {
      BootFramesJoin(us[1..], u);
      assert (us + [u])[1..] == us[1..] + [u];
      ConcatAssoc(Steps(us[0]), BootFrames(us[1..]), Steps(u));
    }
  }

  /** The bytes of the regions are exactly their frames. */
  lemma {:induction false} BytesAreFrames(us: seq<Region>)
    requires AllAligned(us)
    ensures TotalBytes(us) == FRAME * |BootFrames(us)|
    decreases |us|
  {
    hide Steps;
    if us != [] {
      var last := us[|us| - 1];
      BytesAreFrames(us[..|us| - 1]);
      BootFramesJoin(us[..|us| - 1], last);
      assert us == us[..|us| - 1] + [last];
      assert last.end - last.start == FRAME * FrameCount(last);
    }
  }

  /** Frames needed for the bitmap: bytes to frames, frames to bytes of bits, those to frames again. */
  function BitmapFrames(total: nat): nat {
    DivCeil(DivCeil(DivCeil(total, FRAME), 8), FRAME)
  }

  const WORDS_PER_FRAME: nat := 512

  /** After the three roundings there is a bit for every usable frame, and frames enough for the bitmap. */
  lemma BitmapSuffices(frames: nat)
    ensures 64 * (BitmapFrames(FRAME * frames) * WORDS_PER_FRAME) >= frames
    ensures frames > 0 ==> 0 < BitmapFrames(FRAME * frames) <= frames
  {
    var a := DivCeil(FRAME * frames, FRAME);
    var b := DivCeil(a, 8);
    var c := DivCeil(b, FRAME);
    DivCeilIs(a, 8);
    DivCeilIs(b, FRAME);
    assert a == frames;
    assert c * FRAME * 8 >= frames;
  }

  /** No fewer frames would do. */
  lemma BitmapLeast(frames: nat, n: nat)
    requires 64 * (n * WORDS_PER_FRAME) >= frames
    ensures n >= BitmapFrames(FRAME * frames)
  {
    var a := DivCeil(FRAME * frames, FRAME);
    var b := DivCeil(a, 8);
    DivCeilIs(a, 8);
    DivCeilIs(b, FRAME);
    assert a == frames;
  }

  /** `last` is `pages - 1` whole frames after `first`. */
  predicate IsContiguous(first: nat, last: nat, pages: nat) {
    last + FRAME - first == pages * FRAME
  }

  /** Frames that ascend by at least one frame each, and whose ends are that far apart, leave no gap. */
  lemma {:induction false} EndsDecide(us: seq<Region>, n: nat, k: nat)
    requires GoodRegions(us) && k < n <= |BootFrames(us)|
    requires IsContiguous(BootFrames(us)[0], BootFrames(us)[n - 1], n)
    ensures BootFrames(us)[k] == BootFrames(us)[0] + k * FRAME
  {
    AtLeastApart(us, 0, k);
    AtLeastApart(us, k, n - 1);
  }

  lemma {:induction false} AtLeastApart(us: seq<Region>, i: nat, j: nat)
    requires GoodRegions(us) && i <= j < |BootFrames(us)|
    ensures BootFrames(us)[i] + (j - i) * FRAME <= BootFrames(us)[j]
    decreases j - i
  {
    if i < j {
      AtLeastApart(us, i, j - 1);
      FramesAscend(us, j - 1, j);
    }
  }
}
