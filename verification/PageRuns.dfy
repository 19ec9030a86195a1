/** Runs of page allocations and returns on the chained entry pages (kernel/src/memory/allocator/page.rs). */
module PageRuns {
  import opened Prelude
  import opened FreeLists
  import opened FreeRuns
  import opened ReturnedRuns
  import opened EntryLists
  import opened EntryPages

  /**
   `Take` asks for pages, and says whether all of them can be mapped. `Give` returns the i-th run still out,
   and says whether a new entry page, if one is needed, can be mapped.
   */
  datatype Call = Take(pages: nat, mapped: bool) | Give(i: nat, frame: bool)

  datatype Answer = Address(start: nat) | Returned | Refused | Panicked

  /** The free list, the runs out, and the runs neither free nor out. */
  datatype Pages = Pages(free: FreeList, live: seq<Entry>, lost: seq<Entry>) {
    ghost predicate Good() {
      free.Good() && AllRuns(live)
    }
  }

  function AsSeq<T>(x: Option<T>): seq<T> {
    match x
    case None => []
    case Some(v) => [v]
  }

  ghost function Start(initial: seq<Entry>): (s: Pages)
    requires AllRuns(initial)
    ensures s.Good()
  {
    Pages(FreeList(initial, initial == []), [], [])
  }

  ghost function Step(s: Pages, c: Call): (t: Pages)
    requires s.Good()
    ensures t.Good()
  {
    match c
    case Take(n, mapped) =>
      var t := s.(free := Took(s.free, n));
      if !FitAnswer(s.free, n).At? then s
      else if n == 0 then t
      else
        var r := Usable(FitAnswer(s.free, n).start, n);
        if mapped then t.(live := s.live + [r]) else t.(lost := s.lost + [r])
    case Give(i, frame) =>
      if i >= |s.live| then s
      else
        var r := s.live[i];
        var forgotten := if Kept(s.free, r, frame) then None else Some(r);
        Pages(Gave(s.free, r, frame), RemoveAt(s.live, i), s.lost + AsSeq(Spent(s.free, r)) + AsSeq(forgotten))
  }

  ghost function AnswerTo(s: Pages, c: Call): Answer
    requires s.Good()
  {
    match c
    case Take(n, mapped) => (
      match FitAnswer(s.free, n)
      case At(start) => if mapped || n == 0 then Address(start) else Refused
      case NoFit => Refused
      case Panics => Panicked)
    case Give(i, frame) =>
      if i < |s.live| && Opens(s.free, s.live[i]) && !frame then Refused else Returned
  }

  ghost function Play(s: Pages, calls: seq<Call>): (t: Pages)
    requires s.Good()
    ensures t.Good()
  {
    if calls == [] then s else Step(Play(s, calls[..|calls| - 1]), calls[|calls| - 1])
  }

  /** The call leaves no copy of an entry behind. */
  ghost predicate Clean(s: Pages, c: Call)
    requires s.Good()
  {
    match c
    case Take(n, mapped) => CleanTake(s.free, n)
    case Give(i, frame) => i < |s.live| ==> CleanGive(s.free, s.live[i], frame)
  }

  ghost predicate AllClean(s: Pages, calls: seq<Call>)
    requires s.Good()
  {
    calls != [] ==> AllClean(s, calls[..|calls| - 1]) && Clean(Play(s, calls[..|calls| - 1]), calls[|calls| - 1])
  }

  // ---------------------------------------------------------------- what a caller is told

  ghost predicate TooShort(runs: seq<Entry>, n: nat) {
    forall j :: 0 <= j < |runs| ==> runs[j].Usable? && runs[j].pages < n
  }

  /** The `k`-th run is the first of at least `n` pages. */
  ghost predicate FirstFit(runs: seq<Entry>, n: nat, k: nat) {
    k < |runs| && runs[k].Usable? && n <= runs[k].pages && TooShort(runs[..k], n)
  }

  ghost predicate StartsEarlier(runs: seq<Entry>, k: nat) {
    k < |runs| && runs[k].Usable? && exists j :: 0 <= j < k && runs[j].Usable? && runs[j].start == runs[k].start
  }

  ghost predicate FitsAt(runs: seq<Entry>, n: nat, x: nat) {
    exists k: nat :: FirstFit(runs, n, k) && !StartsEarlier(runs, k) && runs[k].start == x
  }

  /** `n` pages from `x` on left the free runs, when those share no byte. */
  ghost predicate TookFrom(before: Pages, after: Pages, n: nat, x: nat) {
    Sorted(before.free.runs) ==> Carved(before.free.runs, after.free.runs, Usable(x, n))
  }

  /** The entry that `r` can be added to: the first that does not start below it, if it starts where `r` ends. */
  ghost predicate JoinsAt(runs: seq<Entry>, r: Entry, k: nat)
    requires r.Usable?
  {
    && k < |runs| && runs[k].Usable? && r.start <= runs[k].start == r.End()
    && forall j :: 0 <= j < k ==> runs[j].Usable? && runs[j].start < r.start
  }

  /** Returning `r` takes a new entry: no slot is left, and no entry to add it to. */
  ghost predicate NeedsPage(f: FreeList, r: Entry)
    requires r.Usable?
  {
    !f.spare && |f.runs| % ENTRIES == 0 && forall k: nat :: !JoinsAt(f.runs, r, k)
  }

  /** Returning `r` forgets it: it starts above every entry and a slot is left. */
  ghost predicate Forgets(f: FreeList, r: Entry)
    requires r.Usable?
  {
    && (f.spare || |f.runs| % ENTRIES != 0)
    && forall k :: 0 <= k < |f.runs| ==> f.runs[k].Usable? && f.runs[k].start < r.start
  }

  /** The page of a new entry page: the first of the first run on the page that was last. */
  ghost function PageUsed(f: FreeList, r: Entry): seq<Entry>
    requires f.Good() && r.Usable?
  {
    if NeedsPage(f, r) then [Usable(f.runs[|f.runs| - ENTRIES].start, 1)] else []
  }

  /** What the answer to a call says about the state before and after it. */
  ghost predicate Told(before: Pages, c: Call, after: Pages, answer: Answer)
    requires before.Good()
  {
    match c
    case Take(n, mapped) => (
      match answer
      case Address(x) =>
        && (mapped || n == 0) && FitsAt(before.free.runs, n, x) && TookFrom(before, after, n, x)
        && after.live == before.live + (if n > 0 then [Usable(x, n)] else []) && after.lost == before.lost
      case Refused =>
        || (TooShort(before.free.runs, n) && after == before)
        || (!mapped && n > 0 && after.live == before.live && exists x: nat ::
              FitsAt(before.free.runs, n, x) && TookFrom(before, after, n, x)
              && after.lost == before.lost + [Usable(x, n)])
      case Panicked =>
        after == before && exists k: nat :: FirstFit(before.free.runs, n, k) && StartsEarlier(before.free.runs, k)
      case Returned => false)
    case Give(i, frame) =>
      if i >= |before.live| then answer == Returned && after == before
      else
        && answer == (if NeedsPage(before.free, before.live[i]) && !frame then Refused else Returned)
        && after.live == RemoveAt(before.live, i)
        && after.lost == before.lost + PageUsed(before.free, before.live[i])
           + (if answer == Refused || Forgets(before.free, before.live[i]) then [before.live[i]] else [])
  }

  lemma FitTold(f: FreeList, n: nat)
    requires f.Good()
    ensures match FitAnswer(f, n)
      case At(x) => FitsAt(f.runs, n, x)
      case NoFit => TooShort(f.runs, n)
      case Panics => exists k: nat :: FirstFit(f.runs, n, k) && StartsEarlier(f.runs, k)
  {
    hide FitIn, StartIn;
    var k := FitIn(f.runs, n);
    if k < |f.runs| {
      assert FirstFit(f.runs, n, k);
      var i := StartIn(f.runs, f.runs[k].start);
      assert StartsEarlier(f.runs, k) <==> i < k;
    }
  }

  lemma OpensTold(f: FreeList, r: Entry)
    requires f.Good() && IsRun(r)
    ensures Opens(f, r) <==> NeedsPage(f, r)
    ensures Recorded(f, r) <==> !Forgets(f, r)
    ensures AsSeq(Spent(f, r)) == PageUsed(f, r)
  {
    hide PlaceIn;
    var k := PlaceIn(f.runs, r.start);
    if Joins(f, r) {
      assert JoinsAt(f.runs, r, k);
    } else if i: nat :| JoinsAt(f.runs, r, i) {
      PlaceIs(f.runs, r.start, i);
    }
  }

  lemma AnswerTold(s: Pages, c: Call)
    requires s.Good()
    ensures Told(s, c, Step(s, c), AnswerTo(s, c))
  {
    hide FitAnswer, Took, Gave, Opens, NeedsPage, FitsAt, TooShort, FirstFit, StartsEarlier, Carved, Sorted,
      Recorded, Forgets, Spent, PageUsed, AsSeq;
    match c {
      case Take(n, mapped) =>
        FitTold(s.free, n);
        if Sorted(s.free.runs) {
          TookKeeps(s.free, n);
        }
      case Give(i, frame) =>
        if i < |s.live| {
          LiveRun(s.live, i);
          OpensTold(s.free, s.live[i]);
          assert Told(s, c, Step(s, c), AnswerTo(s, c)) by {
            NoneAndOne(s.live[i]);
          }
        }
    }
  }

  lemma NoneAndOne(r: Entry)
    ensures AsSeq<Entry>(None) == [] && AsSeq(Some(r)) == [r]
  {
  }

  /** Among disjoint runs nothing panics, and only too short runs or pages that cannot be mapped are a refusal. */
  lemma ToldExactly(before: Pages, n: nat, mapped: bool, after: Pages, answer: Answer)
    requires before.Good() && Sorted(before.free.runs) && n > 0 && Told(before, Take(n, mapped), after, answer)
    ensures answer.Refused? <==> TooShort(before.free.runs, n) || !mapped
    ensures answer.Refused? || answer.Address?
  {
    hide TookFrom, FitsAt, FirstFit, StartsEarlier, TooShort;
    NeverEarlier(before.free.runs);
    if answer.Address? {
      FitIsLong(before.free.runs, n, answer.start);
    }
  }

  lemma NeverEarlier(runs: seq<Entry>)
    requires Sorted(runs)
    ensures forall k: nat :: !StartsEarlier(runs, k)
  {
  }

  lemma FitIsLong(runs: seq<Entry>, n: nat, x: nat)
    requires FitsAt(runs, n, x)
    ensures !TooShort(runs, n)
  {
  }

  // ---------------------------------------------------------------- every byte accounted for

  ghost predicate Apart(x: seq<Entry>, y: seq<Entry>) {
    forall a :: !(Free(x, a) && Free(y, a))
  }

  ghost predicate PairsApart(live: seq<Entry>) {
    && (forall i :: 0 <= i < |live| ==> IsRun(live[i]))
    && (forall i, j, a :: 0 <= i < j < |live| && InRun(live[i], a) ==> !InRun(live[j], a))
  }

  /** Every byte free at the start is free, out, or lost, and only one of them; no two runs out share a byte. */
  ghost predicate Accounted(initial: seq<Entry>, free: seq<Entry>, live: seq<Entry>, lost: seq<Entry>) {
    && (forall a :: Free(initial, a) <==> Free(free, a) || Free(live, a) || Free(lost, a))
    && Apart(free, live) && Apart(free, lost) && Apart(live, lost)
    && PairsApart(live)
  }

  lemma FreeMore(runs: seq<Entry>, r: Entry)
    ensures forall a :: Free(runs + [r], a) <==> Free(runs, a) || InRun(r, a)
  {
    hide InRun;
    FreeJoin(runs, [r]);
    FreeOne(r);
  }

  /** A run carved out of the free ones goes out. */
  lemma TakeStep(initial: seq<Entry>, free: seq<Entry>, after: seq<Entry>, live: seq<Entry>, lost: seq<Entry>, r: Entry)
    requires Accounted(initial, free, live, lost) && IsRun(r) && Carved(free, after, r)
    ensures Accounted(initial, after, live + [r], lost)
  {
    hide Free, InRun;
    FreeMore(live, r);
    forall i, a | 0 <= i < |live| && InRun(live[i], a)
      ensures Free(live, a)
    {
      FreeAt(live, i, a);
    }
    var more := live + [r];
    forall i, j, a | 0 <= i < j < |more| && InRun(more[i], a)
      ensures !InRun(more[j], a)
    {
      assert more[i] == live[i];
      if j < |live| {
        assert more[j] == live[j];
      }
    }
  }

  /** A run carved out of the free ones is lost. */
  lemma LoseStep(initial: seq<Entry>, free: seq<Entry>, after: seq<Entry>, live: seq<Entry>, lost: seq<Entry>, r: Entry)
    requires Accounted(initial, free, live, lost) && r.Usable?
    requires FreeMinus(free, after, r) && forall a :: InRun(r, a) ==> Free(free, a)
    ensures Accounted(initial, after, live, lost + [r])
  {
    hide Free, InRun;
    FreeMore(lost, r);
  }

  lemma NothingTaken(initial: seq<Entry>, free: seq<Entry>, after: seq<Entry>, live: seq<Entry>, lost: seq<Entry>,
      r: Entry)
    requires Accounted(initial, free, live, lost) && r.Usable? && r.pages == 0 && Carved(free, after, r)
    ensures Accounted(initial, after, live, lost)
  {
    hide Free;
    assert forall a :: !InRun(r, a);
    assert forall a :: Free(after, a) <==> Free(free, a);
  }

  /** Taking one run out of the list of those out. */
  lemma FreeWithout(live: seq<Entry>, i: nat)
    requires PairsApart(live) && i < |live|
    ensures forall a :: Free(RemoveAt(live, i), a) <==> Free(live, a) && !InRun(live[i], a)
    ensures PairsApart(RemoveAt(live, i))
  {
    hide InRun;
    var fewer := RemoveAt(live, i);
    assert forall k :: 0 <= k < |fewer| ==> fewer[k] == live[if k < i then k else k + 1];
    FreeCut(live, i);
    FreeJoin(live[..i], live[i + 1..]);
    forall a | InRun(live[i], a)
      ensures !Free(fewer, a)
    {
    }
  }

  lemma GiveFacts(live: seq<Entry>, i: nat)
    requires PairsApart(live) && i < |live|
    ensures IsRun(live[i]) && forall a :: InRun(live[i], a) ==> Free(live, a)
  {
  }

  /** A run that is out does not overlap the free ones. */
  lemma OutIsDisjoint(initial: seq<Entry>, free: seq<Entry>, live: seq<Entry>, lost: seq<Entry>, i: nat)
    requires Accounted(initial, free, live, lost) && i < |live|
    ensures IsRun(live[i]) && Disjoint(free, live[i])
  {
    hide Free, InRun;
    GiveFacts(live, i);
  }

  lemma FreeMaybe(runs: seq<Entry>, r: Option<Entry>)
    ensures forall a :: Free(runs + AsSeq(r), a) <==> Free(runs, a) || (r.Some? && InRun(r.value, a))
  {
    hide InRun;
    if r.Some? {
      FreeMore(runs, r.value);
    } else {
      assert runs + [] == runs;
    }
  }

  /** The page an entry page is made of is lost; the run comes back or is lost. */
  lemma GiveStep(initial: seq<Entry>, free: seq<Entry>, after: seq<Entry>, live: seq<Entry>, lost: seq<Entry>,
      i: nat, page: Option<Entry>, kept: bool)
    requires Accounted(initial, free, live, lost) && i < |live|
    requires FreeAfter(free, after, page, if kept then Some(live[i]) else None)
    requires page.Some? ==> forall a :: InRun(page.value, a) ==> Free(free, a)
    ensures var forgotten := if kept then None else Some(live[i]);
      Accounted(initial, after, RemoveAt(live, i), lost + AsSeq(page) + AsSeq(forgotten))
  {
    hide Free, InRun, PairsApart, AsSeq;
    GiveFacts(live, i);
    FreeWithout(live, i);
    FreeMaybe(lost, page);
    FreeMaybe(lost + AsSeq(page), if kept then None else Some(live[i]));
  }

  lemma StartAccount(initial: seq<Entry>)
    ensures Accounted(initial, initial, [], [])
  {
    assert forall a :: !Free([], a);
  }

  /** One call on disjoint free runs keeps every byte accounted for. */
  lemma StepAccounted(initial: seq<Entry>, s: Pages, c: Call)
    requires s.Good() && Sorted(s.free.runs) && Accounted(initial, s.free.runs, s.live, s.lost)
    ensures var t := Step(s, c); Accounted(initial, t.free.runs, t.live, t.lost)
  {
    hide Accounted, Sorted, Carved, Took, Gave, FitAnswer, Opens, Kept, PageSpent, Disjoint, FreeAfter, PairsApart;
    match c {
      case Take(n, mapped) =>
        TookKeeps(s.free, n);
        if FitAnswer(s.free, n).At? {
          var r := Usable(FitAnswer(s.free, n).start, n);
          if n == 0 {
            NothingTaken(initial, s.free.runs, Took(s.free, n).runs, s.live, s.lost, r);
          } else if mapped {
            TakeStep(initial, s.free.runs, Took(s.free, n).runs, s.live, s.lost, r);
          } else {
            CarvedIs(s.free.runs, Took(s.free, n).runs, r);
            LoseStep(initial, s.free.runs, Took(s.free, n).runs, s.live, s.lost, r);
          }
        }
      case Give(i, frame) =>
        if i < |s.live| {
          var r := s.live[i];
          OutIsDisjoint(initial, s.free.runs, s.live, s.lost, i);
          GaveFree(s.free, r, frame);
          var after, page, kept := Gave(s.free, r, frame).runs, Spent(s.free, r), Kept(s.free, r, frame);
          GiveStep(initial, s.free.runs, after, s.live, s.lost, i, page, kept);
        }
    }
  }

  lemma CarvedIs(before: seq<Entry>, after: seq<Entry>, r: Entry)
    requires r.Usable? && Carved(before, after, r)
    ensures FreeMinus(before, after, r) && forall a :: InRun(r, a) ==> Free(before, a)
  {
  }

  /** One call keeps the free runs disjoint exactly when it leaves no copy of an entry behind. */
  lemma StepSorted(initial: seq<Entry>, s: Pages, c: Call)
    requires s.Good() && Sorted(s.free.runs) && Accounted(initial, s.free.runs, s.live, s.lost)
    ensures Sorted(Step(s, c).free.runs) <==> Clean(s, c)
  {
    hide Accounted, Sorted, Carved, FitIn, Gave, Opens, Kept, PageSpent, Disjoint, CleanGive, Stale, TakenFrom,
      FitAnswer;
    match c {
      case Take(n, mapped) =>
        TookKeeps(s.free, n);
      case Give(i, frame) =>
        if i < |s.live| {
          OutIsDisjoint(initial, s.free.runs, s.live, s.lost, i);
          GaveSorted(s.free, s.live[i], frame);
        }
    }
  }

  // ---------------------------------------------------------------- whole runs

  lemma PlayMore(s: Pages, calls: seq<Call>, n: nat)
    requires s.Good() && n < |calls|
    ensures Play(s, calls[..n + 1]) == Step(Play(s, calls[..n]), calls[n])
    ensures AllClean(s, calls[..n + 1]) <==> AllClean(s, calls[..n]) && Clean(Play(s, calls[..n]), calls[n])
  {
    assert calls[..n + 1][..n] == calls[..n];
  }

  /**
   Over any run from disjoint free runs that left no copy behind before its last call, every byte is
   accounted for, and the free runs are disjoint exactly when the last call left no copy either.
   */
  lemma {:induction false} PlayAccounted(initial: seq<Entry>, calls: seq<Call>)
    requires Sorted(initial) && (calls != [] ==> AllClean(Start(initial), calls[..|calls| - 1]))
    ensures var t := Play(Start(initial), calls);
      && Accounted(initial, t.free.runs, t.live, t.lost)
      && (Sorted(t.free.runs) <==> AllClean(Start(initial), calls))
  {
    hide Accounted, Sorted, Step, Clean;
    if calls == [] {
      StartAccount(initial);
    } else {
      var before := calls[..|calls| - 1];
      if before != [] {
        assert AllClean(Start(initial), before[..|before| - 1]);
      }
      PlayAccounted(initial, before);
      StepAccounted(initial, Play(Start(initial), before), calls[|calls| - 1]);
      StepSorted(initial, Play(Start(initial), before), calls[|calls| - 1]);
    }
  }

  /**
   A call after which nothing more is lost: what is taken is mapped, and what is given back is recorded without a
   new entry page.
   */
  ghost predicate Keeps(s: Pages, c: Call)
    requires s.Good()
  {
    match c
    case Take(n, mapped) => FitAnswer(s.free, n).At? && n > 0 ==> mapped
    case Give(i, frame) => i < |s.live| ==> Recorded(s.free, s.live[i]) && !Opens(s.free, s.live[i])
  }

  lemma StepLost(s: Pages, c: Call)
    requires s.Good()
    ensures Step(s, c).lost == [] <==> s.lost == [] && Keeps(s, c)
  {
    hide Took, Gave, FitAnswer, Opens, Recorded, PageSpent;
  }

  lemma {:induction false} LostUpTo(s: Pages, calls: seq<Call>, n: nat)
    requires s.Good() && n <= |calls|
    ensures Play(s, calls[..n]).lost == []
       <==> s.lost == [] && forall j :: 0 <= j < n ==> Keeps(Play(s, calls[..j]), calls[j])
  {
    hide Step, Keeps, Play, AllClean;
    if n == 0 {
      PlayNone(s);
      assert calls[..0] == [];
    } else {
      LostUpTo(s, calls, n - 1);
      PlayMore(s, calls, n - 1);
      StepLost(Play(s, calls[..n - 1]), calls[n - 1]);
    }
  }

  lemma PlayNone(s: Pages)
    requires s.Good()
    ensures Play(s, []) == s
  {
  }

  /** Nothing is lost over a run exactly when no call loses anything. */
  lemma PlayLost(s: Pages, calls: seq<Call>)
    requires s.Good()
    ensures Play(s, calls).lost == []
       <==> s.lost == [] && forall j :: 0 <= j < |calls| ==> Keeps(Play(s, calls[..j]), calls[j])
  {
    hide Play, Keeps;
    assert calls[..|calls|] == calls;
    LostUpTo(s, calls, |calls|);
  }

  /**
   When no call leaves a copy behind or loses anything, what is free and what is out are at every moment
   together what was free at the start, and never share a byte.
   */
  lemma Conserved(initial: seq<Entry>, calls: seq<Call>)
    requires Sorted(initial) && AllClean(Start(initial), calls)
    requires forall j :: 0 <= j < |calls| ==> Keeps(Play(Start(initial), calls[..j]), calls[j])
    ensures Shared(initial, Play(Start(initial), calls))
  {
    hide Play, Keeps, Clean, Sorted;
    PlayLost(Start(initial), calls);
    PlayAccounted(initial, calls);
    assert forall a :: !Free([], a);
  }

  ghost predicate Shared(initial: seq<Entry>, t: Pages) {
    && (forall a :: Free(initial, a) <==> Free(t.free.runs, a) || Free(t.live, a))
    && Apart(t.free.runs, t.live) && PairsApart(t.live) && Sorted(t.free.runs)
  }

  // ---------------------------------------------------------------- lists that do not fill their pages

  /** The entries fill whole pages. */
  ghost predicate Filled(s: Pages) {
    s.free.runs != [] && |s.free.runs| % ENTRIES == 0
  }

  /** The call makes no new entry page. */
  ghost predicate NoNewPage(s: Pages, c: Call)
    requires s.Good()
  {
    c.Give? && c.i < |s.live| ==> !Opens(s.free, s.live[c.i])
  }

  /** A call that leaves a copy behind and makes no new entry page leaves the entries filling whole pages. */
  lemma UnfilledIsClean(s: Pages, c: Call)
    requires s.Good() && NoNewPage(s, c) && !Filled(Step(s, c))
    ensures Clean(s, c)
  {
    hide CleanGive, FitIn, StartIn, Gave, Dropped;
    match c {
      case Take(n, mapped) =>
        if !CleanTake(s.free, n) {
          StaleTake(s.free, n);
        }
      case Give(i, frame) =>
        if i < |s.live| && !CleanGive(s.free, s.live[i], frame) {
          UncleanGive(s.free, s.live[i], frame);
        }
    }
  }

  /** An allocation that leaves a copy, or panics before it could, leaves as many entries as there were. */
  lemma StaleTake(f: FreeList, n: nat)
    requires f.Good() && !CleanTake(f, n)
    ensures |Took(f, n).runs| == |f.runs| && f.runs != [] && |f.runs| % ENTRIES == 0
  {
    hide FitIn, StartIn, Dropped;
    DroppedAt(f, FitIn(f.runs, n));
  }

  lemma UncleanGive(f: FreeList, r: Entry, frame: bool)
    requires f.Good() && IsRun(r) && !Opens(f, r) && !CleanGive(f, r, frame)
    ensures Gave(f, r, frame).runs != [] && |Gave(f, r, frame).runs| % ENTRIES == 0
  {
    hide PlaceIn, Put, Squashed, CleanSquash, PageStart;
    var k := PlaceIn(f.runs, r.start);
    PutGood(f, k, r, frame);
    var put, i := Put(f, k, r, frame), PageStart(k, |f.runs|);
    if |put.runs| < ENTRIES {
      CleanShort(put, i);
    }
    UncleanFills(put, i);
  }

  /** So over a run whose lists never fill their pages no call leaves a copy behind. */
  lemma {:induction false} UnfilledUpTo(s: Pages, calls: seq<Call>, n: nat)
    requires s.Good() && n <= |calls|
    requires forall j :: 0 <= j < n ==> NoNewPage(Play(s, calls[..j]), calls[j])
    requires forall j :: 0 < j <= n ==> !Filled(Play(s, calls[..j]))
    ensures AllClean(s, calls[..n])
  {
    hide Step, Clean, Play, NoNewPage, Filled;
    if n == 0 {
      assert calls[..0] == [];
    } else {
      UnfilledUpTo(s, calls, n - 1);
      PlayMore(s, calls, n - 1);
      UnfilledIsClean(Play(s, calls[..n - 1]), calls[n - 1]);
    }
  }

  /**
   When nothing is lost and no list on the way fills its pages, what is free and what is out are together
   what was free at the start, and the free runs stay disjoint: on one page or on a chain, however long
   the run.
   */
  lemma ConservedUnfilled(initial: seq<Entry>, calls: seq<Call>)
    requires Sorted(initial)
    requires forall j :: 0 <= j < |calls| ==> Keeps(Play(Start(initial), calls[..j]), calls[j])
    requires forall j :: 0 < j <= |calls| ==> !Filled(Play(Start(initial), calls[..j]))
    ensures AllClean(Start(initial), calls) && Shared(initial, Play(Start(initial), calls))
  {
    hide Play, Keeps, AllClean, Shared, Filled, NoNewPage;
    SortedRuns(initial);
    var s := Start(initial);
    forall j | 0 <= j < |calls|
      ensures NoNewPage(Play(s, calls[..j]), calls[j])
    {
      KeepsNoPage(Play(s, calls[..j]), calls[j]);
    }
    UnfilledUpTo(s, calls, |calls|);
    assert calls[..|calls|] == calls;
    Conserved(initial, calls);
  }

  lemma KeepsNoPage(s: Pages, c: Call)
    requires s.Good() && Keeps(s, c)
    ensures NoNewPage(s, c)
  {
  }

  /** Every list of the run is on one page that is not full. */
  ghost predicate OnOnePage(s: Pages, calls: seq<Call>)
    requires s.Good()
  {
    forall j :: 0 <= j <= |calls| ==> |Play(s, calls[..j]).free.runs| < ENTRIES
  }

  /** Any run on one entry page kept below 170 entries leaves no copy behind. */
  lemma OnePageIsClean(s: Pages, calls: seq<Call>)
    requires s.Good() && OnOnePage(s, calls)
    ensures AllClean(s, calls)
  {
    hide Play, AllClean;
    forall j | 0 <= j < |calls|
      ensures NoNewPage(Play(s, calls[..j]), calls[j])
    {
      ShortNoPage(Play(s, calls[..j]), calls[j]);
    }
    UnfilledUpTo(s, calls, |calls|);
    assert calls[..|calls|] == calls;
  }

  lemma ShortNoPage(s: Pages, c: Call)
    requires s.Good() && |s.free.runs| < ENTRIES
    ensures NoNewPage(s, c)
  {
  }

  /** Any run on one entry page kept below 170 entries that loses nothing stays disjoint and conserved. */
  lemma ConservedOnOnePage(initial: seq<Entry>, calls: seq<Call>)
    requires Sorted(initial) && OnOnePage(Start(initial), calls)
    requires forall j :: 0 <= j < |calls| ==> Keeps(Play(Start(initial), calls[..j]), calls[j])
    ensures Shared(initial, Play(Start(initial), calls))
  {
    hide Play, Keeps, AllClean, Shared, OnOnePage;
    SortedRuns(initial);
    OnePageIsClean(Start(initial), calls);
    Conserved(initial, calls);
  }

  /** How many runs are given back. */
  function Gives(calls: seq<Call>): nat {
    if calls == [] then 0 else Gives(calls[..|calls| - 1]) + if calls[|calls| - 1].Give? then 1 else 0
  }

  /** A call adds at most one entry, and only a return does. */
  lemma StepCount(s: Pages, c: Call)
    requires s.Good()
    ensures |Step(s, c).free.runs| <= |s.free.runs| + if c.Give? then 1 else 0
  {
    hide Spent, Kept, AsSeq;
    match c {
      case Take(n, mapped) =>
        TookCount(s.free, n);
      case Give(i, frame) =>
        if i < |s.live| {
          GaveCount(s.free, s.live[i], frame);
        }
    }
  }

  lemma TookCount(f: FreeList, n: nat)
    requires f.Good()
    ensures |Took(f, n).runs| <= |f.runs|
  {
    hide FitIn, StartIn, Dropped;
    if FitIn(f.runs, n) < |f.runs| {
      DroppedAt(f, FitIn(f.runs, n));
    }
  }

  lemma GaveCount(f: FreeList, r: Entry, frame: bool)
    requires f.Good() && IsRun(r)
    ensures |Gave(f, r, frame).runs| <= |f.runs| + 1
  {
    hide PlaceIn, Put, Squashed, Opened;
    var k := PlaceIn(f.runs, r.start);
    if f.Full() {
      OpenedGood(f);
    }
    if Recorded(f, r) && !Joins(f, r) {
      PutGood(f, k, r, frame);
      SquashCount(Put(f, k, r, frame), PageStart(k, |f.runs|));
    }
  }

  lemma {:induction false} CountUpTo(s: Pages, calls: seq<Call>, n: nat)
    requires s.Good() && n <= |calls|
    ensures |Play(s, calls[..n]).free.runs| <= |s.free.runs| + Gives(calls[..n])
  {
    hide Step, Clean, AllClean;
    if n == 0 {
      assert calls[..0] == [];
    } else {
      CountUpTo(s, calls, n - 1);
      PlayMore(s, calls, n - 1);
      StepCount(Play(s, calls[..n - 1]), calls[n - 1]);
      assert calls[..n][..n - 1] == calls[..n - 1];
    }
  }

  lemma {:induction false} GivesGrow(calls: seq<Call>, n: nat)
    requires n <= |calls|
    ensures Gives(calls[..n]) <= Gives(calls)
  {
    if n < |calls| {
      var last := |calls| - 1;
      GivesGrow(calls[..last], n);
      assert calls[..last][..n] == calls[..n];
    } else {
      assert calls[..n] == calls;
    }
  }

  /** What a caller can see beforehand: no more returns than the page has slots left keep a run on one page. */
  lemma ShortIsOnOnePage(initial: seq<Entry>, calls: seq<Call>)
    requires AllRuns(initial) && |initial| + Gives(calls) < ENTRIES
    ensures OnOnePage(Start(initial), calls)
  {
    hide Play, Gives;
    forall j | 0 <= j <= |calls|
      ensures |Play(Start(initial), calls[..j]).free.runs| < ENTRIES
    {
      GivesGrow(calls, j);
      CountUpTo(Start(initial), calls, j);
    }
  }

  lemma ShortIsClean(initial: seq<Entry>, calls: seq<Call>)
    requires AllRuns(initial) && |initial| + Gives(calls) < ENTRIES
    ensures AllClean(Start(initial), calls)
  {
    hide OnOnePage, Gives, AllClean;
    ShortIsOnOnePage(initial, calls);
    OnePageIsClean(Start(initial), calls);
  }

  lemma ConservedShort(initial: seq<Entry>, calls: seq<Call>)
    requires Sorted(initial) && |initial| + Gives(calls) < ENTRIES
    requires forall j :: 0 <= j < |calls| ==> Keeps(Play(Start(initial), calls[..j]), calls[j])
    ensures Shared(initial, Play(Start(initial), calls))
  {
    hide Play, Keeps, Shared, OnOnePage, Gives;
    SortedRuns(initial);
    ShortIsOnOnePage(initial, calls);
    ConservedOnOnePage(initial, calls);
  }

  // ---------------------------------------------------------------- after a copy is left behind

  /** A run handed out from one of two entries that hold its first byte is still free. */
  lemma StillFree(f: FreeList, n: nat, j: nat)
    requires f.Good() && n > 0 && FitAnswer(f, n).At? && j < |f.runs|
    requires j != FitIn(f.runs, n) && InRun(f.runs[j], FitAnswer(f, n).start)
    ensures Free(Took(f, n).runs, FitAnswer(f, n).start)
  {
    hide FitIn, StartIn, Dropped, InRun;
    var k, g := FitIn(f.runs, n), Took(f, n).runs;
    DroppedAt(f, k);
    if f.runs[k].pages == n {
      assert g[if j < k then j else j - 1] == f.runs[j];
    } else {
      assert g[j] == f.runs[j];
    }
  }

  /** The last entry twice, behind others. */
  ghost predicate Twins(f: FreeList, others: seq<Entry>, z: Entry) {
    && f.runs == others + [z, z] && IsRun(z)
    && forall i :: 0 <= i < |others| ==> IsRun(others[i]) && others[i].start != z.start
  }

  /** Removing from whole pages leaves such a list. */
  lemma DroppedTwins(f: FreeList, k: nat)
    requires Sorted(f.runs) && k < |f.runs| && Stale(f.runs, k)
    ensures var fewer := RemoveAt(f.runs, k);
      Twins(Dropped(f, k), fewer[..|fewer| - 1], f.runs[|f.runs| - 1])
  {
    var fewer, z := RemoveAt(f.runs, k), f.runs[|f.runs| - 1];
    assert fewer == fewer[..|fewer| - 1] + [z];
    forall i | 0 <= i < |fewer| - 1
      ensures IsRun(fewer[i]) && fewer[i].start != z.start
    {
      assert fewer[i] == f.runs[if i < k then i else i + 1];
    }
  }

  /**
   One allocation that only the last entry can serve: afterwards its other copy is the first that can serve it
   again.
   */
  lemma TwinTaken(f: FreeList, others: seq<Entry>, z: Entry, n: nat)
    requires f.Good() && Twins(f, others, z) && 0 < n <= z.pages < 2 * n
    requires forall i :: 0 <= i < |others| ==> others[i].pages < n
    ensures FitAnswer(f, n) == At(z.start) && FitAnswer(Took(f, n), n) == At(z.start)
    ensures Free(Took(f, n).runs, z.start)
  {
    hide FitIn, StartIn, Dropped, Free;
    var k := |others|;
    assert forall i :: 0 <= i < k ==> f.runs[i] == others[i];
    assert f.runs[k] == z && f.runs[k + 1] == z;
    FitIs(f.runs, n, k);
    StartIs(f.runs, z.start, k);
    assert InRun(f.runs[k + 1], z.start);
    StillFree(f, n, k + 1);
    var g := Took(f, n).runs;
    DroppedAt(f, k);
    assert forall i :: 0 <= i < k ==> g[i] == others[i];
    var j := if z.pages == n then k else k + 1;
    assert g[j] == z;
    FitIs(g, n, j);
    StartIs(g, z.start, j);
  }

  /** So the same run is handed out twice, and is out twice. */
  lemma TwinOutTwice(s: Pages, others: seq<Entry>, z: Entry, n: nat)
    requires s.Good() && Twins(s.free, others, z) && 0 < n <= z.pages < 2 * n
    requires forall i :: 0 <= i < |others| ==> others[i].pages < n
    ensures var t := Step(Step(s, Take(n, true)), Take(n, true));
      t.live == s.live + [Usable(z.start, n), Usable(z.start, n)]
  {
    hide Twins, FitAnswer, Took;
    TwinTaken(s.free, others, z, n);
  }

  lemma BeginAccount(initial: seq<Entry>)
    requires Sorted(initial)
    ensures Accounted(initial, initial, [], []) && Play(Start(initial), []) == Start(initial)
    ensures AllClean(Start(initial), [])
  {
    StartAccount(initial);
  }

  /** One call on the pages. */
  method OneCall(page: EntryPage, ghost s: Pages, live: seq<Entry>, c: Call)
    returns (out: seq<Entry>, answer: Answer)
    requires page.Good() && s.Good() && View(page.model) == s.free && live == s.live
    modifies page.Repr
    ensures page.Good() && fresh(page.Repr - old(page.Repr))
    ensures View(page.model) == Step(s, c).free && out == Step(s, c).live && answer == AnswerTo(s, c)
  {
    hide Shaped, Flat, Spare, AllRuns, TakenFrom, Gave, FitAnswer, Opens, PageSpent, Kept, Insertable;
    out := live;
    match c {
      case Take(n, mapped) =>
        var r := page.Allocate(n);
        match r {
          case At(start) =>
            answer := if mapped || n == 0 then Address(start) else Refused;
            if mapped && n > 0 {
              out := live + [Usable(start, n)];
            }
          case NoFit =>
            answer := Refused;
          case Panics =>
            answer := Panicked;
        }
      case Give(i, frame) =>
        answer := Returned;
        if i < |live| {
          LiveRun(live, i);
          var ok := page.DeallocPages(live[i].start, live[i].pages, frame);
          answer := if ok then Returned else Refused;
          out := RemoveAt(live, i);
        }
    }
  }

  lemma LiveRun(live: seq<Entry>, i: nat)
    requires AllRuns(live) && i < |live|
    ensures live[i].Usable? && live[i].pages > 0 && live[i] == Usable(live[i].start, live[i].pages)
  {
  }

  /**
   Any run of allocations and returns, up to the first panic. Each answer and the final lists are those of
   `Play`. Every byte is accounted for up to and with the first call that leaves a copy of an entry behind.
   */
  method Run(initial: seq<Entry>, calls: seq<Call>)
    returns (free: seq<Entry>, live: seq<Entry>, answers: seq<Answer>)
    requires Sorted(initial) && |initial| <= ENTRIES
    ensures |answers| <= |calls|
    ensures forall j :: 0 <= j < |answers| ==> answers[j] == AnswerTo(Play(Start(initial), calls[..j]), calls[j])
    ensures forall j :: 0 <= j < |answers| ==>
        var s := Play(Start(initial), calls[..j]); Told(s, calls[j], Step(s, calls[j]), answers[j])
    ensures var t := Play(Start(initial), calls[..|answers|]); free == t.free.runs && live == t.live
    ensures |answers| < |calls| ==> answers != [] && answers[|answers| - 1].Panicked?
    ensures AllClean(Start(initial), calls[..|answers|]) ==> Sorted(free)
    ensures answers == [] || AllClean(Start(initial), calls[..|answers| - 1]) ==>
        Accounted(initial, free, live, Play(Start(initial), calls[..|answers|]).lost)
  {
    hide Accounted, Sorted, Step, Clean, AnswerTo, Shaped, Flat, AllRuns, Play, AllClean, Told;
    SortedRuns(initial);
    ghost var start := Start(initial);
    BeginAccount(initial);
    var page := new EntryPage(initial);
    live, answers := [], [];
    assert calls[..0] == [];
    var panicked := false;
    while |answers| < |calls| && !panicked
      invariant fresh(page.Repr) && page.Good() && |answers| <= |calls|
      invariant forall j :: 0 <= j < |answers| ==> answers[j] == AnswerTo(Play(start, calls[..j]), calls[j])
      invariant View(page.model) == Play(start, calls[..|answers|]).free && live == Play(start, calls[..|answers|]).live
      invariant panicked ==> answers != [] && answers[|answers| - 1].Panicked?
      decreases |calls| - |answers|
    {
      var n := |answers|;
      ghost var s := Play(start, calls[..n]);
      var answer;
      PlayMore(start, calls, n);
      live, answer := OneCall(page, s, live, calls[n]);
      answers := answers + [answer];
      panicked := answer.Panicked?;
    }
    forall j | 0 <= j < |answers|
      ensures Told(Play(start, calls[..j]), calls[j], Step(Play(start, calls[..j]), calls[j]), answers[j])
    {
      AnswerTold(Play(start, calls[..j]), calls[j]);
    }
    free := page.Used();
    RunAccounted(initial, calls[..|answers|]);
    assert answers != [] ==> calls[..|answers|][..|answers| - 1] == calls[..|answers| - 1];
  }

  lemma RunAccounted(initial: seq<Entry>, calls: seq<Call>)
    requires Sorted(initial)
    ensures AllClean(Start(initial), calls) ==> Sorted(Play(Start(initial), calls).free.runs)
    ensures calls == [] || AllClean(Start(initial), calls[..|calls| - 1]) ==>
        var t := Play(Start(initial), calls); Accounted(initial, t.free.runs, t.live, t.lost)
  {
    hide Accounted, Sorted, Step, Clean, Play;
    SortedRuns(initial);
    if calls == [] || AllClean(Start(initial), calls[..|calls| - 1]) {
      PlayAccounted(initial, calls);
    }
  }
}
