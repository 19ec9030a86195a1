/** Whole runs of the directory cache: when a cached lookup agrees with a plain walk, and when it does not. */
module CacheRuns {
  import opened Prelude
  import opened PathSpec
  import opened Paths
  import opened PathBuffers
  import opened CacheKeys
  import opened Vfs
  import opened DirCache

  /** One call of a run, with the tick it is made at. */
  datatype Call = MountRoot(now: nat) | Lookup(path: Bytes, now: nat)

  ghost predicate MountedBefore(calls: seq<Call>, i: nat) {
    exists j :: 0 <= j < i <= |calls| && calls[j].MountRoot?
  }

  /**
   What a lookup of `p` may return: a panic exactly without a mount or a usable path, else the plain walk's answer.
   */
  ghost predicate Faithful(rule: SepRule, fs: FileSystem, mounted: bool, p: Bytes, r: Outcome) {
    && (r.Panicked? <==> !mounted || !Servable(p))
    && (!r.Panicked? && (rule == AsWritten ==> !Ambiguous(p)) ==> r.Returned? && Agrees(r.result, Resolve(fs, p)))
  }

  /** The mounts a run has made. */
  ghost function MountList(calls: seq<Call>): seq<Bytes> {
    if calls == [] then []
    else MountList(calls[..|calls| - 1]) + if calls[|calls| - 1].MountRoot? then [[SEPARATOR]] else []
  }

  lemma MountListNext(calls: seq<Call>, i: nat)
    requires i < |calls|
    ensures MountList(calls[..i + 1]) == MountList(calls[..i]) + if calls[i].MountRoot? then [[SEPARATOR]] else []
  {
    assert calls[..i + 1][..i] == calls[..i];
  }

  /** What one call of a run changes. */
  ghost predicate CallLog(rule: SepRule, fs: FileSystem, call: Call, r: Outcome, log: seq<Change>) {
    match call
    case MountRoot(_) => |log| == 1 && log[0].Store? && log[0].entry == DEntry([SEPARATOR], fs.root)
    case Lookup(p, _) => exists m, a :: LookupLog(rule, p, m, a, r, log)
  }

  /** A step's answer, read off the entry it started from. */
  lemma StepFaithful(rule: SepRule, fs: FileSystem, before: Entries, after: Entries, mounted: bool, p: Bytes,
      r: Outcome, m: nat, a: Bytes)
    requires Sound(rule, fs, before) && Coherent(fs)
    requires if mounted then [SEPARATOR] in before else before == map[]
    requires r.Panicked? ==> Missed(before, p, -1)
    requires !r.Panicked? ==> FirstHit(before, p, m, a) && Answer(rule, fs, before, after, p, m, a, r)
    ensures Faithful(rule, fs, mounted, p, r)
  {
    hide Sound, Coherent, Servable, IsAncestor, Resolve, Walk, Aliased, Parse, Cached, PushAll;
    if r.Panicked? {
      if mounted && Servable(p) {
        ServableReachesRoot(p);
      }
    } else {
      HitShape(rule, fs, before, p, m, a);
      if rule == AsCommented || !Ambiguous(p) {
        LookupAgrees(rule, fs, before, p, m, a);
      }
    }
  }

  /** The mounted root is reached by no names at all. */
  lemma RootEntry(rule: SepRule, fs: FileSystem)
    ensures SoundEntry(rule, fs, [SEPARATOR], DEntry([SEPARATOR], fs.root))
  {
    assert Reached(rule, fs, [SEPARATOR], fs.root, []);
  }

  /** What call `i` of a run returns and changes, given the cache before and after it. */
  ghost predicate Served(rule: SepRule, fs: FileSystem, calls: seq<Call>, i: nat, before: Entries, after: Entries,
      log: seq<Change>, r: Outcome)
    requires i < |calls|
  {
    && Follows(before, log, after, MountList(calls[..i + 1]), calls[i].now) && CallLog(rule, fs, calls[i], r, log)
    && (calls[i].Lookup? ==> Faithful(rule, fs, MountedBefore(calls, i), calls[i].path, r))
  }

  lemma ServedIs(rule: SepRule, fs: FileSystem, calls: seq<Call>, i: nat, before: Entries, after: Entries,
      mounts: seq<Bytes>, log: seq<Change>, r: Outcome)
    requires i < |calls| && mounts == MountList(calls[..i + 1])
    requires Follows(before, log, after, mounts, calls[i].now) && CallLog(rule, fs, calls[i], r, log)
    requires calls[i].Lookup? ==> Faithful(rule, fs, MountedBefore(calls, i), calls[i].path, r)
    ensures Served(rule, fs, calls, i, before, after, log, r)
  {
  }

  /** One call on a cache whose only mount, if any, is the root. */
  method OneCall(cache: DirectoryCache, call: Call, ghost mounted: bool)
    returns (r: Outcome, ghost log: seq<Change>)
    requires Coherent(cache.fs) && Sound(cache.rule, cache.fs, cache.entries) && Bounded(cache.entries, cache.mounts)
    requires call.now < U64_MAX
    requires if mounted then [SEPARATOR] in cache.mounts else cache.entries == map[]
    modifies cache
    ensures Sound(cache.rule, cache.fs, cache.entries) && Bounded(cache.entries, cache.mounts)
    ensures cache.mounts == old(cache.mounts) + if call.MountRoot? then [[SEPARATOR]] else []
    ensures !mounted && call.Lookup? ==> cache.entries == map[]
    ensures Follows(old(cache.entries), log, cache.entries, cache.mounts, call.now)
    ensures CallLog(cache.rule, cache.fs, call, r, log)
    ensures call.Lookup? ==> Faithful(cache.rule, cache.fs, mounted, call.path, r)
  {
    hide Coherent, Sound, Bounded, Missed, Answer, Faithful, IsAncestor, Follows, CallLog, LookupLog;
    ghost var before := cache.entries;
    MountsCached(cache.entries, cache.mounts);
    match call {
      case MountRoot(now) =>
        RootEntry(cache.rule, cache.fs);
        ghost var c := cache.Mount(DEntry([SEPARATOR], cache.fs.root), now);
        FollowsOne(before, c, cache.mounts, now);
        r, log := Mounted, [c];
        MountLogged(cache.rule, cache.fs, call, log);
      case Lookup(path, now) =>
        ghost var m, a;
        r, m, a, log := cache.Get(path, now);
        LookupLogged(cache.rule, cache.fs, call, m, a, r, log);
        StepFaithful(cache.rule, cache.fs, before, cache.entries, mounted, path, r, m, a);
    }
  }

  /**
   Any run of mounts and lookups on a fixed file system. By the rule of the comment every lookup agrees
   with a walk from the root; by the rule of the code it does unless the path is ambiguous. Each call renews
   the entry it starts from and stores the path below, and whatever leaves the cache is pushed out of a full
   one as its longest unused entry that is no mount. The cache never outgrows its size.
   */
  method Run(rule: SepRule, fs: FileSystem, calls: seq<Call>)
    returns (outcomes: seq<Outcome>, size: nat, ghost states: seq<Entries>, ghost logs: seq<seq<Change>>)
    requires Coherent(fs) && forall c :: c in calls ==> c.now < U64_MAX
    ensures |outcomes| == |calls| == |logs| == |states| - 1
    ensures states[0] == map[] && size == |states[|calls|]|
    ensures forall i :: 0 <= i < |calls| ==>
        Served(rule, fs, calls, i, states[i], states[i + 1], logs[i], outcomes[i])
    ensures size <= CACHE_SIZE
  {
    hide Coherent, Sound, Bounded, Faithful, Follows, CallLog, MountList, Served;
    var cache := new DirectoryCache(rule, fs);
    StartState(rule, fs);
    outcomes, states, logs := [], [map[]], [];
    assert calls[..0] == [];
    for i := 0 to |calls|
      invariant cache.rule == rule && cache.fs == fs
      invariant Sound(rule, fs, cache.entries) && Bounded(cache.entries, cache.mounts)
      invariant forall m :: m in cache.mounts ==> m == [SEPARATOR]
      invariant if MountedBefore(calls, i) then [SEPARATOR] in cache.mounts else cache.entries == map[]
      invariant |outcomes| == |logs| == |states| - 1 == i
      invariant states[0] == map[] && states[i] == cache.entries && cache.mounts == MountList(calls[..i])
      invariant forall j :: 0 <= j < i ==>
          Served(rule, fs, calls, j, states[j], states[j + 1], logs[j], outcomes[j])
    {
      assert calls[i] in calls;
      MountListNext(calls, i);
      var r;
      ghost var log;
      r, log := OneCall(cache, calls[i], MountedBefore(calls, i));
      ServedIs(rule, fs, calls, i, states[i], cache.entries, cache.mounts, log, r);
      outcomes, states, logs := outcomes + [r], states + [cache.entries], logs + [log];
    }
    size := |cache.entries|;
    SizeBound(cache.entries, cache.mounts);
  }

  lemma MountLogged(rule: SepRule, fs: FileSystem, call: Call, log: seq<Change>)
    requires call.MountRoot? && |log| == 1 && log[0].Store? && log[0].entry == DEntry([SEPARATOR], fs.root)
    ensures CallLog(rule, fs, call, Mounted, log)
  {
  }

  lemma LookupLogged(rule: SepRule, fs: FileSystem, call: Call, m: nat, a: Bytes, r: Outcome, log: seq<Change>)
    requires call.Lookup? && LookupLog(rule, call.path, m, a, r, log)
    ensures CallLog(rule, fs, call, r, log)
  {
    hide LookupLog;
  }

  lemma StartState(rule: SepRule, fs: FileSystem)
    ensures Sound(rule, fs, map[]) && Bounded(map[], []) && MountList([]) == []
  {
  }

  lemma MountsCached(entries: Entries, mounts: seq<Bytes>)
    requires Bounded(entries, mounts)
    ensures forall m :: m in mounts ==> m in entries
  {
  }

  lemma SizeBound(entries: Entries, mounts: seq<Bytes>)
    requires Bounded(entries, mounts) && forall m :: m in mounts ==> m == [SEPARATOR]
    ensures |entries| <= CACHE_SIZE
  {
    Fewer(MountPaths(mounts), {[SEPARATOR]});
  }

  /** The names of `p` lead from the root to `inode`, through inodes that list them. */
  ghost predicate LedTo(fs: FileSystem, p: Bytes, inode: Inode) {
    Parse(p) != [] && exists trail ::
      Trail(fs, Parse(p)[1..], trail, false) && trail[0] == fs.root && trail[|Parse(p)| - 1] == inode
  }

  ghost predicate StoppedBy(fs: FileSystem, p: Bytes, e: FSError) {
    Parse(p) != [] && exists k, trail :: StopsAt(fs, fs.root, Parse(p)[1..], k, trail, e)
  }

  /** What a lookup finds, in terms of listings and inodes alone. */
  lemma LookupFinds(rule: SepRule, fs: FileSystem, p: Bytes, r: Outcome)
    requires Faithful(rule, fs, true, p, r) && Servable(p) && (rule == AsWritten ==> !Ambiguous(p))
    ensures r.Returned?
    ensures forall inode :: (r.result.Ok? && r.result.value.inode == inode) <==> LedTo(fs, p, inode)
    ensures forall e :: r.result == Err(e) <==> StoppedBy(fs, p, e)
  {
    hide Parse, Walk, Trail, StopsAt;
    ServableParts(p);
    forall inode
      ensures Resolve(fs, p) == Ok(inode) <==> LedTo(fs, p, inode)
    {
      WalkReaches(fs, fs.root, Parse(p)[1..], inode);
    }
    forall e
      ensures Resolve(fs, p) == Err(e) <==> StoppedBy(fs, p, e)
    {
      WalkFails(fs, fs.root, Parse(p)[1..], e);
    }
  }

  lemma ServableParts(p: Bytes)
    requires Servable(p)
    ensures Parse(p) != []
  {
  }

  // ---------------------------------------------------------------- the failing family

  /** A file system in which `y` holds a directory `z`, and `z` holds `rest`, name by name, down to itself. */
  function Trap(y: Component, z: Component, rest: seq<Component>): FileSystem {
    var inner := Inode(2, true, Ok(Listing(rest, 2)));
    var outer := Inode(1, true, Ok([(Spelling(z), 2)]));
    FileSystem(Inode(0, true, Ok([(Spelling(y), 1)])),
               n => if n == 1 then Ok(Some(outer)) else if n == 2 then Ok(Some(inner)) else Ok(None))
  }

  function Listing(names: seq<Component>, n: nat): seq<(Bytes, nat)> {
    if names == [] then [] else [(Spelling(names[0]), n)] + Listing(names[1..], n)
  }

  lemma {:induction false} ListingFinds(names: seq<Component>, n: nat, c: Component)
    requires c in names
    ensures Find(Listing(names, n), Spelling(c)) == Some(n)
  {
    var l := Listing(names, n);
    assert l[1..] == Listing(names[1..], n);
    if names[0] != c {
      ListingFinds(names[1..], n, c);
    }
  }

  lemma {:induction false} TrapHolds(y: Component, z: Component, rest: seq<Component>, comps: seq<Component>)
    requires forall c :: c in comps ==> c in rest
    ensures var fs := Trap(y, z, rest);
      Walk(fs, fs.getInode(2).value.value, comps) == Ok(fs.getInode(2).value.value)
    decreases |comps|
  {
    if comps != [] {
      ListingFinds(rest, 2, comps[0]);
      TrapHolds(y, z, rest, comps[1..]);
    }
  }

  lemma TrapWalk(y: Component, z: Component, rest: seq<Component>)
    ensures var fs := Trap(y, z, rest);
      Coherent(fs) && Walk(fs, fs.root, [y, z]) == Ok(fs.getInode(2).value.value)
  {
    var fs := Trap(y, z, rest);
    var outer := fs.getInode(1).value.value;
    assert [y, z][1..] == [z] && [z][1..] == [];
    assert Step(fs, fs.root, Spelling(y), true) == Ok(outer);
    assert Step(fs, outer, Spelling(z), false) == Ok(fs.getInode(2).value.value);
    assert Walk(fs, outer, [z]) == Walk(fs, fs.getInode(2).value.value, []);
  }

  lemma TrapMisses(y: Component, z: Component, rest: seq<Component>, x: Component, more: seq<Component>)
    requires Spelling(x) != Spelling(y)
    ensures var fs := Trap(y, z, rest);
      Walk(fs, fs.root, [x] + more) == Err(NoEntry)
  {
    var listing := [(Spelling(y), 1)];
    assert listing[1..] == [] && Find(listing, Spelling(x)) == Find([], Spelling(x));
    assert ([x] + more)[0] == x;
  }

  /** Below an aliased key the trap is walked to its end, while a walk from the root finds nothing. */
  lemma AliasedAnswer(p: Bytes, m: nat, a: Bytes, i: nat)
    requires IsAncestor(p, m, a) && AliasedAt(a, i)
    ensures m == 2 <= |Parse(p)|
    ensures var fs := Trap(PieceOf(a[2..i]), PieceOf(a[i..]), Parse(p)[2..]);
      && Walk(fs, fs.getInode(2).value.value, Parse(p)[2..]).Ok?
      && Resolve(fs, p) == Err(NoEntry)
  {
    hide Parse, IsAncestor, Walk, Trap, PieceOf;
    AliasedKey(a, i);
    AncestorParse(p, m, a);
    var y, z, x, rest := PieceOf(a[2..i]), PieceOf(a[i..]), PieceOf(a[2..]), Parse(p)[2..];
    TrapHolds(y, z, rest, rest);
    TrapMisses(y, z, rest, x, rest);
    assert Parse(p)[1..] == [x] + rest;
  }

  /** With the root alone cached, a lookup of any other path starts from the root. */
  lemma StartsFromRoot(rule: SepRule, fs: FileSystem, before: Entries, after: Entries, p: Bytes, m: nat, a: Bytes,
      r: Outcome)
    requires before.Keys == {[SEPARATOR]} && before[[SEPARATOR]].0.inode == fs.root
    requires FirstHit(before, p, m, a) && Answer(rule, fs, before, after, p, m, a, r)
    requires |Parse(p)| > 1
    ensures Agrees(r.result, Walk(fs, fs.root, Parse(p)[1..]))
    ensures r.result.Ok? ==> Cached(after, Key(rule, Parse(p)[1..]), r.result.value)
  {
    hide Parse, IsAncestor, Walk, PushAll;
    AncestorParse(p, m, a);
    RootParse();
  }

  /** A lookup below an entry whose key has two components, the most the code's rule makes, starts from it. */
  lemma StartsFromAlias(fs: FileSystem, before: Entries, after: Entries, p: Bytes, m: nat, a: Bytes, r: Outcome,
      key: Bytes)
    requires Sound(AsWritten, fs, before) && key in before && IsAncestor(p, 2, key)
    requires FirstHit(before, p, m, a) && Answer(AsWritten, fs, before, after, p, m, a, r)
    ensures 2 <= |Parse(p)| && Agrees(r.result, Walk(fs, before[key].0.inode, Parse(p)[2..]))
  {
    hide Parse, IsAncestor, Walk, PushAll, Sound;
    HitShape(AsWritten, fs, before, p, m, a);
    AncestorsAreUnique(p, 2, key, a);
  }

  /**
   Every ambiguous path fails for some file system: after `/y/z` has been looked up, its entry sits under
   the key that `//yz` spells, and a lookup below that finds something where a walk finds nothing.
   */
  method AmbiguousLookup(p: Bytes, ghost n: nat, a: Bytes, i: nat) returns (fs: FileSystem, first: Outcome, r: Outcome)
    requires IsAncestor(p, n, a) && AliasedAt(a, i)
    ensures Coherent(fs) && first.Returned? && r.Returned?
    ensures r.result.Ok? && Resolve(fs, p) == Err(NoEntry)
  {
    hide Parse, IsAncestor, Coherent, Sound, Walk, Trap, Key, PushAll, Resolve, PieceOf, IsPiece, Answer, Servable;
    AliasedAnswer(p, n, a, i);
    var y, z := PieceOf(a[2..i]), PieceOf(a[i..]);
    AliasedKey(a, i);
    TwoNamePath(y, z);
    var all := Collect(p);
    fs := Trap(y, z, all[2..]);
    TrapWalk(y, z, all[2..]);

    var cache := new DirectoryCache(AsWritten, fs);
    StartState(AsWritten, fs);
    RootEntry(AsWritten, fs);
    ghost var _ := cache.Mount(DEntry([SEPARATOR], fs.root), 0);

    ghost var before, m, b, log := cache.entries, 0, [], [];
    var q := [SEPARATOR] + Spelling(y) + [SEPARATOR] + Spelling(z);
    first, m, b, log := cache.Get(q, 1);
    TwoNamesServable(q);
    StepFaithful(AsWritten, fs, before, cache.entries, true, q, first, m, b);
    AnswerReturned(AsWritten, fs, before, cache.entries, q, m, b, first);
    StartsFromRoot(AsWritten, fs, before, cache.entries, q, m, b, first);

    before := cache.entries;
    r, m, b, log := cache.Get(p, 2);
    AnswerReturned(AsWritten, fs, before, cache.entries, p, m, b, r);
    StartsFromAlias(fs, before, cache.entries, p, m, b, r, a);
  }

  lemma TwoNamesServable(q: Bytes)
    requires |Parse(q)| > 1 && Rooted(q)
    ensures Servable(q)
  {
  }
}
