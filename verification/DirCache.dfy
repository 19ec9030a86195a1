/**
 The directory cache (kernel/src/fs/dentry.rs) and the mount table that protects its entries
 (kernel/src/fs/mod.rs). The file system is fixed while the cache is in use.
 */
module DirCache {
  import opened Prelude
  import opened PathSpec
  import opened PathComponents
  import opened Paths
  import opened PathBuffers
  import opened CacheKeys
  import opened Vfs

  /** 0x8000 divided by the size of a `DEntry`, which is one pointer. */
  const CACHE_SIZE: nat := 4096
  const U64_MAX: nat := U64 - 1

  datatype DEntry = DEntry(name: Bytes, inode: Inode)

  /** Each entry with the tick of its last access. */
  type Entries = map<Bytes, (DEntry, nat)>

  /** A lookup that finds no cached ancestor at all panics. */
  datatype Outcome = Returned(result: Result<DEntry, FSError>) | Panicked | Mounted

  // ---------------------------------------------------------------- eviction

  /** An entry that may go: not a mount path, and no evictable entry was used longer ago. */
  ghost predicate Victim(entries: Entries, mounts: seq<Bytes>, v: Bytes) {
    && v in entries && v !in mounts && entries[v].1 < U64_MAX
    && forall k :: k in entries && k !in mounts ==> entries[v].1 <= entries[k].1
  }

  /** What `evict_entry` may remove: a victim, or nothing when every entry is protected. */
  ghost predicate Evicts(entries: Entries, mounts: seq<Bytes>, gone: Option<Bytes>) {
    match gone
    case Some(v) => Victim(entries, mounts, v)
    case None => forall k :: k in entries && k !in mounts ==> entries[k].1 >= U64_MAX
  }

  ghost predicate MakesRoom(entries: Entries, mounts: seq<Bytes>, gone: Option<Bytes>) {
    if |entries| < CACHE_SIZE then gone.None? else Evicts(entries, mounts, gone)
  }

  ghost function Without(entries: Entries, gone: Option<Bytes>): Entries {
    match gone
    case Some(v) => entries - {v}
    case None => entries
  }

  /** The mount paths, each once. */
  ghost function MountPaths(mounts: seq<Bytes>): set<Bytes> {
    set m | m in mounts
  }

  ghost function Limit(mounts: seq<Bytes>): nat {
    if |MountPaths(mounts)| + 1 > CACHE_SIZE then |MountPaths(mounts)| + 1 else CACHE_SIZE
  }

  /** Every mount path is cached, and the cache is no larger than its size or the mounts force it to be. */
  ghost predicate Bounded(entries: Entries, mounts: seq<Bytes>) {
    && (forall k :: k in entries ==> entries[k].1 < U64_MAX)
    && (forall m :: m in mounts ==> m in entries)
    && |entries| <= Limit(mounts)
  }

  lemma Fewer<T>(part: set<T>, all: set<T>)
    requires part <= all
    ensures |part| <= |all|
  {
    assert part + (all - part) == all;
  }

  /** The state just before `key` goes in: its own mount may already be recorded. */
  ghost predicate BoundedBut(entries: Entries, mounts: seq<Bytes>, key: Bytes) {
    && (forall k :: k in entries ==> entries[k].1 < U64_MAX)
    && (forall m :: m in mounts ==> m in entries || m == key)
    && |entries| <= Limit(mounts)
  }

  lemma BoundedIsBoundedBut(entries: Entries, mounts: seq<Bytes>, key: Bytes)
    ensures Bounded(entries, mounts) ==> BoundedBut(entries, mounts, key)
  {
  }

  lemma BoundedInsert(entries: Entries, mounts: seq<Bytes>, gone: Option<Bytes>, key: Bytes, entry: (DEntry, nat))
    requires BoundedBut(entries, mounts, key) && MakesRoom(entries, mounts, gone) && entry.1 < U64_MAX
    ensures Bounded(Without(entries, gone)[key := entry], mounts)
  {
    if |entries| >= CACHE_SIZE {
      match gone {
        case Some(v) =>
          assert Without(entries, gone).Keys == entries.Keys - {v};
        case None =>
          Fewer(entries.Keys, MountPaths(mounts));
      }
    }
  }

  // ---------------------------------------------------------------- what a call changes

  /** A hit renews the tick of its entry. A new entry may push out another. */
  datatype Change = Touch(key: Bytes) | Store(entry: DEntry, gone: Option<Bytes>)

  ghost function Apply(entries: Entries, c: Change, now: nat): Entries {
    match c
    case Touch(k) => if k in entries then entries[k := (entries[k].0, now)] else entries
    case Store(d, gone) => Without(entries, gone)[d.name := (d, now)]
  }

  ghost predicate Legal(entries: Entries, mounts: seq<Bytes>, c: Change) {
    match c
    case Touch(k) => k in entries
    case Store(_, gone) => MakesRoom(entries, mounts, gone)
  }

  ghost function Played(entries: Entries, log: seq<Change>, now: nat): Entries {
    if log == [] then entries
    else
      var last := |log| - 1;
      Apply(Played(entries, log[..last], now), log[last], now)
  }

  /** The changes of `log` turn `before` into `after`, and each evicts only what may go at that moment. */
  ghost predicate Follows(before: Entries, log: seq<Change>, after: Entries, mounts: seq<Bytes>, now: nat) {
    && after == Played(before, log, now)
    && forall j :: 0 <= j < |log| ==> Legal(Played(before, log[..j], now), mounts, log[j])
  }

  lemma FollowsOne(before: Entries, c: Change, mounts: seq<Bytes>, now: nat)
    requires Legal(before, mounts, c)
    ensures Follows(before, [c], Apply(before, c, now), mounts, now)
  {
    hide Legal, Apply;
    assert [c][..0] == [];
    assert Played(before, [c][..0], now) == before;
  }

  lemma {:induction false} PlayedJoin(entries: Entries, a: seq<Change>, b: seq<Change>, now: nat)
    ensures Played(entries, a + b, now) == Played(Played(entries, a, now), b, now)
  {
    hide Apply;
    if b == [] {
      assert a + b == a;
    } else {
      var last := |b| - 1;
      PlayedJoin(entries, a, b[..last], now);
      assert (a + b)[..|a| + last] == a + b[..last];
    }
  }

  lemma FollowsJoin(before: Entries, a: seq<Change>, mid: Entries, b: seq<Change>, after: Entries, mounts: seq<Bytes>,
      now: nat)
    requires Follows(before, a, mid, mounts, now) && Follows(mid, b, after, mounts, now)
    ensures Follows(before, a + b, after, mounts, now)
  {
    hide Legal, Played;
    PlayedJoin(before, a, b, now);
    forall j | 0 <= j < |a + b|
      ensures Legal(Played(before, (a + b)[..j], now), mounts, (a + b)[j])
    {
      if j < |a| {
        assert (a + b)[..j] == a[..j];
      } else {
        assert (a + b)[..j] == a + b[..j - |a|];
        PlayedJoin(before, a, b[..j - |a|], now);
      }
    }
  }

  /** `log[j]` pushed `k` out of a full cache, and `k` was no mount and among the longest unused. */
  ghost predicate PushedOut(before: Entries, log: seq<Change>, mounts: seq<Bytes>, now: nat, k: Bytes, j: nat) {
    && j < |log| && log[j].Store? && log[j].gone == Some(k)
    && |Played(before, log[..j], now)| >= CACHE_SIZE && Victim(Played(before, log[..j], now), mounts, k)
  }

  /** Nothing leaves the cache in any other way. */
  lemma {:induction false} OnlyVictimsGo(before: Entries, log: seq<Change>, after: Entries, mounts: seq<Bytes>,
      now: nat, k: Bytes) returns (j: nat)
    requires Follows(before, log, after, mounts, now) && k in before && k !in after
    ensures PushedOut(before, log, mounts, now, k, j)
    decreases |log|
  {
    hide Victim;
    var last := |log| - 1;
    var shorter := log[..last];
    var mid := Played(before, shorter, now);
    if k in mid {
      j := last;
    } else {
      assert forall i :: 0 <= i < last ==> shorter[..i] == log[..i];
      j := OnlyVictimsGo(before, shorter, mid, mounts, now, k);
      assert shorter[..j] == log[..j];
    }
  }

  /** Mounted paths never leave. */
  lemma MountsStay(before: Entries, log: seq<Change>, after: Entries, mounts: seq<Bytes>, now: nat, k: Bytes)
    requires Follows(before, log, after, mounts, now) && k in before && k in mounts
    ensures k in after
  {
    hide Follows;
    if k !in after {
      var j := OnlyVictimsGo(before, log, after, mounts, now, k);
    }
  }

  /** One entry for each prefix of `comps` below `parent`, from the shortest on, and all of them exactly on success. */
  ghost predicate StoresPath(rule: SepRule, parent: Bytes, comps: seq<Component>, log: seq<Change>, all: bool) {
    && |log| <= |comps| && (all <==> |log| == |comps|)
    && forall i :: 0 <= i < |log| ==> log[i].Store? && log[i].entry.name == PushAll(rule, parent, comps[..i + 1])
  }

  lemma StoresNext(rule: SepRule, parent: Bytes, comps: seq<Component>, c: Change, log: seq<Change>, all: bool)
    requires comps != [] && c.Store? && c.entry.name == PushSpec(rule, parent, Spelling(comps[0]))
    requires StoresPath(rule, c.entry.name, comps[1..], log, all)
    ensures StoresPath(rule, parent, comps, [c] + log, all)
  {
    hide PushSpec, PushAll, Spelling;
    var longer := [c] + log;
    forall i | 0 <= i < |longer|
      ensures longer[i].Store? && longer[i].entry.name == PushAll(rule, parent, comps[..i + 1])
    {
      var part := comps[..i + 1];
      PushAllFirst(rule, parent, part);
      assert part[0] == comps[0] && part[1..] == comps[1..][..i];
      if i == 0 {
        PushAllNone(rule, c.entry.name);
      } else {
        assert longer[i] == log[i - 1];
      }
    }
  }

  lemma PushAllNone(rule: SepRule, parent: Bytes)
    ensures PushAll(rule, parent, []) == parent
  {
  }

  /** What a lookup changes: the entry it starts from is renewed, and the path below it is stored. */
  ghost predicate LookupLog(rule: SepRule, p: Bytes, m: nat, a: Bytes, r: Outcome, log: seq<Change>) {
    if r.Returned? then
      && m <= |Parse(p)| && log != [] && log[0] == Touch(a)
      && StoresPath(rule, a, Parse(p)[m..], log[1..], r.result.Ok?)
    else log == []
  }

  // ---------------------------------------------------------------- what the entries say

  /** The entry under `k` is what walking from the root along some list of names reaches. */
  ghost predicate Reached(rule: SepRule, fs: FileSystem, k: Bytes, inode: Inode, names: seq<Component>) {
    Pieces(names) && k == Key(rule, names) && Walk(fs, fs.root, names) == Ok(inode)
  }

  ghost predicate SoundEntry(rule: SepRule, fs: FileSystem, k: Bytes, d: DEntry) {
    d.name == k && exists names :: Reached(rule, fs, k, d.inode, names)
  }

  ghost predicate Sound(rule: SepRule, fs: FileSystem, entries: Entries) {
    forall k :: k in entries ==> SoundEntry(rule, fs, k, entries[k].0)
  }

  ghost predicate Agrees(r: Result<DEntry, FSError>, w: Result<Inode, FSError>) {
    match r
    case Ok(d) => w == Ok(d.inode)
    case Err(e) => w == Err(e)
  }

  /** No ancestor of `p` with more than `m` components is cached. */
  ghost predicate Missed(entries: Entries, p: Bytes, m: int) {
    forall j: nat, b :: j > m && IsAncestor(p, j, b) ==> b !in entries
  }

  /** The longest cached ancestor of `p`. */
  ghost predicate FirstHit(entries: Entries, p: Bytes, m: nat, a: Bytes) {
    IsAncestor(p, m, a) && a in entries && Missed(entries, p, m)
  }

  ghost predicate Cached(entries: Entries, key: Bytes, d: DEntry) {
    d.name == key && key in entries && entries[key].0 == d
  }

  /** `parent` was reached by `names`, and `comps` are pieces that can be appended to them. */
  ghost predicate Grounded(rule: SepRule, fs: FileSystem, parent: Bytes, inode: Inode, names: seq<Component>,
      comps: seq<Component>) {
    Coherent(fs) && Pieces(comps) && Reached(rule, fs, parent, inode, names)
  }

  /** A child found by one step is reached by one more name. */
  lemma ReachedChild(rule: SepRule, fs: FileSystem, parent: Bytes, inode: Inode, names: seq<Component>,
                     comps: seq<Component>, child: DEntry)
    requires comps != [] && Grounded(rule, fs, parent, inode, names, comps)
    requires Step(fs, inode, Spelling(comps[0]), |comps| > 1) == Ok(child.inode)
    requires child.name == PushSpec(rule, parent, Spelling(comps[0]))
    ensures Grounded(rule, fs, child.name, child.inode, names + [comps[0]], comps[1..])
    ensures SoundEntry(rule, fs, child.name, child)
  {
    hide PushSpec, Spelling;
    var longer := names + [comps[0]];
    assert comps[0] in comps && Pieces(longer);
    assert longer[..|longer| - 1] == names;
    WalkSplit(fs, fs.root, names, [comps[0]]);
    assert [comps[0]][1..] == [];
    assert Reached(rule, fs, child.name, child.inode, longer);
  }

  /** What a lookup that starts from the cached ancestor `a` returns and leaves behind. */
  ghost predicate Answer(rule: SepRule, fs: FileSystem, before: Entries, after: Entries, p: Bytes, m: nat, a: Bytes,
      r: Outcome) {
    && m <= |Parse(p)| && a in before && r.Returned?
    && Agrees(r.result, Walk(fs, before[a].0.inode, Parse(p)[m..]))
    && (m < |Parse(p)| && r.result.Ok? ==> Cached(after, PushAll(rule, a, Parse(p)[m..]), r.result.value))
  }

  /** A hit changes the access tick of its entry and nothing else. */
  lemma TouchKeeps(rule: SepRule, fs: FileSystem, before: Entries, mounts: seq<Bytes>, k: Bytes, now: nat)
    requires k in before && Sound(rule, fs, before)
    ensures var after := before[k := (before[k].0, now)];
      && Sound(rule, fs, after)
      && (Bounded(before, mounts) && now < U64_MAX ==> Bounded(after, mounts))
  {
    hide SoundEntry;
    assert before[k := (before[k].0, now)].Keys == before.Keys;
  }

  lemma TouchFollows(before: Entries, k: Bytes, mounts: seq<Bytes>, now: nat)
    requires k in before
    ensures Follows(before, [Touch(k)], before[k := (before[k].0, now)], mounts, now)
  {
    FollowsOne(before, Touch(k), mounts, now);
  }

  lemma NoChange(rule: SepRule, entries: Entries, parent: Bytes, comps: seq<Component>, mounts: seq<Bytes>, now: nat)
    ensures Follows(entries, [], entries, mounts, now) && StoresPath(rule, parent, comps, [], comps == [])
  {
  }

  lemma PanicLog(rule: SepRule, entries: Entries, p: Bytes, mounts: seq<Bytes>, now: nat, m: nat, a: Bytes)
    ensures Follows(entries, [], entries, mounts, now) && LookupLog(rule, p, m, a, Panicked, [])
  {
  }

  lemma DirectLog(rule: SepRule, p: Bytes, d: DEntry)
    ensures LookupLog(rule, p, |Parse(p)|, p, Returned(Ok(d)), [Touch(p)])
  {
    hide Parse;
  }

  lemma MissedSteps(entries: Entries, p: Bytes)
    ensures Missed(entries, p, |Parse(p)|)
    ensures Missed(entries, p, Lowest(p) - 1) ==> Missed(entries, p, -1)
  {
    hide Parse, Truncation;
    SelfAncestor(p);
  }

  /** Touching the start entry before the walk does not change the answer. */
  lemma SameStart(rule: SepRule, fs: FileSystem, before: Entries, touched: Entries, after: Entries, p: Bytes,
      m: nat, a: Bytes, r: Outcome)
    requires a in before && a in touched && before[a].0 == touched[a].0
    requires Answer(rule, fs, touched, after, p, m, a, r)
    ensures Answer(rule, fs, before, after, p, m, a, r)
  {
  }

  lemma AnswerReturned(rule: SepRule, fs: FileSystem, before: Entries, after: Entries, p: Bytes, m: nat, a: Bytes,
      r: Outcome)
    requires Answer(rule, fs, before, after, p, m, a, r)
    ensures r.Returned?
  {
  }

  lemma DirectAnswer(rule: SepRule, fs: FileSystem, before: Entries, after: Entries, p: Bytes)
    requires p in before
    ensures FirstHit(before, p, |Parse(p)|, p)
    ensures Answer(rule, fs, before, after, p, |Parse(p)|, p, Returned(Ok(before[p].0)))
  {
    hide Parse, Cached;
    MissedSteps(before, p);
  }

  lemma MissedOne(entries: Entries, p: Bytes, m: nat, a: Bytes)
    requires Missed(entries, p, m) && IsAncestor(p, m, a) && a !in entries
    ensures Missed(entries, p, m - 1)
  {
    hide IsAncestor;
    forall j: nat, b | j > m - 1 && IsAncestor(p, j, b)
      ensures b !in entries
    {
      if j == m {
        AncestorsAreUnique(p, m, a, b);
      }
    }
  }

  /** Where a hit lies: below an absolute path, and not on a root spelled with spare separators. */
  lemma HitShape(rule: SepRule, fs: FileSystem, entries: Entries, p: Bytes, m: nat, a: Bytes)
    requires Sound(rule, fs, entries) && IsAncestor(p, m, a) && a in entries
    ensures Servable(p) && m > 0 && Pieces(Parse(p)[m..])
    ensures rule == AsWritten ==> m <= 2
  {
    hide Parse, IsAncestor, Truncation;
    assert SoundEntry(rule, fs, a, entries[a].0);
    var names :| Reached(rule, fs, a, entries[a].0.inode, names);
    KeyShape(rule, names);
    AncestorParse(p, m, a);
    ParsePieces(p, m);
    if |Parse(p)| <= 1 {
      OnlyItself(p, m, a);
    }
  }

  lemma OnlyItself(p: Bytes, m: nat, a: Bytes)
    requires Rooted(p) && |Parse(p)| <= 1 && IsAncestor(p, m, a)
    ensures a == p
  {
  }

  /** Starting from a sound entry, whose key is not aliased, a lookup sees what a plain walk sees. */
  lemma LookupAgrees(rule: SepRule, fs: FileSystem, entries: Entries, p: Bytes, m: nat, a: Bytes)
    requires Sound(rule, fs, entries) && Coherent(fs) && IsAncestor(p, m, a) && a in entries
    requires rule == AsWritten ==> !Aliased(a)
    ensures m <= |Parse(p)| && Walk(fs, entries[a].0.inode, Parse(p)[m..]) == Resolve(fs, p)
  {
    hide Parse, IsAncestor, Aliased, Walk, Pieces, Key;
    assert SoundEntry(rule, fs, a, entries[a].0);
    var names :| Reached(rule, fs, a, entries[a].0.inode, names);
    KeyFaithful(rule, names);
    AncestorParse(p, m, a);
    WalkSplit(fs, fs.root, names, Parse(p)[m..]);
    assert Parse(p)[1..] == names + Parse(p)[m..];
  }

  method Search(listing: seq<(Bytes, nat)>, name: Bytes) returns (r: Option<nat>)
    ensures r == Find(listing, name)
  {
    for i := 0 to |listing|
      invariant Find(listing, name) == Find(listing[i..], name)
    {
      if listing[i].0 == name {
        return Some(listing[i].1);
      }
    }
    return None;
  }

  /** Drains a fresh iterator. */
  method Collect(s: Bytes) returns (comps: seq<Component>)
    ensures comps == Parse(s)
  {
    hide Parse, Cursor.Valid, Cursor.Remaining;
    var iter := new Components(s);
    comps := [];
    var item := iter.Next();
    while item.Some?
      invariant iter.Valid()
      invariant item.None? ==> comps == Parse(s)
      invariant item.Some? ==> comps + [item.value] + iter.Remaining() == Parse(s)
      decreases item.Some?, |iter.Remaining()|
    {
      comps := comps + [item.value];
      ghost var left := iter.Remaining();
      item := iter.Next();
    }
  }

  class DirectoryCache {
    const rule: SepRule
    const fs: FileSystem
    var entries: Entries
    var mounts: seq<Bytes>

    constructor (rule: SepRule, fs: FileSystem)
      ensures entries == map[] && mounts == [] && this.rule == rule && this.fs == fs
    {
      this.rule := rule;
      this.fs := fs;
      entries := map[];
      mounts := [];
    }

    /** The iteration order of the hash map is arbitrary; ties are broken by it. */
    method EvictEntry() returns (ghost gone: Option<Bytes>)
      modifies this`entries
      ensures Evicts(old(entries), mounts, gone) && entries == Without(old(entries), gone)
    {
      var lru: Option<Bytes> := None;
      var lruTime := U64_MAX;
      var todo := entries.Keys;
      while todo != {}
        invariant todo <= entries.Keys && entries == old(entries)
        invariant lru.None? ==> lruTime == U64_MAX
        invariant lru.Some? ==>
            lru.value in entries && lru.value !in mounts && entries[lru.value].1 == lruTime < U64_MAX
        invariant forall k :: k in entries && k !in todo && k !in mounts ==> lruTime <= entries[k].1
        decreases |todo|
      {
        var path :| path in todo;
        todo := todo - {path};
        if path in mounts {
          continue;
        }
        var lastAccess := entries[path].1;
        if lastAccess < lruTime {
          lru := Some(path);
          lruTime := lastAccess;
        }
      }
      if lru.Some? {
        entries := entries - {lru.value};
      }
      gone := lru;
    }

    method InsertEntry(entry: DEntry, now: nat) returns (ghost c: Change)
      modifies this`entries
      ensures c.Store? && c.entry == entry && Legal(old(entries), mounts, c) && entries == Apply(old(entries), c, now)
      ensures BoundedBut(old(entries), mounts, entry.name) && now < U64_MAX ==> Bounded(entries, mounts)
      ensures Bounded(old(entries), mounts) && now < U64_MAX ==> Bounded(entries, mounts)
      ensures Sound(rule, fs, old(entries)) && SoundEntry(rule, fs, entry.name, entry) ==> Sound(rule, fs, entries)
    {
      hide SoundEntry, Bounded, BoundedBut, Victim;
      BoundedIsBoundedBut(entries, mounts, entry.name);
      ghost var gone := None;
      if |entries| >= CACHE_SIZE {
        gone := EvictEntry();
      }
      if BoundedBut(old(entries), mounts, entry.name) && now < U64_MAX {
        BoundedInsert(old(entries), mounts, gone, entry.name, (entry, now));
      }
      entries := entries[entry.name := (entry, now)];
      c := Store(entry, gone);
    }

    /** Records the mount and caches its root. */
    method Mount(dentry: DEntry, now: nat) returns (ghost c: Change)
      modifies this
      ensures mounts == old(mounts) + [dentry.name]
      ensures c.Store? && c.entry == dentry && Legal(old(entries), mounts, c) && entries == Apply(old(entries), c, now)
      ensures dentry.name in entries && entries[dentry.name] == (dentry, now)
      ensures |old(entries)| < CACHE_SIZE ==> entries == old(entries)[dentry.name := (dentry, now)]
      ensures Bounded(old(entries), old(mounts)) && now < U64_MAX ==> Bounded(entries, mounts)
      ensures Sound(rule, fs, old(entries)) && SoundEntry(rule, fs, dentry.name, dentry) ==> Sound(rule, fs, entries)
    {
      hide SoundEntry, Evicts;
      Fewer(MountPaths(mounts), MountPaths(mounts + [dentry.name]));
      mounts := mounts + [dentry.name];
      c := InsertEntry(dentry, now);
    }

    method GetOpt(path: Bytes, now: nat) returns (r: Option<DEntry>)
      modifies this`entries
      ensures path !in old(entries) ==> r.None? && entries == old(entries)
      ensures path in old(entries) ==>
                r == Some(old(entries)[path].0) && entries == old(entries)[path := (r.value, now)]
    {
      if path in entries {
        r := Some(entries[path].0);
        entries := entries[path := (r.value, now)];
      } else {
        r := None;
      }
    }

    /** One step of `fill_path`: the child entry of `parent` named by `comp`. */
    method Descend(parent: Bytes, inode: Inode, comp: Component, more: bool) returns (r: Result<DEntry, FSError>)
      ensures Agrees(r, Step(fs, inode, Spelling(comp), more))
      ensures r.Ok? ==> r.value.name == PushSpec(rule, parent, Spelling(comp))
    {
      if !inode.isDir && more {
        return Err(NoEntry);
      }
      if inode.listing.Err? {
        return Err(inode.listing.error);
      }
      var found := Search(inode.listing.value, Spelling(comp));
      if found.None? {
        return Err(NoEntry);
      }
      var buf := new PathBuf(parent);
      buf.Push(rule, Spelling(comp));
      var got := fs.getInode(found.value);
      if got.Err? {
        return Err(got.error);
      }
      if got.value.None? {
        return Err(MissingInode);
      }
      return Ok(DEntry(buf.inner, got.value.value));
    }

    /** Caches the entries from `parent` down to the path; `names` says how `parent` was reached. */
    method FillPath(parent: Bytes, pdentry: DEntry, comps: seq<Component>, now: nat, ghost names: seq<Component>)
      returns (r: Result<DEntry, FSError>, ghost log: seq<Change>)
      modifies this`entries
      ensures Agrees(r, Walk(fs, pdentry.inode, comps))
      ensures Follows(old(entries), log, entries, mounts, now) && StoresPath(rule, parent, comps, log, r.Ok?)
      ensures comps == [] ==> r == Ok(pdentry) && entries == old(entries)
      ensures r.Ok? && comps != [] ==> Cached(entries, PushAll(rule, parent, comps), r.value)
      ensures Bounded(old(entries), mounts) && now < U64_MAX ==> Bounded(entries, mounts)
      ensures Sound(rule, fs, old(entries)) && Grounded(rule, fs, parent, pdentry.inode, names, comps) ==>
                Sound(rule, fs, entries)
      decreases |comps|
    {
      hide PushSpec, Bounded, Sound, SoundEntry, Grounded, Step, MakesRoom, Spelling, Without, Follows, StoresPath;
      NoChange(rule, entries, parent, comps, mounts, now);
      if comps == [] {
        return Ok(pdentry), [];
      }
      var comp, rest := comps[0], comps[1..];
      var child := Descend(parent, pdentry.inode, comp, rest != []);
      if child.Err? {
        return child, [];
      }
      if Grounded(rule, fs, parent, pdentry.inode, names, comps) {
        ReachedChild(rule, fs, parent, pdentry.inode, names, comps, child.value);
      }
      ghost var c := InsertEntry(child.value, now);
      FollowsOne(old(entries), c, mounts, now);
      ghost var mid := entries;
      assert Cached(entries, child.value.name, child.value);
      r, log := FillPath(child.value.name, child.value, rest, now, names + [comp]);
      FollowsJoin(old(entries), [c], mid, log, entries, mounts, now);
      StoresNext(rule, parent, comps, c, log, r.Ok?);
      log := [c] + log;
      PushAllFirst(rule, parent, comps);
      assert rest == [] ==> r.value == child.value && PushAll(rule, child.value.name, rest) == child.value.name;
    }

    /** The slow path of a lookup, from the ancestor `a` whose entry was found. */
    method FillFrom(p: Bytes, a: Bytes, entry: DEntry, now: nat, ghost m: nat)
      returns (r: Outcome, ghost log: seq<Change>)
      requires Sound(rule, fs, entries) && Coherent(fs)
      requires IsAncestor(p, m, a) && a in entries && entries[a].0 == entry
      modifies this`entries
      ensures Sound(rule, fs, entries)
      ensures Bounded(old(entries), mounts) && now < U64_MAX ==> Bounded(entries, mounts)
      ensures Answer(rule, fs, old(entries), entries, p, m, a, r)
      ensures Follows(old(entries), log, entries, mounts, now) && LookupLog(rule, p, m, a, r, [Touch(a)] + log)
    {
      hide Parse, IsAncestor, Bounded, Coherent, Walk, PushAll, Cached, Follows, StoresPath;
      AncestorParse(p, m, a);
      HitShape(rule, fs, entries, p, m, a);
      var rest := StripPrefix(p, a);
      var comps := Collect(rest.value);
      assert SoundEntry(rule, fs, a, entry);
      ghost var names :| Reached(rule, fs, a, entry.inode, names);
      var filled;
      filled, log := FillPath(a, entry, comps, now, names);
      r := Returned(filled);
      assert ([Touch(a)] + log)[1..] == log;
    }

    /** The loop over the ancestors of `p`. `m` and `a` say which one was cached. */
    method FromAncestor(p: Bytes, now: nat)
      returns (r: Outcome, ghost m: nat, ghost a: Bytes, ghost log: seq<Change>)
      requires Sound(rule, fs, entries) && Coherent(fs)
      modifies this`entries
      ensures Sound(rule, fs, entries)
      ensures Bounded(old(entries), mounts) && now < U64_MAX ==> Bounded(entries, mounts)
      ensures r.Panicked? ==> Missed(old(entries), p, -1) && entries == old(entries)
      ensures !r.Panicked? ==> FirstHit(old(entries), p, m, a) && Answer(rule, fs, old(entries), entries, p, m, a, r)
      ensures Follows(old(entries), log, entries, mounts, now) && LookupLog(rule, p, m, a, r, log)
    {
      hide IsAncestor, Bounded, Sound, Coherent, Missed, Answer, Parse, Follows, StoresPath, LookupLog, Legal, Apply;
      m, a := |Parse(p)|, [];
      SelfAncestor(p);
      MissedSteps(entries, p);
      var ancestors := new Ancestors(p);
      while ancestors.next.Some?
        invariant entries == old(entries)
        invariant ancestors.next.Some? ==>
            m >= Lowest(p) && IsAncestor(p, m, ancestors.next.value) && Missed(entries, p, m)
        invariant ancestors.next.None? ==> Missed(entries, p, Lowest(p) - 1)
        decreases ancestors.next.Some?, m
      {
        var found := ancestors.Next();
        var parent := found.value;
        AncestorStep(p, m, parent, ancestors.next);
        var entry := GetOpt(parent, now);
        if entry.Some? {
          ghost var touched := entries;
          TouchKeeps(rule, fs, old(entries), mounts, parent, now);
          TouchFollows(old(entries), parent, mounts, now);
          a := parent;
          r, log := FillFrom(p, parent, entry.value, now, m);
          FollowsJoin(old(entries), [Touch(a)], touched, log, entries, mounts, now);
          log := [Touch(a)] + log;
          SameStart(rule, fs, old(entries), touched, entries, p, m, a, r);
          AnswerReturned(rule, fs, old(entries), entries, p, m, a, r);
          return;
        }
        MissedOne(entries, p, m, parent);
        m := if m > 0 then m - 1 else 0;
      }
      r, log := Panicked, [];
      PanicLog(rule, entries, p, mounts, now, m, a);
    }

    /** The lookup: the path itself first, then its ancestors from the longest down. */
    method Get(p: Bytes, now: nat) returns (r: Outcome, ghost m: nat, ghost a: Bytes, ghost log: seq<Change>)
      requires Sound(rule, fs, entries) && Coherent(fs)
      modifies this`entries
      ensures Sound(rule, fs, entries)
      ensures Bounded(old(entries), mounts) && now < U64_MAX ==> Bounded(entries, mounts)
      ensures r.Panicked? ==> Missed(old(entries), p, -1) && entries == old(entries)
      ensures !r.Panicked? ==> FirstHit(old(entries), p, m, a) && Answer(rule, fs, old(entries), entries, p, m, a, r)
      ensures Follows(old(entries), log, entries, mounts, now) && LookupLog(rule, p, m, a, r, log)
    {
      hide IsAncestor, Bounded, Sound, Coherent, Missed, Answer, Parse, Follows, LookupLog;
      var fast := GetOpt(p, now);
      if fast.Some? {
        TouchKeeps(rule, fs, old(entries), mounts, p, now);
        DirectAnswer(rule, fs, old(entries), entries, p);
        TouchFollows(old(entries), p, mounts, now);
        DirectLog(rule, p, fast.value);
        return Returned(Ok(fast.value)), |Parse(p)|, p, [Touch(p)];
      }
      r, m, a, log := FromAncestor(p, now);
    }
  }
}
