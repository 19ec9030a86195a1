/** File systems as the directory cache sees them (kernel/src/fs/vfs/mod.rs), and an uncached walk. */
module Vfs {
  import opened Prelude
  import opened PathSpec

  datatype FSError = BadPath | NoEntry | MissingInode | WrongInode | NotDirectory | Exists

  /** An inode: its number, whether it is a directory, and what listing it returns. */
  datatype Inode = Inode(num: nat, isDir: bool, listing: Result<seq<(Bytes, nat)>, FSError>)

  datatype FileSystem = FileSystem(root: Inode, getInode: nat -> Result<Option<Inode>, FSError>)

  /** Listing fails on everything that is not a directory, as ramfs does. */
  predicate Lists(inode: Inode) {
    inode.listing.Ok? ==> inode.isDir
  }

  ghost predicate Coherent(fs: FileSystem) {
    && Lists(fs.root)
    && forall n :: fs.getInode(n).Ok? && fs.getInode(n).value.Some? ==> Lists(fs.getInode(n).value.value)
  }

  /** The inode number of the first listed entry with this name. */
  function Find(listing: seq<(Bytes, nat)>, name: Bytes): Option<nat> {
    if listing == [] then None
    else if listing[0].0 == name then Some(listing[0].1)
    else Find(listing[1..], name)
  }

  /** One directory step of a walk; `more` says whether further components follow. */
  function Step(fs: FileSystem, inode: Inode, name: Bytes, more: bool): Result<Inode, FSError> {
    if !inode.isDir && more then Err(NoEntry)
    else match inode.listing
      case Err(e) => Err(e)
      case Ok(listing) =>
        match Find(listing, name)
        case None => Err(NoEntry)
        case Some(n) =>
          match fs.getInode(n)
          case Err(e) => Err(e)
          case Ok(None) => Err(MissingInode)
          case Ok(Some(child)) => Ok(child)
  }

  function Walk(fs: FileSystem, inode: Inode, comps: seq<Component>): Result<Inode, FSError>
    decreases |comps|
  {
    if comps == [] then Ok(inode)
    else match Step(fs, inode, Spelling(comps[0]), |comps| > 1)
      case Err(e) => Err(e)
      case Ok(child) => Walk(fs, child, comps[1..])
  }

  /** What an absolute path names: a plain walk from the root, with no cache. */
  function Resolve(fs: FileSystem, path: Bytes): Result<Inode, FSError> {
    if Parse(path) == [] then Err(BadPath) else Walk(fs, fs.root, Parse(path)[1..])
  }

  /** A walk may be cut anywhere and resumed from the inode reached. */
  lemma {:induction false} WalkSplit(fs: FileSystem, inode: Inode, a: seq<Component>, b: seq<Component>)
    requires Coherent(fs) && Lists(inode) && Walk(fs, inode, a).Ok?
    ensures Walk(fs, inode, a + b) == Walk(fs, Walk(fs, inode, a).value, b)
    ensures Lists(Walk(fs, inode, a).value)
    decreases |a|
  {
    if a == [] {
      assert a + b == b;
    } else {
      var child := Step(fs, inode, Spelling(a[0]), |a| > 1).value;
      WalkSplit(fs, child, a[1..], b);
      assert (a + b)[1..] == a[1..] + b;
    }
  }

  // ---------------------------------------------------------------- what a walk finds

  /** The first pair of the listing with this name has the number `n`. */
  ghost predicate FirstListed(listing: seq<(Bytes, nat)>, name: Bytes, n: nat) {
    exists k :: 0 <= k < |listing| && listing[k] == (name, n) && Unlisted(listing[..k], name)
  }

  ghost predicate Unlisted(listing: seq<(Bytes, nat)>, name: Bytes) {
    forall k :: 0 <= k < |listing| ==> listing[k].0 != name
  }

  lemma {:induction false} FindIs(listing: seq<(Bytes, nat)>, name: Bytes)
    ensures Find(listing, name).None? <==> Unlisted(listing, name)
    ensures forall n: nat :: Find(listing, name) == Some(n) <==> FirstListed(listing, name, n)
  {
    if listing != [] {
      var rest := listing[1..];
      FindIs(rest, name);
      assert listing == [listing[0]] + rest;
      forall n: nat
        ensures Find(listing, name) == Some(n) <==> FirstListed(listing, name, n)
      {
        FirstListedTail(listing, name, n);
      }
    }
  }

  lemma FirstListedTail(listing: seq<(Bytes, nat)>, name: Bytes, n: nat)
    requires listing != []
    ensures FirstListed(listing, name, n) <==>
      listing[0] == (name, n) || (listing[0].0 != name && FirstListed(listing[1..], name, n))
  {
    var rest := listing[1..];
    if k :| 0 < k < |listing| && listing[k] == (name, n) && Unlisted(listing[..k], name) {
      var front, tail := listing[..k], rest[..k - 1];
      assert front[0] == listing[0];
      assert forall i :: 0 <= i < |tail| ==> tail[i] == front[i + 1];
      assert rest[k - 1] == (name, n) && Unlisted(tail, name);
    }
    if listing[0] == (name, n) {
      assert Unlisted(listing[..0], name);
    }
    if k :| 0 <= k < |rest| && rest[k] == (name, n) && Unlisted(rest[..k], name) {
      if listing[0].0 != name {
        var front := listing[..k + 1];
        assert forall i :: 0 < i < |front| ==> front[i] == rest[..k][i - 1];
        assert listing[k + 1] == (name, n) && Unlisted(front, name);
      }
    }
  }

  /** `from` lists `name`, and the number of the first such pair is that of `to`. */
  ghost predicate Leads(fs: FileSystem, from: Inode, name: Bytes, to: Inode) {
    from.listing.Ok? && exists n :: FirstListed(from.listing.value, name, n) && fs.getInode(n) == Ok(Some(to))
  }

  /**
   Each inode leads to the next by the next name, and is a directory; the last link may be of any kind when
   nothing follows it.
   */
  ghost predicate Trail(fs: FileSystem, names: seq<Component>, trail: seq<Inode>, more: bool) {
    && |trail| == |names| + 1
    && (forall k :: 0 <= k < |names| ==> Leads(fs, trail[k], Spelling(names[k]), trail[k + 1]))
    && (forall k :: 0 <= k < |names| ==> trail[k].isDir || (!more && k + 1 == |names|))
  }

  /** The inode of the first pair with this name cannot be read, or is missing. */
  ghost predicate Unread(fs: FileSystem, listing: seq<(Bytes, nat)>, name: Bytes, n: nat, e: FSError) {
    FirstListed(listing, name, n) && (fs.getInode(n) == Err(e) || (fs.getInode(n) == Ok(None) && e == MissingInode))
  }

  /** Why the step by `name` ends with `e`: a file with names to follow, no such name, or a failed read. */
  ghost predicate Fails(fs: FileSystem, from: Inode, name: Bytes, more: bool, e: FSError) {
    if !from.isDir && more then e == NoEntry
    else
      || from.listing == Err(e)
      || (from.listing.Ok? && e == NoEntry && Unlisted(from.listing.value, name))
      || (from.listing.Ok? && exists n :: Unread(fs, from.listing.value, name, n, e))
  }

  lemma StepIs(fs: FileSystem, from: Inode, name: Bytes, more: bool)
    ensures forall to :: Step(fs, from, name, more) == Ok(to) <==> (from.isDir || !more) && Leads(fs, from, name, to)
    ensures forall e :: Step(fs, from, name, more) == Err(e) <==> Fails(fs, from, name, more, e)
  {
    hide FirstListed, Unlisted, Find;
    if from.listing.Ok? {
      var listing := from.listing.value;
      FindIs(listing, name);
      if Find(listing, name).Some? {
        var n := Find(listing, name).value;
        assert forall m: nat :: FirstListed(listing, name, m) <==> m == n;
        assert forall e :: Step(fs, from, name, more) == Err(e) && (from.isDir || !more) ==>
            Unread(fs, listing, name, n, e);
      }
    }
  }

  ghost predicate StopsAt(fs: FileSystem, from: Inode, names: seq<Component>, k: nat, trail: seq<Inode>, e: FSError) {
    && k < |names| && Trail(fs, names[..k], trail, true) && trail[0] == from
    && Fails(fs, trail[k], Spelling(names[k]), k + 1 < |names|, e)
  }

  /** A walk reaches `to` exactly when there is a trail of inodes from its start that ends there. */
  lemma {:induction false} WalkReaches(fs: FileSystem, from: Inode, names: seq<Component>, to: Inode)
    ensures Walk(fs, from, names) == Ok(to) <==>
      exists trail :: Trail(fs, names, trail, false) && trail[0] == from && trail[|names|] == to
    decreases |names|
  {
    hide Leads, Step;
    if Walk(fs, from, names) == Ok(to) {
      var trail := TrailOf(fs, from, names, to);
    }
    if trail :| Trail(fs, names, trail, false) && trail[0] == from && trail[|names|] == to {
      FollowTrail(fs, names, trail);
    }
  }

  lemma {:induction false} TrailOf(fs: FileSystem, from: Inode, names: seq<Component>, to: Inode)
    returns (trail: seq<Inode>)
    requires Walk(fs, from, names) == Ok(to)
    ensures Trail(fs, names, trail, false) && trail[0] == from && trail[|names|] == to
    decreases |names|
  {
    hide Leads, Step;
    if names == [] {
      trail := [from];
    } else {
      StepIs(fs, from, Spelling(names[0]), |names| > 1);
      var child := Step(fs, from, Spelling(names[0]), |names| > 1).value;
      var rest := TrailOf(fs, child, names[1..], to);
      trail := [from] + rest;
      TrailMore(fs, names, trail, false);
    }
  }

  /** A trail is its first link and a trail from there. */
  lemma TrailMore(fs: FileSystem, names: seq<Component>, trail: seq<Inode>, more: bool)
    requires names != [] && |trail| == |names| + 1
    ensures Trail(fs, names, trail, more) <==>
      && Leads(fs, trail[0], Spelling(names[0]), trail[1]) && (trail[0].isDir || (!more && |names| == 1))
      && Trail(fs, names[1..], trail[1..], more)
  {
    hide Leads;
    var a, b := names[1..], trail[1..];
    assert forall k :: 0 <= k < |a| ==> a[k] == names[k + 1] && b[k] == trail[k + 1];
    assert forall k :: 0 < k < |names| ==> names[k] == a[k - 1] && trail[k] == b[k - 1] && trail[k + 1] == b[k];
  }

  lemma {:induction false} FollowTrail(fs: FileSystem, names: seq<Component>, trail: seq<Inode>)
    requires Trail(fs, names, trail, false)
    ensures Walk(fs, trail[0], names) == Ok(trail[|names|])
    decreases |names|
  {
    hide Leads, Step;
    if names != [] {
      TrailMore(fs, names, trail, false);
      StepIs(fs, trail[0], Spelling(names[0]), |names| > 1);
      FollowTrail(fs, names[1..], trail[1..]);
    }
  }

  /** A walk fails with `e` exactly when a trail of directories leads to an inode where its next step fails so. */
  lemma WalkFails(fs: FileSystem, from: Inode, names: seq<Component>, e: FSError)
    ensures Walk(fs, from, names) == Err(e) <==> exists k, trail :: StopsAt(fs, from, names, k, trail, e)
  {
    hide Leads, Step, Fails, StopsAt;
    if Walk(fs, from, names) == Err(e) {
      var k, trail := StopOf(fs, from, names, e);
    }
    if k, trail :| StopsAt(fs, from, names, k, trail, e) {
      FollowStop(fs, from, names, k, trail, e);
    }
  }

  lemma {:induction false} StopOf(fs: FileSystem, from: Inode, names: seq<Component>, e: FSError)
    returns (k: nat, trail: seq<Inode>)
    requires Walk(fs, from, names) == Err(e)
    ensures StopsAt(fs, from, names, k, trail, e)
    decreases |names|
  {
    hide Leads, Step, Fails;
    StepIs(fs, from, Spelling(names[0]), |names| > 1);
    match Step(fs, from, Spelling(names[0]), |names| > 1) {
      case Err(_) =>
        k, trail := 0, [from];
      case Ok(child) =>
        var i, rest := StopOf(fs, child, names[1..], e);
        k, trail := i + 1, [from] + rest;
        assert names[..k][1..] == names[1..][..i] && trail[1..] == rest;
        TrailMore(fs, names[..k], trail, true);
    }
  }

  lemma {:induction false} FollowStop(fs: FileSystem, from: Inode, names: seq<Component>, k: nat, trail: seq<Inode>,
      e: FSError)
    requires StopsAt(fs, from, names, k, trail, e)
    ensures Walk(fs, from, names) == Err(e)
    decreases |names|
  {
    hide Leads, Step, Fails;
    StepIs(fs, from, Spelling(names[0]), |names| > 1);
    if k > 0 {
      TrailMore(fs, names[..k], trail, true);
      assert names[..k][1..] == names[1..][..k - 1];
      FollowStop(fs, trail[1], names[1..], k - 1, trail[1..], e);
    }
  }

  /** Where only directories list, a trail runs through directories alone. */
  lemma TrailOfDirectories(fs: FileSystem, names: seq<Component>, trail: seq<Inode>)
    requires Coherent(fs) && Trail(fs, names, trail, false) && Lists(trail[0])
    ensures Lists(trail[|names|]) && forall k :: 0 <= k < |names| ==> trail[k].isDir
  {
    hide FirstListed;
    forall k | 0 < k <= |names|
      ensures Lists(trail[k])
    {
      assert Leads(fs, trail[k - 1], Spelling(names[k - 1]), trail[k]);
    }
    forall k | 0 <= k < |names|
      ensures trail[k].isDir
    {
      assert Leads(fs, trail[k], Spelling(names[k]), trail[k + 1]);
    }
  }
}
