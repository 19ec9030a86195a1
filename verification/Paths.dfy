/** Operations on whole paths (kernel/src/fs/path/mod.rs, kernel/src/fs/path/ancestors.rs). */
module Paths {
  import opened Prelude
  import opened PathSpec
  import opened PathComponents

  /** `t` is the shortest prefix of `s` that keeps its first `k` components. */
  ghost predicate Truncation(s: Bytes, k: nat, t: Bytes) {
    k <= |Parse(s)| && t <= s && Trimmed(t) && Parse(t) == Parse(s)[..k]
  }

  ghost predicate Suffix<T>(x: seq<T>, s: seq<T>) {
    |x| <= |s| && s[|s| - |x|..] == x
  }

  /** The byte string of a truncation is determined by `s` and `k`. */
  lemma TruncationIsUnique(s: Bytes, k: nat, t: Bytes, u: Bytes)
    requires Truncation(s, k, t) && Truncation(s, k, u)
    ensures t == u
  {
    if |t| < |u| {
      TrimmedIsShortest(t, u);
    } else if |u| < |t| {
      TrimmedIsShortest(u, t);
    }
  }

  lemma TruncationComposes(s: Bytes, k: nat, t: Bytes, j: nat, u: Bytes)
    requires t <= s && k <= |Parse(s)| && Parse(t) == Parse(s)[..k] && Truncation(t, j, u)
    ensures Truncation(s, j, u)
  {
    hide Parse, Trimmed;
  }

  /** The last item of a component list is the root only when the root is all there is. */
  lemma RootIsAlone(s: Bytes)
    requires Parse(s) != []
    ensures Parse(s)[|Parse(s)| - 1] == RootDir <==> Parse(s) == [RootDir]
    ensures Rooted(s) <==> Parse(s)[0] == RootDir
  {
    ParseNames(s);
  }

  method Parent(s: Bytes) returns (r: Option<Bytes>)
    ensures r.None? <==> Parse(s) == [] || Parse(s) == [RootDir]
    ensures r.Some? ==> Truncation(s, |Parse(s)| - 1, r.value)
  {
    hide Parse, Trimmed;
    var comps := new Components(s);
    var comp, _ := comps.NextBack();
    match comp {
      case None =>
        r := None;
      case Some(RootDir) =>
        RootIsAlone(s);
        r := None;
      case Some(_) =>
        RootIsAlone(s);
        var parent := comps.AsPath();
        r := Some(parent);
    }
  }

  /** The last component when it is a name, and where its bytes start. */
  method FileName(s: Bytes) returns (r: Option<(Bytes, nat)>)
    ensures r.Some? <==> Parse(s) != [] && Parse(s)[|Parse(s)| - 1].Normal?
    ensures r.Some? ==>
      && var (name, at) := r.value;
      && Parse(s)[|Parse(s)| - 1] == Normal(name)
      && at + |name| <= |s| && Truncation(s, |Parse(s)|, s[..at + |name|])
  {
    hide Parse, Trimmed;
    var comps := new Components(s);
    var comp, at := comps.NextBack();
    match comp {
      case Some(Normal(name)) =>
        assert Parse(s)[..|Parse(s)|] == Parse(s);
        r := Some((name, at));
      case _ =>
        r := None;
    }
  }

  /** The items of `s` in the order an iterator, or the same iterator reversed, yields them. */
  ghost function InOrder(s: seq<Component>, rev: bool): seq<Component> {
    if rev then Reverse(s) else s
  }

  /** `next` of the iterator, or of the iterator reversed. */
  method Pull(comps: Components, rev: bool) returns (item: Option<Component>)
    requires comps.Valid()
    modifies comps
    ensures comps.Valid()
    ensures old(comps.Remaining()) == [] ==> item.None? && comps.Remaining() == []
    ensures old(comps.Remaining()) != [] ==> item.Some?
    ensures item.Some? ==> InOrder(old(comps.Remaining()), rev) == [item.value] + InOrder(comps.Remaining(), rev)
    ensures !rev ==> comps.back == old(comps.back) && TailOf(comps.path, old(comps.path))
    ensures !rev && item.Some? ==> comps.front == InBody
  {
    hide Cursor.Valid, Cursor.Remaining, Reverse;
    if rev {
      var back, _ := comps.NextBack();
      item := back;
      if item.Some? {
        ReversePush(comps.Remaining(), item.value);
      }
    } else {
      item := comps.Next();
    }
  }

  /** Drops the items of `prefix` from the front of `start`, one by one, while they agree. */
  method IterAfter(start: Components, prefix: Components, rev: bool) returns (r: Option<Components>)
    requires start.Valid() && prefix.Valid() && start != prefix
    modifies prefix
    ensures r.Some? <==> InOrder(old(prefix.Remaining()), rev) <= InOrder(old(start.Remaining()), rev)
    ensures r.Some? ==>
      && r.value.Valid()
      && InOrder(old(start.Remaining()), rev)
         == InOrder(old(prefix.Remaining()), rev) + InOrder(r.value.Remaining(), rev)
      && (!rev ==> r.value.back == start.back && TailOf(r.value.path, start.path))
      && (!rev ==> if old(prefix.Remaining()) == [] then r.value == start else r.value.front == InBody)
  {
    hide Cursor.Valid, Cursor.Remaining, InOrder, Parse, Body;
    var iter := start;
    ghost var all, want := InOrder(start.Remaining(), rev), InOrder(prefix.Remaining(), rev);
    ghost var done: seq<Component> := [];
    while true
      invariant iter.Valid() && prefix.Valid() && iter != prefix
      invariant iter == start || fresh(iter)
      invariant all == done + InOrder(iter.Remaining(), rev)
      invariant want == done + InOrder(prefix.Remaining(), rev)
      invariant !rev ==> iter.back == start.back && TailOf(iter.path, start.path)
      invariant !rev ==> if done == [] then iter == start else iter.front == InBody
      decreases |InOrder(prefix.Remaining(), rev)|
    {
      EmptyInOrder(old(prefix.Remaining()), rev);
      var ahead := new Components.Clone(iter);
      ghost var left, wanted := InOrder(iter.Remaining(), rev), InOrder(prefix.Remaining(), rev);
      assert InOrder(ahead.Remaining(), rev) == left;
      var x := Pull(ahead, rev);
      var y := Pull(prefix, rev);
      if y.None? {
        assert want == done;
        return Some(iter);
      }
      if x != y {
        NotAhead(done, left, wanted);
        return None;
      }
      ConcatAssoc(done, [x.value], InOrder(ahead.Remaining(), rev));
      ConcatAssoc(done, [x.value], InOrder(prefix.Remaining(), rev));
      done := done + [x.value];
      iter := ahead;
    }
  }

  /** Lists that agree up to here and differ in their next item. */
  lemma NotAhead<T>(done: seq<T>, left: seq<T>, wanted: seq<T>)
    requires wanted != [] && (left == [] || left[0] != wanted[0])
    ensures !(done + wanted <= done + left)
  {
    assert (done + wanted)[|done|] == wanted[0];
    assert left != [] ==> (done + left)[|done|] == left[0];
  }

  lemma EmptyInOrder(s: seq<Component>, rev: bool)
    ensures InOrder(s, rev) == [] <==> s == []
    ensures InOrder([], rev) == []
  {
  }

  lemma SuffixReversed(x: seq<Component>, s: seq<Component>)
    ensures Suffix(x, s) <==> Reverse(x) <= Reverse(s)
  {
    if Reverse(x) <= Reverse(s) {
      forall i | 0 <= i < |x|
        ensures s[|s| - |x|..][i] == x[i]
      {
        assert Reverse(x)[|x| - 1 - i] == Reverse(s)[|x| - 1 - i];
      }
    }
  }

  /** `r` is part of `s`, and cannot be shortened: at neither end, or at its right end if nothing was stripped. */
  ghost predicate ShortSlice(s: Bytes, base: Bytes, r: Bytes) {
    SliceOf(r, s) && if Parse(base) == [] then r <= s && Trimmed(r) else Tight(r)
  }

  /** What is left of `s` after the components of `base`, as a path of its own. */
  method StripPrefix(s: Bytes, base: Bytes) returns (r: Option<Bytes>)
    ensures r.Some? <==> Parse(base) <= Parse(s)
    ensures r.Some? ==> Parse(r.value) == Parse(s)[|Parse(base)|..] && ShortSlice(s, base, r.value)
  {
    hide Parse, Cursor.Valid, Cursor.Remaining, SliceOf, Tight, Trimmed;
    var comps := new Components(s);
    var prefix := new Components(base);
    var rest := IterAfter(comps, prefix, false);
    if rest.None? {
      return None;
    }
    var bytes := rest.value.AsPath();
    SliceOfTail(bytes, rest.value.path, s);
    return Some(bytes);
  }

  method StartsWith(s: Bytes, base: Bytes) returns (r: bool)
    ensures r <==> Parse(base) <= Parse(s)
  {
    hide Parse, Cursor.Valid, Cursor.Remaining;
    var comps := new Components(s);
    var prefix := new Components(base);
    var rest := IterAfter(comps, prefix, false);
    return rest.Some?;
  }

  method EndsWith(s: Bytes, child: Bytes) returns (r: bool)
    ensures r <==> Suffix(Parse(child), Parse(s))
  {
    hide Parse, Cursor.Valid, Cursor.Remaining;
    var comps := new Components(s);
    var suffix := new Components(child);
    SuffixReversed(Parse(child), Parse(s));
    var rest := IterAfter(comps, suffix, true);
    return rest.Some?;
  }

  class Ancestors {
    var next: Option<Bytes>

    constructor (s: Bytes)
      ensures next == Some(s)
    {
      next := Some(s);
    }

    method Next() returns (r: Option<Bytes>)
      modifies this
      ensures r == old(next)
      ensures next.Some? <==> r.Some? && Parse(r.value) != [] && Parse(r.value) != [RootDir]
      ensures next.Some? ==> Truncation(r.value, |Parse(r.value)| - 1, next.value)
    {
      r := next;
      if r.Some? {
        next := Parent(r.value);
      }
    }
  }

  /** How many components the last ancestor of `s` has: the root has no parent. */
  ghost function Lowest(s: Bytes): nat {
    if Rooted(s) then 1 else 0
  }

  /** `a` is the ancestor of `s` with `m` components, `s` itself included. */
  ghost predicate IsAncestor(s: Bytes, m: nat, a: Bytes) {
    || (m == |Parse(s)| && a == s)
    || (Lowest(s) <= m < |Parse(s)| && Truncation(s, m, a))
  }

  lemma AncestorsAreUnique(s: Bytes, m: nat, a: Bytes, b: Bytes)
    requires IsAncestor(s, m, a) && IsAncestor(s, m, b)
    ensures a == b
  {
    hide Parse, Trimmed;
    if m < |Parse(s)| {
      TruncationIsUnique(s, m, a, b);
    }
  }

  lemma AncestorParse(s: Bytes, m: nat, a: Bytes)
    requires IsAncestor(s, m, a)
    ensures m <= |Parse(s)| && Parse(a) == Parse(s)[..m] && Parse(a) + Parse(s)[m..] == Parse(s)
    ensures a <= s && m >= Lowest(s)
    ensures Parse(a) == [] || Parse(a) == [RootDir] <==> m == Lowest(s)
  {
    hide Body, Trimmed;
    assert Parse(s)[..|Parse(s)|] == Parse(s);
    ParseNames(s);
    if Parse(s) != [] {
      RootIsAlone(s);
    }
  }

  /** From one ancestor to the next, as `parent` finds it. */
  lemma AncestorStep(s: Bytes, m: nat, a: Bytes, next: Option<Bytes>)
    requires IsAncestor(s, m, a)
    requires next.None? <==> Parse(a) == [] || Parse(a) == [RootDir]
    requires next.Some? ==> Truncation(a, |Parse(a)| - 1, next.value)
    ensures next.Some? <==> m > Lowest(s)
    ensures next.Some? ==> IsAncestor(s, m - 1, next.value)
  {
    hide Parse, Trimmed;
    AncestorParse(s, m, a);
    if next.Some? {
      TruncationComposes(s, m, a, m - 1, next.value);
    }
  }

  lemma ShortestEnds(s: Bytes, t: Bytes)
    ensures Rooted(s) && Truncation(s, 1, t) ==> t == [SEPARATOR]
    ensures Truncation(s, 0, t) ==> t == []
  {
    BodyEmpty();
    if Rooted(s) && Truncation(s, 1, t) {
      assert [SEPARATOR][1..] == [];
      assert Truncation(s, 1, [SEPARATOR]);
      TruncationIsUnique(s, 1, t, [SEPARATOR]);
    }
    if Truncation(s, 0, t) {
      TruncationIsUnique(s, 0, t, []);
    }
  }

  /**
   All ancestors of `s`, each with what `strip_prefix` leaves of `s` after it. The i-th one is the
   shortest prefix with the first n - i components, so stripping it never fails.
   */
  method AncestorChain(s: Bytes) returns (chain: seq<Bytes>, rests: seq<Bytes>)
    ensures |chain| == |rests| == |Parse(s)| + (if Rooted(s) then 0 else 1) && chain[0] == s
    ensures forall i :: 0 < i < |chain| ==> Truncation(s, |Parse(s)| - i, chain[i])
    ensures forall i :: 0 <= i < |chain| ==> Parse(chain[i]) + Parse(rests[i]) == Parse(s)
    ensures Rooted(s) && |Parse(s)| > 1 ==> chain[|chain| - 1] == [SEPARATOR]
    ensures !Rooted(s) ==> chain[|chain| - 1] == []
  {
    hide Parse, Trimmed, Truncation, IsAncestor;
    var ancestors := new Ancestors(s);
    chain, rests := [], [];
    ghost var n := |Parse(s)|;
    SelfAncestor(s);
    while ancestors.next.Some?
      invariant |chain| == |rests| <= n + 1 - Lowest(s)
      invariant ancestors.next.Some? ==> |chain| <= n && IsAncestor(s, n - |chain|, ancestors.next.value)
      invariant ancestors.next.None? ==> |chain| == n + 1 - Lowest(s)
      invariant forall i :: 0 <= i < |chain| ==> i <= n && IsAncestor(s, n - i, chain[i])
      invariant forall i :: 0 <= i < |chain| ==> Parse(chain[i]) + Parse(rests[i]) == Parse(s)
      decreases n + 1 - |chain|
    {
      ghost var m := n - |chain|;
      var ancestor := ancestors.Next();
      AncestorParse(s, m, ancestor.value);
      AncestorStep(s, m, ancestor.value, ancestors.next);
      var rest := StripPrefix(s, ancestor.value);
      chain, rests := chain + [ancestor.value], rests + [rest.value];
    }
    ChainEnds(s, chain);
  }

  lemma SelfAncestor(s: Bytes)
    ensures IsAncestor(s, |Parse(s)|, s) && |Parse(s)| >= Lowest(s)
  {
  }

  lemma ChainEnds(s: Bytes, chain: seq<Bytes>)
    requires |chain| == |Parse(s)| + 1 - Lowest(s)
    requires forall i :: 0 <= i < |chain| ==> i <= |Parse(s)| && IsAncestor(s, |Parse(s)| - i, chain[i])
    ensures chain != [] && chain[0] == s
    ensures forall i :: 0 < i < |chain| ==> Truncation(s, |Parse(s)| - i, chain[i])
    ensures Rooted(s) && |Parse(s)| > 1 ==> chain[|chain| - 1] == [SEPARATOR]
    ensures !Rooted(s) ==> chain[|chain| - 1] == []
  {
    hide Parse, Trimmed;
    SelfAncestor(s);
    ShortestEnds(s, chain[|chain| - 1]);
    if Parse(s) == [] {
      EmptyParse(s);
    }
  }

  /** Only the empty string means nothing at all. */
  lemma EmptyParse(s: Bytes)
    requires Parse(s) == []
    ensures s == []
  {
    hide Body;
    assert s[0..] == s;
    if s != [] {
      BodyFront(s);
      FirstPieceReal(s);
    }
  }

  lemma FirstPieceReal(s: Bytes)
    requires s != [] && Start(s) == []
    ensures ParseSingle(s[..FirstPiece(s)]).Some?
  {
  }
}
