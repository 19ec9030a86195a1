/**
 The double-ended component iterator (kernel/src/fs/path/components.rs): a shrinking slice and two
 states, one per end. `Cursor` holds the pure part, `Components` the updates in place.
 */
module PathComponents {
  import opened Prelude
  import opened PathSpec

  datatype State = StartDir | InBody | Done {
    function Rank(): nat {
      match this
      case StartDir => 0
      case InBody => 1
      case Done => 2
    }
  }

  datatype Cursor = Cursor(path: Bytes, rooted: bool, front: State, back: State) {

    predicate Finished() {
      front == Done || back == Done || front.Rank() > back.Rank()
    }

    predicate IncludeCurDir() {
      !rooted && Dotted(path)
    }

    function LenBeforeBody(): nat {
      (if front == StartDir && rooted then 1 else 0)
      + (if front == StartDir && IncludeCurDir() then 1 else 0)
    }

    /** How many bytes the leftmost piece takes with its separator, and what it stands for. */
    function ParseNext(): (nat, Option<Component>)
      requires front == InBody
    {
      var i := FirstPiece(path);
      (if i < |path| then i + 1 else i, ParseSingle(path[..i]))
    }

    function ParseNextBack(): (nat, Option<Component>)
      requires back == InBody && LenBeforeBody() <= |path|
    {
      var start := LenBeforeBody();
      var k := LastPiece(path[start..]);
      (|path| - start - k + (if k > 0 then 1 else 0), ParseSingle(path[start + k..]))
    }

    /** What every reachable iterator state satisfies. */
    ghost predicate Valid() {
      && (front == Done || back == Done ==> path == [])
      && (back == StartDir ==> |path| == LenBeforeBody())
      && (front == StartDir && back != Done ==> (rooted <==> Rooted(path)))
    }

    /** The components not yet yielded from either end. */
    ghost function Remaining(): seq<Component> {
      if front == StartDir then Parse(path) else Body(path)
    }

    lemma StartCount()
      requires Valid() && back != Done
      ensures LenBeforeBody() <= |path|
      ensures front == StartDir ==> LenBeforeBody() == |Start(path)|
    {
    }

    lemma NothingBefore()
      requires front != StartDir
      ensures LenBeforeBody() == 0
    {
    }

    lemma FreshRemaining()
      ensures front == StartDir ==> Remaining() == Parse(path)
    {
    }

    /** With the back out of the body, nothing is left to trim on the right. */
    lemma BackIsShort()
      requires Valid() && back != InBody
      ensures front == StartDir ==> Trimmed(path)
      ensures front != StartDir ==> path == []
    {
      if front == StartDir && back == StartDir {
        StartCount();
        assert path[|Start(path)|..] == [];
      }
    }

    /** A finished iterator has nothing left. */
    lemma FinishedIsEmpty()
      requires Valid() && Finished()
      ensures path == [] && Remaining() == []
    {
      BodyEmpty();
    }

    /** `next` at the start: it yields the root or the leading `.`, or moves on to the body. */
    lemma OpenFront()
      requires Valid() && !Finished() && front == StartDir
      ensures var taken := |Start(path)|;
        && taken <= |path| && taken == (if rooted || IncludeCurDir() then 1 else 0)
        && Start(path) == (if rooted then [RootDir] else if IncludeCurDir() then [CurDir] else [])
        && var next := this.(front := InBody, path := path[taken..]);
        && next.Valid() && Remaining() == Start(path) + next.Remaining()
    {
      hide Body;
    }

    /** `next` with an empty body left. */
    lemma CloseFront()
      requires Valid() && front == InBody && path == []
      ensures this.(front := Done).Valid() && this.(front := Done).Remaining() == Remaining() == []
    {
      BodyEmpty();
    }

    /** One step of `next` inside the body. */
    lemma StepFront()
      requires Valid() && front == InBody && path != []
      ensures var (size, comp) := ParseNext();
        && 0 < size <= |path|
        && var next := this.(path := path[size..]);
        && next.Valid() && Remaining() == Listed(comp) + next.Remaining()
    {
      hide Body;
      BodyFront(path);
      var i := FirstPiece(path);
      assert i == |path| ==> path[i..] == [];
    }

    /** What taking `comp` off the right end must leave. */
    ghost predicate ShrinksTo(shorter: Cursor, comp: Option<Component>) {
      && shorter.Valid() && shorter.LenBeforeBody() == LenBeforeBody()
      && Remaining() == shorter.Remaining() + Listed(comp)
    }

    lemma StepBackFresh(rest: Bytes, comp: Option<Component>)
      requires Valid() && front == StartDir && back == InBody && |path| > LenBeforeBody()
      requires var body := path[LenBeforeBody()..];
        rest == path[..LenBeforeBody() + |Cut(body)|] && comp == ParseSingle(body[LastPiece(body)..])
      ensures ShrinksTo(this.(path := rest), comp)
    {
      hide Body, Parse, LastPiece, Cut, ParseSingle;
      StartCount();
      ParseBack(path);
    }

    lemma StepBackBody()
      requires front != StartDir && back == InBody && Valid()
      ensures ShrinksTo(this.(path := Cut(path)), ParseSingle(path[LastPiece(path)..]))
    {
      hide Body, LastPiece;
      BodyBack(path);
    }

    /** One step of `next_back` inside the body: the slice loses its last piece, the start stays. */
    lemma StepBack()
      requires Valid() && back == InBody && |path| > LenBeforeBody()
      ensures var (size, comp) := ParseNextBack();
        && 0 < size <= |path| - LenBeforeBody()
        && (size == |path| - LenBeforeBody() || path[|path| - size] == SEPARATOR)
        && ShrinksTo(this.(path := path[..|path| - size]), comp)
    {
      hide Body, Parse, ShrinksTo, ParseSingle, Valid, LastPiece;
      var l := LenBeforeBody();
      var (size, comp) := ParseNextBack();
      var body, rest := path[l..], path[..|path| - size];
      assert path[l + LastPiece(body)..] == body[LastPiece(body)..];
      if front == StartDir {
        StepBackFresh(rest, comp);
      } else {
        assert body == path && rest == Cut(path);
        StepBackBody();
      }
    }

    /** A real piece at the right end: its bytes end the slice, and nothing is left to trim. */
    lemma RealPieceBack()
      requires Valid() && back == InBody && |path| > LenBeforeBody() && ParseNextBack().1.Some?
      ensures |Spelling(ParseNextBack().1.value)| <= |path|
      ensures front == StartDir ==> Trimmed(path)
      ensures front != StartDir ==> ParseSingle(path[LastPiece(path)..]).Some?
    {
      hide LastPiece, Parse, Body;
      StartCount();
      assert front != StartDir ==> path[0..] == path;
      var body := path[LenBeforeBody()..];
      assert path[LenBeforeBody() + LastPiece(body)..] == body[LastPiece(body)..];
    }

    lemma AsPathDone(left: Bytes, r: Bytes)
      requires Valid() && LeftDone(this, left) && RightDone(this.(path := left), r)
      requires this.(path := r).Remaining() == Remaining()
      ensures AsPathOf(this, r)
    {
      hide Body, ParseSingle, FirstPiece, LastPiece, Parse, Start, SliceOf, Tight, Trimmed;
      SliceFound(path, left, r);
      if back != InBody {
        BackIsShort();
      }
      if front != StartDir {
        TightIsBody(r, left);
        TightIsTight(r, left);
      }
    }

    /** `next_back` when the body is used up: the start is all that is left. */
    lemma CloseBack()
      requires Valid() && !Finished() && back != Done && (back == StartDir || |path| <= LenBeforeBody())
      ensures this.(back := StartDir).Valid() && this.(back := StartDir).Remaining() == Remaining()
      ensures |path| == LenBeforeBody() == (if front == StartDir && (rooted || IncludeCurDir()) then 1 else 0)
      ensures Remaining() == if front != StartDir then [] else if rooted then [RootDir]
                             else if IncludeCurDir() then [CurDir] else []
      ensures this.(back := Done, path := []).Valid() && this.(back := Done, path := []).Remaining() == []
      ensures front == StartDir ==> Trimmed(path)
    {
      BodyEmpty();
      if front == StartDir {
        assert path[|Start(path)|..] == [];
      } else {
        assert path == [];
      }
    }
  }

  /** `r` is a contiguous part of `s`. */
  ghost predicate SliceOf(r: Bytes, s: Bytes) {
    exists i :: 0 <= i <= |s| && r <= s[i..]
  }

  predicate TailOf(r: Bytes, s: Bytes) {
    |r| <= |s| && r == s[|s| - |r|..]
  }

  lemma SliceOfTail(r: Bytes, t: Bytes, s: Bytes)
    requires SliceOf(r, t) && TailOf(t, s)
    ensures SliceOf(r, s)
  {
    var i :| 0 <= i <= |t| && r <= t[i..];
    assert t[i..] == s[|s| - |t| + i..];
  }

  /** Neither end could be shortened. */
  ghost predicate Tight(r: Bytes) {
    r == [] || (ParseSingle(r[..FirstPiece(r)]).Some? && ParseSingle(r[LastPiece(r)..]).Some?)
  }

  /** Cutting the right end at a separator keeps the first piece. */
  lemma CutKeepsFirst(left: Bytes, r: Bytes)
    requires r != [] && r <= left && (r == left || left[|r|] == SEPARATOR)
    ensures r[..FirstPiece(r)] == left[..FirstPiece(left)]
  {
    FirstPieceOfPrefix(r, left);
    if r != left {
      SeparatorEnds(left, |r|);
    }
  }

  lemma {:induction false} SeparatorEnds(s: Bytes, k: nat)
    requires k < |s| && s[k] == SEPARATOR
    ensures FirstPiece(s) <= k
  {
    if k > 0 && s[0] != SEPARATOR {
      SeparatorEnds(s[1..], k - 1);
    }
  }

  /** What is left of a body does not look like a start. */
  lemma TightIsBody(r: Bytes, left: Bytes)
    requires r <= left && (r == [] || r == left || left[|r|] == SEPARATOR)
    requires left == [] || ParseSingle(left[..FirstPiece(left)]).Some?
    ensures Parse(r) == Body(r)
  {
    hide Body;
    if r != [] {
      CutKeepsFirst(left, r);
    }
    assert Start(r) == [] && r[0..] == r;
  }

  lemma TightIsTight(r: Bytes, left: Bytes)
    requires r <= left && (r == [] || r == left || left[|r|] == SEPARATOR)
    requires left == [] || ParseSingle(left[..FirstPiece(left)]).Some?
    ensures r == [] || ParseSingle(r[LastPiece(r)..]).Some? ==> Tight(r)
  {
    hide ParseSingle, LastPiece;
    if r != [] {
      CutKeepsFirst(left, r);
    }
  }

  lemma SliceFound(path: Bytes, left: Bytes, r: Bytes)
    requires |left| <= |path| && left == path[|path| - |left|..] && r <= left
    ensures SliceOf(r, path)
  {
  }

  /** `left` is the slice with the pieces that mean nothing gone on the left, when the front is in the body. */
  ghost predicate LeftDone(c: Cursor, left: Bytes) {
    && |left| <= |c.path| && left == c.path[|c.path| - |left|..]
    && if c.front == InBody then left == [] || ParseSingle(left[..FirstPiece(left)]).Some? else left == c.path
  }

  /** `r` is the slice with the pieces that mean nothing gone on the right, when the back is in the body. */
  ghost predicate RightDone(c: Cursor, r: Bytes) {
    && r <= c.path
    && if c.back != InBody then r == c.path
       else
         && (r == c.path || |r| == c.(path := r).LenBeforeBody() || c.path[|r|] == SEPARATOR)
         && if c.front == StartDir then Trimmed(r) else r == [] || ParseSingle(r[LastPiece(r)..]).Some?
  }

  /** What `as_path` gives: part of the slice, meaning what is left, with nothing meaningless at an open end. */
  ghost predicate AsPathOf(c: Cursor, r: Bytes) {
    && Parse(r) == c.Remaining() && SliceOf(r, c.path)
    && (c.front == StartDir ==> r <= c.path && Trimmed(r))
    && (c.front == InBody && c.back == InBody ==> Tight(r))
  }

  class Components {
    const rooted: bool
    var path: Bytes
    var front: State
    var back: State

    function View(): Cursor
      reads this
    {
      Cursor(path, rooted, front, back)
    }

    ghost predicate Valid()
      reads this
    {
      View().Valid()
    }

    ghost function Remaining(): seq<Component>
      reads this
    {
      View().Remaining()
    }

    constructor (s: Bytes)
      ensures Valid() && Remaining() == Parse(s)
      ensures path == s && front == StartDir && back == InBody
    {
      rooted := Rooted(s);
      path := s;
      front := StartDir;
      back := InBody;
    }

    constructor Clone(c: Components)
      ensures View() == c.View()
    {
      rooted := c.rooted;
      path := c.path;
      front := c.front;
      back := c.back;
    }

    method TrimLeft()
      requires Valid() && front == InBody
      modifies this`path
      ensures Valid() && Remaining() == old(Remaining())
      ensures path == [] || ParseSingle(path[..FirstPiece(path)]).Some?
      ensures |path| <= |old(path)| && path == old(path)[|old(path)| - |path|..]
    {
      hide Cursor.Valid, Cursor.Remaining, ParseSingle, FirstPiece, Body, Parse;
      while path != []
        invariant Valid() && Remaining() == old(Remaining())
        invariant |path| <= |old(path)| && path == old(path)[|old(path)| - |path|..]
        decreases |path|
      {
        View().StepFront();
        var (size, comp) := View().ParseNext();
        if comp.Some? {
          return;
        }
        path := path[size..];
      }
    }

    method TrimRight()
      requires Valid() && back == InBody
      modifies this`path
      ensures Valid() && Remaining() == old(Remaining())
      ensures path <= old(path)
      ensures path == old(path) || |path| == View().LenBeforeBody() || old(path)[|path|] == SEPARATOR
      ensures front == StartDir ==> Trimmed(path)
      ensures front != StartDir ==> path == [] || ParseSingle(path[LastPiece(path)..]).Some?
    {
      hide Cursor.Valid, Cursor.Remaining, Cursor.ParseNextBack, Cursor.LenBeforeBody, Trimmed, ParseSingle;
      View().StartCount();
      while |path| > View().LenBeforeBody()
        invariant Valid() && Remaining() == old(Remaining())
        invariant View().LenBeforeBody() == old(View().LenBeforeBody()) <= |path|
        invariant path <= old(path)
        invariant path == old(path) || |path| == View().LenBeforeBody() || old(path)[|path|] == SEPARATOR
        decreases |path|
      {
        View().StepBack();
        var (size, comp) := View().ParseNextBack();
        if comp.Some? {
          View().RealPieceBack();
          return;
        }
        path := path[..|path| - size];
      }
      if front == StartDir {
        View().CloseBack();
      } else {
        View().NothingBefore();
      }
    }

    /**
     The bytes still to be iterated. Read from scratch they mean exactly what was left, and no byte at
     either end that means nothing is kept.
     */
    method AsPath() returns (r: Bytes)
      requires Valid()
      ensures AsPathOf(View(), r)
    {
      hide Body, ParseSingle, FirstPiece, LastPiece, Parse, Start, SliceOf, Tight, Trimmed, Cursor.Valid, AsPathOf,
        Cursor.LenBeforeBody;
      var comps := new Components.Clone(this);
      if comps.front == InBody {
        comps.TrimLeft();
      }
      ghost var left := comps.path;
      assert LeftDone(View(), left);
      if comps.back == InBody {
        comps.TrimRight();
      }
      r := comps.path;
      assert RightDone(View().(path := left), r);
      View().AsPathDone(left, r);
    }

    method Next() returns (item: Option<Component>)
      requires Valid()
      modifies this
      ensures Valid()
      ensures item.None? ==> old(Remaining()) == [] == Remaining()
      ensures item.Some? ==> old(Remaining()) == [item.value] + Remaining()
      ensures back == old(back) && TailOf(path, old(path)) && (item.Some? ==> front == InBody)
    {
      hide Cursor.Valid, Cursor.Remaining, Cursor.ParseNext, Start;
      while !View().Finished()
        invariant Valid() && Remaining() == old(Remaining()) && back == old(back) && TailOf(path, old(path))
        decreases 2 - front.Rank(), |path|
      {
        match front {
          case StartDir =>
            View().OpenFront();
            front := InBody;
            if rooted {
              path := path[1..];
              return Some(RootDir);
            } else if View().IncludeCurDir() {
              path := path[1..];
              return Some(CurDir);
            }
          case InBody =>
            if path != [] {
              View().StepFront();
              var (size, comp) := View().ParseNext();
              path := path[size..];
              if comp.Some? {
                return comp;
              }
            } else {
              View().CloseFront();
              front := Done;
            }
        }
      }
      View().FinishedIsEmpty();
      return None;
    }
  
    /**
     The item taken from the right, and where its bytes start in the slice. On an iterator whose front
     has not moved they end the shortest prefix that means the same as the slice.
     */
    method NextBack() returns (item: Option<Component>, at: nat)
      requires Valid()
      modifies this
      ensures Valid() && front == old(front) && path <= old(path)
      ensures item.None? ==> old(Remaining()) == [] == Remaining()
      ensures item.Some? ==> old(Remaining()) == Remaining() + [item.value]
      ensures item.Some? && front == StartDir ==>
                && at + |Spelling(item.value)| <= |old(path)|
                && var used := old(path)[..at + |Spelling(item.value)|];
                && Trimmed(used) && Parse(used) == old(Remaining())
    {
      hide Cursor.Valid, Cursor.Remaining, Cursor.ParseNextBack, Cursor.LenBeforeBody, Parse, Body,
        Trimmed, ParseSingle, LastPiece, Start, Dotted, Rooted;
      at := 0;
      while !View().Finished()
        invariant Valid() && Remaining() == old(Remaining())
        invariant front == old(front) && path <= old(path)
        decreases if back == InBody then 2 else if back == StartDir then 1 else 0, |path|
      {
        assert path == old(path)[..|path|];
        View().FreshRemaining();
        match back {
          case InBody =>
            if |path| > View().LenBeforeBody() {
              View().StepBack();
              var (size, comp) := View().ParseNextBack();
              if comp.Some? {
                View().RealPieceBack();
                at := |path| - |Spelling(comp.value)|;
              }
              path := path[..|path| - size];
              if comp.Some? {
                return comp, at;
              }
            } else {
              View().CloseBack();
              back := StartDir;
            }
          case StartDir =>
            View().CloseBack();
            back := Done;
            if rooted {
              path := path[..|path| - 1];
              return Some(RootDir), 0;
            } else if View().IncludeCurDir() {
              path := path[..|path| - 1];
              return Some(CurDir), 0;
            }
        }
      }
      View().FinishedIsEmpty();
      return None, at;
    }
  }

  lemma ReversePush(s: seq<Component>, x: Component)
    ensures Reverse(s + [x]) == [x] + Reverse(s)
  {
  }

  /**
   Every interleaving: `script` says which end to take from. What comes out of the front is a prefix of
   the component list, what comes out of the back is a suffix in reverse, the bytes left re-parse to
   exactly the middle, and the two ends stop only when the list is used up.
   */
  method Interleave(s: Bytes, script: seq<bool>) returns (fronts: seq<Component>, backs: seq<Component>, rest: Bytes)
    ensures fronts + Parse(rest) + Reverse(backs) == Parse(s)
    ensures |fronts| + |backs| == if |script| < |Parse(s)| then |script| else |Parse(s)|
  {
    hide Parse, Cursor.Valid, Cursor.Remaining, Reverse;
    var comps := new Components(s);
    fronts, backs := [], [];
    for i := 0 to |script|
      invariant comps.Valid()
      invariant fronts + comps.Remaining() + Reverse(backs) == Parse(s)
      invariant |fronts| + |backs| == if i < |Parse(s)| then i else |Parse(s)|
    {
      ghost var left := comps.Remaining();
      if script[i] {
        var item := comps.Next();
        if item.Some? {
          ConcatAssoc(fronts, [item.value], comps.Remaining());
          fronts := fronts + [item.value];
        }
      } else {
        var item, _ := comps.NextBack();
        if item.Some? {
          ReversePush(backs, item.value);
          ConcatAssoc(fronts, comps.Remaining(), [item.value]);
          ConcatAssoc(fronts + comps.Remaining(), [item.value], Reverse(backs));
          backs := backs + [item.value];
        }
      }
    }
    rest := comps.AsPath();
  }
}
