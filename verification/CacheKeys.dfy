/**
 The keys of the directory cache. A key is built by pushing one name after another onto `/`; whether it
 still says which names went in depends on the separator rule of `push`.
 */
module CacheKeys {
  import opened Prelude
  import opened PathSpec
  import opened Paths
  import opened PathBuffers

  /** What a path component after the root can be written as. */
  predicate IsPiece(b: Bytes) {
    b != [] && SEPARATOR !in b && b != [DOT]
  }

  ghost predicate Pieces(names: seq<Component>) {
    forall c :: c in names ==> IsPiece(Spelling(c)) && ParseSingle(Spelling(c)) == Some(c)
  }

  /** `base` with one component after another pushed onto it. */
  ghost function PushAll(rule: SepRule, base: Bytes, names: seq<Component>): Bytes {
    if names == [] then base
    else
      var last := |names| - 1;
      PushSpec(rule, PushAll(rule, base, names[..last]), Spelling(names[last]))
  }

  /** The key under which the entry reached by `names` is stored. */
  ghost function Key(rule: SepRule, names: seq<Component>): Bytes {
    PushAll(rule, [SEPARATOR], names)
  }

  lemma {:induction false} PushAllJoin(rule: SepRule, base: Bytes, a: seq<Component>, b: seq<Component>)
    ensures PushAll(rule, base, a + b) == PushAll(rule, PushAll(rule, base, a), b)
    decreases |b|
  {
    hide PushSpec, Spelling;
    if b == [] {
      assert a + b == a;
    } else {
      var last := |b| - 1;
      PushAllJoin(rule, base, a, b[..last]);
      assert (a + b)[..|a + b| - 1] == a + b[..last];
    }
  }

  lemma PushAllFirst(rule: SepRule, base: Bytes, names: seq<Component>)
    requires names != []
    ensures PushAll(rule, base, names) == PushAll(rule, PushSpec(rule, base, Spelling(names[0])), names[1..])
  {
    hide PushSpec, Spelling;
    var first := names[..1];
    PushAllJoin(rule, base, first, names[1..]);
    assert names == first + names[1..] && first[..0] == [] && first[0] == names[0];
    assert PushAll(rule, base, first) == PushSpec(rule, base, Spelling(names[0]));
  }

  function Spelled(names: seq<Component>): Bytes {
    if names == [] then [] else Spelling(names[0]) + Spelled(names[1..])
  }

  /** Every component after the start of a path is such a piece. */
  lemma ParsePieces(s: Bytes, m: nat)
    requires m <= |Parse(s)| && (m > 0 || Start(s) == [])
    ensures Pieces(Parse(s)[m..])
  {
    ParseNames(s);
    hide Parse;
  }

  /** By the rule of the comment a key parses back to the names it was built from. */
  lemma {:induction false} KeyRoundTrip(names: seq<Component>)
    requires Pieces(names)
    ensures Parse(Key(AsCommented, names)) == [RootDir] + names
    decreases |names|
  {
    hide Parse, Body;
    if names == [] {
      RootParse();
    } else {
      var last := |names| - 1;
      KeyRoundTrip(names[..last]);
      var parent, name := Key(AsCommented, names[..last]), Spelling(names[last]);
      PushAsCommented(parent, name);
      BodyPiece(name);
      EmptyMeansNothing(parent);
      assert names == names[..last] + [names[last]];
    }
  }

  lemma RootParse()
    ensures Parse([SEPARATOR]) == [RootDir]
  {
    BodyEmpty();
    assert [SEPARATOR][1..] == [];
  }

  lemma EmptyMeansNothing(s: Bytes)
    requires Parse(s) != []
    ensures s != []
  {
    BodyEmpty();
  }

  lemma {:induction false} SpelledJoin(names: seq<Component>, c: Component)
    ensures Spelled(names + [c]) == Spelled(names) + Spelling(c)
  {
    if names != [] {
      SpelledJoin(names[1..], c);
      assert (names + [c])[1..] == names[1..] + [c];
    }
  }

  lemma {:induction false} SpelledPieces(names: seq<Component>)
    requires Pieces(names)
    ensures SEPARATOR !in Spelled(names)
    ensures |Spelled(names)| >= |names|
    ensures names != [] ==> IsPiece(Spelled(names))
  {
    if names != [] {
      assert names[0] in names;
      SpelledPieces(names[1..]);
    }
  }

  /** By the rule of the code the names run together after two separators. */
  lemma {:induction false} KeyAsWritten(names: seq<Component>)
    requires Pieces(names) && names != []
    ensures Key(AsWritten, names) == [SEPARATOR, SEPARATOR] + Spelled(names)
    decreases |names|
  {
    hide Spelling, PushSpec;
    var last := |names| - 1;
    var shorter := names[..last];
    assert names == shorter + [names[last]];
    SpelledJoin(shorter, names[last]);
    if shorter == [] {
      FirstAsWritten(Spelling(names[last]));
      assert Spelled(shorter) == [] && Key(AsWritten, shorter) == [SEPARATOR];
    } else {
      KeyAsWritten(shorter);
      SpelledPieces(shorter);
      assert names[last] in names;
      GlueAsWritten(Spelled(shorter), Spelling(names[last]));
    }
  }

  lemma FirstAsWritten(name: Bytes)
    requires name == [] || name[0] != SEPARATOR
    ensures PushSpec(AsWritten, [SEPARATOR], name) == [SEPARATOR, SEPARATOR] + name
  {
    assert [SEPARATOR] + [SEPARATOR] + name == [SEPARATOR, SEPARATOR] + name;
  }

  /** Behind a name, the rule of the code adds no separator. */
  lemma GlueAsWritten(names: Bytes, name: Bytes)
    requires names != [] && SEPARATOR !in names && name != [] && SEPARATOR !in name
    ensures PushSpec(AsWritten, [SEPARATOR, SEPARATOR] + names, name) == [SEPARATOR, SEPARATOR] + (names + name)
  {
    var a := [SEPARATOR, SEPARATOR] + names;
    assert a[|a| - 1] == names[|names| - 1];
    ConcatAssoc([SEPARATOR, SEPARATOR], names, name);
  }

  /** A key that could have been built from two names as well as from one. */
  predicate AliasedAt(a: Bytes, i: nat) {
    && 2 <= i <= |a| && a[0] == SEPARATOR && a[1] == SEPARATOR
    && IsPiece(a[2..i]) && IsPiece(a[i..])
  }

  ghost predicate Aliased(a: Bytes) {
    exists i :: AliasedAt(a, i)
  }

  lemma AliasBytes(first: Bytes, rest: Bytes)
    requires IsPiece(first) && IsPiece(rest)
    ensures AliasedAt([SEPARATOR, SEPARATOR] + (first + rest), 2 + |first|)
  {
    var key := [SEPARATOR, SEPARATOR] + (first + rest);
    assert key[2..2 + |first|] == first && key[2 + |first|..] == rest;
  }

  lemma TwoNamesAlias(names: seq<Component>)
    requires Pieces(names) && |names| > 1
    ensures Aliased(Key(AsWritten, names))
  {
    hide Key, IsPiece, AliasedAt;
    KeyAsWritten(names);
    assert names[0] in names && Pieces(names[1..]);
    SpelledPieces(names[1..]);
    AliasBytes(Spelling(names[0]), Spelled(names[1..]));
  }

  lemma SpelledShort(y: Component, z: Component)
    ensures Spelled([y]) == Spelling(y)
    ensures Spelled([y, z]) == Spelling(y) + Spelling(z)
  {
    SpelledJoin([], y);
    SpelledJoin([y], z);
    assert [] + [y] == [y] && [y] + [z] == [y, z];
    assert Spelled([]) == [];
  }

  /** A key of the code's rule still says which names went in, unless it is aliased. */
  lemma KeyFaithful(rule: SepRule, names: seq<Component>)
    requires Pieces(names)
    requires rule == AsWritten ==> !Aliased(Key(rule, names))
    ensures Parse(Key(rule, names)) == [RootDir] + names
  {
    hide Parse, Aliased;
    if rule == AsCommented {
      KeyRoundTrip(names);
    } else if names == [] {
      RootParse();
    } else if |names| > 1 {
      TwoNamesAlias(names);
    } else {
      assert names == [names[0]];
      KeyAsWritten(names);
      OneName(names[0]);
      SpelledShort(names[0], names[0]);
    }
  }

  lemma OneName(c: Component)
    requires Pieces([c])
    ensures Parse([SEPARATOR, SEPARATOR] + Spelling(c)) == [RootDir, c]
  {
    hide Body;
    assert c in [c];
    var s := [SEPARATOR, SEPARATOR] + Spelling(c);
    BodyEmpty();
    BodyPiece(Spelling(c));
    BodyJoin([], Spelling(c));
    assert s[1..] == [] + [SEPARATOR] + Spelling(c);
  }

  /** The component a piece stands for. */
  function PieceOf(b: Bytes): (c: Component)
    requires IsPiece(b)
    ensures Spelling(c) == b && ParseSingle(b) == Some(c)
  {
    ParseSingle(b).value
  }

  /** The two readings of an aliased key: two names run together, or one longer name. */
  lemma AliasedKey(a: Bytes, i: nat)
    requires AliasedAt(a, i)
    ensures Pieces([PieceOf(a[2..i]), PieceOf(a[i..])])
    ensures Key(AsWritten, [PieceOf(a[2..i]), PieceOf(a[i..])]) == a
    ensures IsPiece(a[2..]) && Parse(a) == [RootDir, PieceOf(a[2..])]
  {
    hide Key, Parse, Spelling, ParseSingle, PieceOf;
    var y, z := PieceOf(a[2..i]), PieceOf(a[i..]);
    assert a[2..] == a[2..i] + a[i..];
    var x := PieceOf(a[2..]);
    KeyAsWritten([y, z]);
    SpelledShort(y, z);
    assert a == [SEPARATOR, SEPARATOR] + a[2..];
    assert Pieces([x]);
    OneName(x);
  }

  lemma TwoNamePath(y: Component, z: Component)
    requires Pieces([y, z])
    ensures Parse([SEPARATOR] + Spelling(y) + [SEPARATOR] + Spelling(z)) == [RootDir, y, z]
  {
    hide Parse, Body, Spelling, ParseSingle;
    assert y in [y, z] && z in [y, z];
    RootParse();
    ParseLast([SEPARATOR], Spelling(y));
    JoinWithSeparator([SEPARATOR] + Spelling(y), Spelling(z));
    BodyPiece(Spelling(z));
  }

  /** Every key is absolute, only `/` is the root's, and the code's rule never makes a key of three components. */
  lemma KeyShape(rule: SepRule, names: seq<Component>)
    requires Pieces(names)
    ensures Rooted(Key(rule, names))
    ensures names != [] ==> |Parse(Key(rule, names))| > 1
    ensures rule == AsWritten ==> |Parse(Key(rule, names))| <= 2
  {
    hide Parse;
    if rule == AsCommented {
      KeyRoundTrip(names);
      RootFirst(Key(rule, names));
    } else if names == [] {
      RootParse();
    } else {
      KeyAsWritten(names);
      SpelledPieces(names);
      assert Pieces([PieceOf(Spelled(names))]);
      OneName(PieceOf(Spelled(names)));
    }
  }

  lemma RootFirst(s: Bytes)
    requires Parse(s) != [] && Parse(s)[0] == RootDir
    ensures Rooted(s)
  {
    hide Body;
    ParseNames(s);
  }

  /** A lookup of `p` may stop at an aliased key. */
  ghost predicate Ambiguous(p: Bytes) {
    exists m, a :: IsAncestor(p, m, a) && Aliased(a)
  }

  /** Paths whose ancestors end in `/`: absolute, and either with a component after the root or `/` itself. */
  predicate Servable(p: Bytes) {
    Rooted(p) && (|Parse(p)| > 1 || p == [SEPARATOR])
  }

  lemma ServableReachesRoot(p: Bytes)
    requires Servable(p)
    ensures IsAncestor(p, 1, [SEPARATOR])
  {
    hide Body;
    RootParse();
    if |Parse(p)| > 1 {
      assert Parse(p)[..1] == [RootDir];
      assert [SEPARATOR][1..] == [];
    }
  }
}
