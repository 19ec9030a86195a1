/**
 Stems and extensions (kernel/src/fs/path/mod.rs) and the owned, mutable path
 (kernel/src/fs/path/pathbuf.rs).
 */
module PathBuffers {
  import opened Prelude
  import opened PathSpec
  import opened PathComponents
  import opened Paths

  /** One past the last dot of `file`, or 0. */
  function AfterLastDot(file: Bytes): (k: nat)
    ensures k <= |file| && DOT !in file[k..]
    ensures k > 0 ==> file[k - 1] == DOT
  {
    if file == [] then 0
    else if file[|file| - 1] == DOT then |file|
    else AfterLastDot(file[..|file| - 1])
  }

  function RsplitFileAtDot(file: Bytes): (Option<Bytes>, Option<Bytes>) {
    var k := AfterLastDot(file);
    if file == [DOT, DOT] then (Some(file), None)
    else if k == 0 then (None, Some(file))
    else if file[..k - 1] == [] then (Some(file), None)
    else (Some(file[..k - 1]), Some(file[k..]))
  }

  /** `before.or(after)`. */
  function StemOfName(file: Bytes): Bytes {
    var (before, after) := RsplitFileAtDot(file);
    if before.Some? then before.value else if after.Some? then after.value else []
  }

  /** `before.and(after)`. */
  function ExtensionOfName(file: Bytes): Option<Bytes> {
    var (before, after) := RsplitFileAtDot(file);
    if before.Some? then after else None
  }

  function ExtensionOf(s: Bytes): Option<Bytes> {
    if FileOf(s).Some? then ExtensionOfName(FileOf(s).value) else None
  }

  function StemOf(s: Bytes): Option<Bytes> {
    if FileOf(s).Some? then Some(StemOfName(FileOf(s).value)) else None
  }

  function DotExtension(e: Bytes): Bytes {
    if e == [] then [] else [DOT] + e
  }

  /** Stem and extension give the name back; the extension has no dot and the stem is not empty. */
  lemma SplitName(file: Bytes)
    requires IsName(file)
    ensures var x := ExtensionOfName(file);
      && StemOfName(file) != []
      && (x.None? ==> file == StemOfName(file))
      && (x.Some? ==> file == StemOfName(file) + [DOT] + x.value && DOT !in x.value)
  {
    var k := AfterLastDot(file);
    if k > 0 {
      assert file == file[..k - 1] + [DOT] + file[k..];
    }
  }

  lemma {:induction false} LastDotOfJoin(a: Bytes, x: Bytes)
    requires DOT !in x
    ensures AfterLastDot(a + [DOT] + x) == |a| + 1
  {
    var s := a + [DOT] + x;
    if x != [] {
      LastDotOfJoin(a, x[..|x| - 1]);
      assert s[..|s| - 1] == a + [DOT] + x[..|x| - 1];
    }
  }

  /** The only way to split a name: at its last dot, unless that leaves nothing before it. */
  lemma JoinName(stem: Bytes, x: Bytes)
    requires stem != [] && DOT !in x && stem + [DOT] + x != [DOT, DOT]
    ensures StemOfName(stem + [DOT] + x) == stem && ExtensionOfName(stem + [DOT] + x) == Some(x)
  {
    LastDotOfJoin(stem, x);
    var file := stem + [DOT] + x;
    assert file[..|stem|] == stem && file[|stem| + 1..] == x;
  }

  // ---------------------------------------------------------------- set_extension

  /** The path with the name's extension replaced and the meaningless bytes after the name gone. */
  function SetExtensionSpec(s: Bytes, e: Bytes): Bytes {
    var name := FileOf(s);
    if name.None? then s
    else
      var t := Trim(s);
      if |name.value| > |t| then s
      else t[..|t| - |name.value|] + StemOfName(name.value) + DotExtension(e)
  }

  lemma SetExtensionBytes(s: Bytes, e: Bytes) returns (p: Bytes, name: Bytes)
    requires FileOf(s).Some?
    ensures FileOf(s) == Some(name) && IsName(name) && Trim(s) == p + name
    ensures p == [] || p[|p| - 1] == SEPARATOR
    ensures Parse(p) == Parse(s)[..|Parse(s)| - 1]
    ensures SetExtensionSpec(s, e) == p + StemOfName(name) + DotExtension(e)
  {
    hide Parse, Trim, StemOfName;
    p, name := FileNameEnds(s);
    assert (p + name)[..|p|] == p;
  }

  /** For an extension without separators the last component changes its extension and nothing else changes. */
  lemma SetExtensionMeaning(s: Bytes, e: Bytes)
    requires FileOf(s).Some? && e != [] && SEPARATOR !in e
    ensures var name := StemOf(s).value + [DOT] + e;
      IsName(name) && Parse(SetExtensionSpec(s, e)) == Parse(s)[..|Parse(s)| - 1] + [Normal(name)]
  {
    hide Parse, Trim, SetExtensionSpec, StemOfName, ParseSingle;
    var p, name := SetExtensionBytes(s, e);
    var renamed := StemOfName(name) + [DOT] + e;
    ExtendedName(name, e);
    ParseLast(p, renamed);
    ConcatAssoc(StemOfName(name), [DOT], e);
    ConcatAssoc(p, StemOfName(name), [DOT] + e);
  }

  lemma ExtendedName(name: Bytes, e: Bytes)
    requires IsName(name) && e != [] && SEPARATOR !in e
    ensures var renamed := StemOfName(name) + [DOT] + e;
      IsName(renamed) && ParseSingle(renamed) == Some(Normal(renamed))
  {
    hide StemOfName;
    SplitName(name);
    NameParts(name);
  }

  lemma NameParts(name: Bytes)
    requires IsName(name)
    ensures SEPARATOR !in StemOfName(name)
    ensures ExtensionOfName(name).Some? ==> SEPARATOR !in ExtensionOfName(name).value
  {
  }

  /**
   `extension` reads back what `set_extension` wrote exactly when the new extension holds neither a dot
   nor a separator; then the stem and the components before the name are unchanged.
   */
  lemma SetExtensionReadBack(s: Bytes, e: Bytes)
    requires FileOf(s).Some? && e != []
    ensures ExtensionOf(SetExtensionSpec(s, e)) == Some(e) <==> DOT !in e && SEPARATOR !in e
    ensures DOT !in e && SEPARATOR !in e ==>
      && StemOf(SetExtensionSpec(s, e)) == StemOf(s)
      && |Parse(SetExtensionSpec(s, e))| == |Parse(s)|
      && Parse(SetExtensionSpec(s, e))[..|Parse(s)| - 1] == Parse(s)[..|Parse(s)| - 1]
  {
    hide Parse, Trim, SetExtensionSpec, StemOfName, ExtensionOfName;
    var r := SetExtensionSpec(s, e);
    FileOfIsName(s);
    FileOfIsName(r);
    if FileOf(r).Some? {
      NameParts(FileOf(r).value);
      SplitName(FileOf(r).value);
    }
    if SEPARATOR !in e {
      SetExtensionMeaning(s, e);
      if DOT !in e {
        SplitName(FileOf(s).value);
        JoinName(StemOf(s).value, e);
      }
    }
  }

  /** Clearing the extension leaves the stem as the last component, unless the stem is `.` or `..`. */
  lemma SetExtensionCleared(s: Bytes)
    requires FileOf(s).Some?
    ensures Parse(SetExtensionSpec(s, [])) == Parse(s)[..|Parse(s)| - 1] + [Normal(StemOf(s).value)]
      <==> StemOf(s).value != [DOT] && StemOf(s).value != [DOT, DOT]
  {
    hide Parse, Trim, SetExtensionSpec, StemOfName, ExtensionOfName, IsName, DotExtension, FileOf;
    var p, name := SetExtensionBytes(s, []);
    SplitName(name);
    NameParts(name);
    DotJoin(p + StemOfName(name), []);
    StemIsLast(p, StemOfName(name));
  }

  lemma StemIsLast(p: Bytes, stem: Bytes)
    requires stem != [] && SEPARATOR !in stem && (p == [] || p[|p| - 1] == SEPARATOR)
    ensures Parse(p + stem) == Parse(p) + [Normal(stem)] <==> stem != [DOT] && stem != [DOT, DOT]
  {
    hide Parse;
    var more := Parse(p) + [Normal(stem)];
    assert more[|Parse(p)|] == Normal(stem);
    if stem == [DOT] {
      FileOfIsName(p + stem);
    } else {
      ParseLast(p, stem);
      assert (Parse(p) + Listed(ParseSingle(stem)))[|Parse(p)|] == ParseSingle(stem).value;
    }
  }

  lemma DotJoin(a: Bytes, e: Bytes)
    ensures e == [] ==> a + DotExtension(e) == a
    ensures e != [] ==> a + DotExtension(e) == a + [DOT] + e
  {
  }

  // ---------------------------------------------------------------- with_extension

  predicate Continuation(b: u8) {
    0x80 <= b <= 0xBF
  }

  /** Where a string may be sliced: not inside a character of several bytes. */
  predicate IsBoundary(s: Bytes, i: nat) {
    i == 0 || i == |s| || (i < |s| && !Continuation(s[i]))
  }

  /** What is left after cutting the length of the old extension off the whole string, with a new extension. */
  function CutSpec(s: Bytes, e: Bytes): Bytes {
    var x := ExtensionOf(s);
    if x.Some? && |x.value| <= |s| then SetExtensionSpec(s[..|s| - |x.value|], e) else SetExtensionSpec(s, e)
  }

  /** `with_extension` makes that cut, trailing bytes and all, and panics inside a character. */
  function WithExtensionSpec(s: Bytes, e: Bytes): Option<Bytes> {
    var x := ExtensionOf(s);
    if x.Some? && |x.value| <= |s| && !IsBoundary(s, |s| - |x.value|) then None else Some(CutSpec(s, e))
  }

  /**
   The cut falls inside a character: there are fewer bytes after the name than in its extension, and the one it
   lands on goes on a character.
   */
  predicate CutsCharacter(s: Bytes) {
    var x := ExtensionOf(s);
    x.Some? && |s| - |Trim(s)| < |x.value| && Continuation(x.value[|s| - |Trim(s)|])
  }

  /**
   `with_extension` gives the string `set_extension` gives exactly when the cut does not fall inside a
   character, and the name is not a single dot with an extension that ends the string: there the cut
   leaves `..`, which is no name.
   */
  lemma WithExtensionAgrees(s: Bytes, e: Bytes)
    ensures WithExtensionSpec(s, e) == Some(SetExtensionSpec(s, e))
       <==> !(StemOf(s) == Some([DOT]) && Trim(s) == s) && !CutsCharacter(s)
  {
    hide Parse, Trim, SetExtensionSpec, StemOfName, ExtensionOfName, IsBoundary, CutsCharacter, CutSpec;
    CutAgrees(s, e);
    WithExtensionPanics(s, e);
  }

  /** It panics exactly when the cut falls inside a character. */
  lemma WithExtensionPanics(s: Bytes, e: Bytes)
    ensures WithExtensionSpec(s, e).None? <==> CutsCharacter(s)
  {
    hide Parse, Trim, SetExtensionSpec, StemOfName, ExtensionOfName, CutSpec;
    ExtensionFits(s);
    if ExtensionOf(s).Some? {
      CutLands(s);
    }
  }

  /** The byte after the cut. */
  lemma CutLands(s: Bytes)
    requires ExtensionOf(s).Some?
    ensures var x, junk := ExtensionOf(s).value, |s| - |Trim(s)|;
      && 0 < |s| - |x|
      && (junk < |x| ==> s[|s| - |x|] == x[junk])
      && (junk >= |x| > 0 ==> s[|s| - |x|] == SEPARATOR || s[|s| - |x|] == DOT)
  {
    hide Parse, Trim, Trimmed, Start, StemOfName, ExtensionOfName, IsName;
    var p, name := FileNameEnds(s);
    var stem, x := StemOfName(name), ExtensionOfName(name).value;
    SplitName(name);
    TrimTail(s);
    var junk := |s| - |p + name|;
    if junk < |x| {
      assert (p + (stem + [DOT] + x))[|p| + |stem| + 1 + junk] == x[junk];
    }
  }

  /** The two bytes of an accented letter, alone as the extension of a name. */
  const LETTER: Bytes := [0xC3, 0xA9]
  const LETTER_NAME: Bytes := [0x61, DOT, 0xC3, 0xA9]

  lemma LetterName()
    ensures IsName(LETTER_NAME) && ExtensionOfName(LETTER_NAME) == Some(LETTER)
    ensures SEPARATOR !in LETTER_NAME && ParseSingle(LETTER_NAME) == Some(Normal(LETTER_NAME))
  {
    assert LETTER_NAME == [0x61] + [DOT] + LETTER;
    JoinName([0x61], LETTER);
  }

  lemma NameThenSeparator(name: Bytes)
    requires IsName(name) && SEPARATOR !in name && ParseSingle(name) == Some(Normal(name))
    ensures FileOf(name + [SEPARATOR]) == Some(name) && Trim(name + [SEPARATOR]) == name
  {
    hide Trim, Trimmed, Body, Start;
    var s := name + [SEPARATOR];
    assert [] + name == name && s == name + [SEPARATOR] + [];
    ParseLast([], name);
    EmptyParts();
    JoinWithSeparator(name, []);
    TrimIsUnique(name, s);
  }

  lemma EmptyParts()
    ensures Parse([]) == [] && Body([]) == []
  {
    BodyEmpty();
  }

  /**
   A letter of two bytes as extension, and a separator behind it: the cut of two bytes lands between those of the
   letter.
   */
  lemma WithExtensionCutsLetter(e: Bytes)
    ensures WithExtensionSpec(LETTER_NAME + [SEPARATOR], e) == None
  {
    hide SetExtensionSpec, Trim, Parse, WithExtensionSpec, FileOf, ExtensionOfName;
    LetterName();
    NameThenSeparator(LETTER_NAME);
    var s := LETTER_NAME + [SEPARATOR];
    assert ExtensionOf(s) == Some(LETTER) && |s| - |Trim(s)| == 1;
    WithExtensionPanics(s, e);
  }

  /** The cut `set_extension` makes is next to a dot, a separator or the end, never inside a character. */
  lemma SetExtensionOnBoundary(s: Bytes, at: nat)
    requires FileOf(s).Some? && at + |FileOf(s).value| == |Trim(s)|
    ensures IsBoundary(s, at + |StemOf(s).value|)
  {
    hide Parse, Trim, Trimmed, Start, StemOfName, ExtensionOfName, IsName;
    var p, name := FileNameEnds(s);
    SplitName(name);
    TrimTail(s);
    if ExtensionOfName(name).Some? {
      assert (p + name)[|p| + |StemOfName(name)|] == DOT;
    }
  }

  lemma CutAgrees(s: Bytes, e: Bytes)
    ensures CutSpec(s, e) == SetExtensionSpec(s, e) <==> !(StemOf(s) == Some([DOT]) && Trim(s) == s)
  {
    hide Parse, Trim, SetExtensionSpec, StemOfName, ExtensionOfName;
    if ExtensionOf(s).Some? {
      WithExtensionCut(s, e);
    } else if FileOf(s).Some? {
      FileOfIsName(s);
      SplitName(FileOf(s).value);
    }
  }

  lemma WithExtensionCut(s: Bytes, e: Bytes)
    requires ExtensionOf(s).Some?
    ensures CutSpec(s, e) == SetExtensionSpec(s, e) <==> !(StemOf(s) == Some([DOT]) && Trim(s) == s)
  {
    hide Parse, Trim, Trimmed, Start, SetExtensionSpec, StemOfName, ExtensionOfName, IsName, DotExtension;
    var p, name := SetExtensionBytes(s, e);
    var x := ExtensionOfName(name).value;
    SplitName(name);
    var junk := |s| - |p + name|;
    if junk >= |x| {
      if StemOfName(name) == [DOT] {
        DotStem(name);
      }
      CutInTail(s, s[..|s| - |x|], e, p, name);
    } else {
      CutBytes(s, p, StemOfName(name), x);
      CutInName(p, name, junk, e);
    }
  }

  lemma DotStem(name: Bytes)
    requires IsName(name) && ExtensionOfName(name).Some? && StemOfName(name) == [DOT]
    ensures ExtensionOfName(name).value != []
  {
    hide StemOfName, ExtensionOfName;
    SplitName(name);
  }

  /** There the cut leaves `..`, which has no extension to set: the rest is dropped and nothing is added. */
  lemma DotStemCut(s: Bytes, e: Bytes)
    ensures StemOf(s) == Some([DOT]) && Trim(s) == s ==>
      ExtensionOf(s).Some? && |ExtensionOf(s).value| <= |s| && CutSpec(s, e) == s[..|s| - |ExtensionOf(s).value|]
  {
    hide Parse, Trim, StemOfName, ExtensionOfName, CutSpec;
    if StemOf(s) == Some([DOT]) && Trim(s) == s {
      DotStemLeft(s, e);
    }
  }

  lemma DotStemLeft(s: Bytes, e: Bytes)
    requires StemOf(s) == Some([DOT]) && Trim(s) == s
    ensures ExtensionOf(s).Some? && |ExtensionOf(s).value| <= |s|
    ensures CutSpec(s, e) == s[..|s| - |ExtensionOf(s).value|]
  {
    hide Parse, Trim, SetExtensionSpec, StemOfName, ExtensionOfName, Trimmed;
    var p, name := SetExtensionBytes(s, e);
    SplitName(name);
    var x := ExtensionOfName(name).value;
    var cut := p + [DOT, DOT];
    assert s == p + ([DOT] + [DOT] + x) && s[..|s| - |x|] == cut;
    ParseLast(p, [DOT, DOT]);
    NoFileName(cut, e);
  }

  lemma CutBytes(s: Bytes, p: Bytes, stem: Bytes, x: Bytes)
    requires p + (stem + [DOT] + x) <= s
    requires |s| - |p + (stem + [DOT] + x)| < |x|
    ensures var junk := |s| - |p + (stem + [DOT] + x)|;
      s[..|s| - |x|] == p + (stem + [DOT] + x[..junk])
  {
  }

  /** The cut falls into the bytes after the name. */
  lemma CutInTail(s: Bytes, u: Bytes, e: Bytes, p: Bytes, name: Bytes)
    requires FileOf(s) == Some(name) && Trim(s) == p + name && p + name <= u <= s
    ensures SetExtensionSpec(u, e) == SetExtensionSpec(s, e)
  {
    hide Parse, Body, Trim;
    assert |Trim(s)| > |Start(s)| by { FileNotStart(Trim(s)); }
    TailMeansNothing(s, u);
    assert FileOf(u) == FileOf(s);
  }

  /** The cut falls into the extension: what is left of the name still has the same stem, unless it is `..`. */
  lemma CutInName(p: Bytes, name: Bytes, kept: nat, e: Bytes)
    requires IsName(name) && ExtensionOfName(name).Some? && kept < |ExtensionOfName(name).value|
    requires p == [] || p[|p| - 1] == SEPARATOR
    ensures var u := p + (StemOfName(name) + [DOT] + ExtensionOfName(name).value[..kept]);
      SetExtensionSpec(u, e) == p + StemOfName(name) + DotExtension(e) <==> !(StemOfName(name) == [DOT] && kept == 0)
  {
    hide Parse, Trim, SetExtensionSpec, StemOfName, ExtensionOfName, Trimmed;
    var stem, x := StemOfName(name), ExtensionOfName(name).value[..kept];
    SplitName(name);
    NameParts(name);
    var left := stem + [DOT] + x;
    var u := p + left;
    ParseLast(p, left);
    if left == [DOT, DOT] {
      NoFileName(u, e);
      assert stem == left[..1] && x == left[2..];
    } else {
      JoinName(stem, x);
      TrimIsUnique(u, u);
      ShortName(u, p, left, e);
    }
  }

  lemma NoFileName(u: Bytes, e: Bytes)
    requires FileOf(u).None?
    ensures SetExtensionSpec(u, e) == u
  {
    hide Parse, Trim;
  }

  lemma ShortName(u: Bytes, p: Bytes, name: Bytes, e: Bytes)
    requires u == p + name && Trim(u) == u && FileOf(u) == Some(name)
    ensures SetExtensionSpec(u, e) == p + StemOfName(name) + DotExtension(e)
  {
    hide Parse, Trim;
    assert u[..|p|] == p;
  }

  // ---------------------------------------------------------------- push

  /** When `push` adds a separator: the code asks for a last byte that is one, its comment for one that is not. */
  datatype SepRule = AsWritten | AsCommented

  predicate NeedSeparator(rule: SepRule, a: Bytes) {
    a != [] && if rule == AsWritten then a[|a| - 1] == SEPARATOR else a[|a| - 1] != SEPARATOR
  }

  function PushSpec(rule: SepRule, a: Bytes, b: Bytes): Bytes {
    if Rooted(b) then b
    else if NeedSeparator(rule, a) then a + [SEPARATOR] + b
    else a + b
  }

  /** What stands between a path and a relative one pushed onto it: at most one separator. */
  function Between(rule: SepRule, a: Bytes): (r: Bytes)
    ensures r == [] || r == [SEPARATOR]
    ensures r == [] <==> a == [] || (a[|a| - 1] == SEPARATOR <==> rule == AsCommented)
  {
    if NeedSeparator(rule, a) then [SEPARATOR] else []
  }

  /** An absolute path replaces the buffer; a relative one is appended, with `Between` in front. */
  lemma PushIs(rule: SepRule, a: Bytes, b: Bytes)
    ensures Rooted(b) ==> PushSpec(rule, a, b) == b
    ensures !Rooted(b) ==> PushSpec(rule, a, b) == a + Between(rule, a) + b
  {
  }

  /** What pushing a relative path is meant to do: a leading `.` of `b` survives only in front of everything. */
  ghost function Joined(a: Bytes, b: Bytes): seq<Component> {
    if a == [] then Parse(b) else Parse(a) + Body(b)
  }

  lemma JoinWithSeparator(a: Bytes, b: Bytes)
    requires a != []
    ensures Parse(a + [SEPARATOR] + b) == Joined(a, b)
  {
    hide Body;
    var l := |Start(a)|;
    var s := a + [SEPARATOR] + b;
    assert Start(s) == Start(a);
    assert s[l..] == a[l..] + [SEPARATOR] + b;
    BodyJoin(a[l..], b);
  }

  /** A last byte that is a separator serves as the one between. */
  lemma JoinAfterSeparator(a: Bytes, b: Bytes)
    requires a != [] && a[|a| - 1] == SEPARATOR
    ensures Parse(a + b) == Joined(a, b)
  {
    hide Body;
    BodyEmpty();
    var c := a[..|a| - 1];
    assert a == c + [SEPARATOR] + [];
    assert a + b == c + [SEPARATOR] + b;
    if c == [] {
      assert (a + b)[1..] == b && a[1..] == [];
    } else {
      JoinWithSeparator(c, b);
      JoinWithSeparator(c, []);
    }
  }

  /** Two pieces run together are never what the two of them stand for. */
  lemma GluedPieces(x: Bytes, y: Bytes)
    requires x != [] && y != []
    ensures ParseSingle(x + y).Some?
    ensures Listed(ParseSingle(x + y)) != Listed(ParseSingle(x)) + Listed(ParseSingle(y))
  {
    var p, q := ParseSingle(x), ParseSingle(y);
    assert p.Some? ==> Spelling(p.value) == x;
    assert q.Some? ==> Spelling(q.value) == y;
    assert Spelling(ParseSingle(x + y).value) == x + y;
    var one := Listed(ParseSingle(x + y));
    if p.Some? && q.None? {
      assert one[0] != (Listed(p) + Listed(q))[0];
    } else if p.None? && q.Some? {
      assert one[0] != (Listed(p) + Listed(q))[0];
    }
  }

  /** Without a separator between them, the last piece of `a` and the first of `b` become one. */
  lemma GluedBody(a: Bytes, b: Bytes)
    requires a != [] && a[|a| - 1] != SEPARATOR && b != [] && b[0] != SEPARATOR
    ensures Body(a + b) != Body(a) + Body(b)
  {
    hide Body, ParseSingle, FirstPiece, LastPiece;
    var k, i := LastPiece(a), FirstPiece(b);
    EndsArePieces(a, b);
    BodyLast(a[..k], a[k..]);
    assert a == a[..k] + a[k..];
    BodyFront(b);
    GluedPieces(a[k..], b[..i]);
    GluedParts(a, b, k, i);
    var rest := if i < |b| then b[i + 1..] else [];
    DifferInside(Body(a[..k]), Listed(ParseSingle(a[k..] + b[..i])), Listed(ParseSingle(a[k..])),
                 Listed(ParseSingle(b[..i])), Body(rest));
  }

  lemma EndsArePieces(a: Bytes, b: Bytes)
    requires a != [] && a[|a| - 1] != SEPARATOR && b != [] && b[0] != SEPARATOR
    ensures a[LastPiece(a)..] != [] && b[..FirstPiece(b)] != []
    ensures LastPiece(a) == 0 || a[LastPiece(a) - 1] == SEPARATOR
  {
  }

  lemma DifferInside(left: seq<Component>, one: seq<Component>, x: seq<Component>, y: seq<Component>,
      right: seq<Component>)
    requires one != x + y
    ensures left + one + right != (left + x) + (y + right)
  {
    var two := x + y;
    assert (left + x) + (y + right) == left + two + right;
    if |one| == |two| {
      assert (left + one + right)[|left|..|left| + |one|] == one;
      assert (left + two + right)[|left|..|left| + |one|] == two;
    }
  }

  lemma GluedParts(a: Bytes, b: Bytes, k: nat, i: nat)
    requires k == LastPiece(a) && i == FirstPiece(b)
    ensures var rest := if i < |b| then b[i + 1..] else [];
      Body(a + b) == Body(a[..k]) + Listed(ParseSingle(a[k..] + b[..i])) + Body(rest)
  {
    hide Body, ParseSingle, FirstPiece, LastPiece;
    var m := a[k..] + b[..i];
    assert SEPARATOR !in m;
    BodyLast(a[..k], m);
    BodyEmpty();
    assert (a + b)[..|a| + i] == a[..k] + m;
    if i < |b| {
      BodyAround(a + b, 0, |a| + i);
      assert (a + b)[0..] == a + b && (a + b)[|a| + i + 1..] == b[i + 1..];
      assert (a + b)[0..|a| + i] == (a + b)[..|a| + i];
    } else {
      assert a + b == (a + b)[..|a| + i];
    }
  }

  /** Pushing a relative path, by the rule of the comment: the components are joined. */
  lemma PushAsCommented(a: Bytes, b: Bytes)
    requires !Rooted(b)
    ensures Parse(PushSpec(AsCommented, a, b)) == Joined(a, b)
  {
    hide Parse, Body;
    if a == [] {
      assert a + b == b;
    } else if a[|a| - 1] == SEPARATOR {
      JoinAfterSeparator(a, b);
    } else {
      JoinWithSeparator(a, b);
    }
  }

  /** By the rule of the code they are joined only if one side is empty or `a` already ends in a separator. */
  lemma PushAsWritten(a: Bytes, b: Bytes)
    requires !Rooted(b)
    ensures Parse(PushSpec(AsWritten, a, b)) == Joined(a, b) <==> a == [] || b == [] || a[|a| - 1] == SEPARATOR
  {
    hide Parse, Body;
    BodyEmpty();
    if a == [] {
      assert a + b == b;
    } else if a[|a| - 1] == SEPARATOR {
      JoinWithSeparator(a, b);
    } else if b == [] {
      assert a + b == a;
    } else {
      GluedPaths(a, b);
    }
  }

  lemma GluedPaths(a: Bytes, b: Bytes)
    requires a != [] && a[|a| - 1] != SEPARATOR && b != [] && b[0] != SEPARATOR
    ensures Parse(a + b) != Joined(a, b)
  {
    hide Body;
    if a == [DOT] {
      LostDot(b);
    } else {
      var l := |Start(a)|;
      assert Start(a + b) == Start(a) && a[l..] != [];
      assert (a + b)[l..] == a[l..] + b;
      GluedBody(a[l..], b);
      ConcatAssoc(Start(a), Body(a[l..]), Body(b));
      assert (Start(a) + Body(a[l..] + b))[l..] == Body(a[l..] + b);
      assert (Start(a) + (Body(a[l..]) + Body(b)))[l..] == Body(a[l..]) + Body(b);
    }
  }

  /** A lone `.` is swallowed by whatever is written right after it. */
  lemma LostDot(b: Bytes)
    requires b != [] && b[0] != SEPARATOR
    ensures Parse([DOT] + b) != Parse([DOT]) + Body(b)
  {
    hide Body;
    var s := [DOT] + b;
    BodyNames(s);
    assert s[0..] == s && Start(s) == [] && Start([DOT]) == [CurDir];
    assert CurDir !in Body(s) && CurDir == (Parse([DOT]) + Body(b))[0];
  }

  // ---------------------------------------------------------------- the owned path

  method Extension(s: Bytes) returns (r: Option<Bytes>)
    ensures r == ExtensionOf(s)
  {
    hide Parse, Trimmed, ExtensionOfName;
    var file := FileName(s);
    r := if file.Some? then ExtensionOfName(file.value.0) else None;
  }

  /** The stem and where its bytes start. */
  method FileStem(s: Bytes) returns (r: Option<(Bytes, nat)>)
    ensures r.Some? <==> FileOf(s).Some?
    ensures r.Some? ==> Some(r.value.0) == StemOf(s) && r.value.1 + |FileOf(s).value| == |Trim(s)|
  {
    hide Parse, Trimmed, Trim, StemOfName;
    var file := FileName(s);
    if file.None? {
      return None;
    }
    var (name, at) := file.value;
    TrimIsUnique(s[..at + |name|], s);
    return Some((StemOfName(name), at));
  }

  lemma PrefixOfJoin(s: Bytes, p: Bytes, name: Bytes, n: nat)
    requires p + name <= s && n <= |name|
    ensures s[..|p| + n] == p + name[..n]
  {
    assert s[..|p| + n] == (p + name)[..|p| + n];
  }

  lemma StemInPlace(s: Bytes, at: nat, e: Bytes)
    requires FileOf(s).Some? && at + |FileOf(s).value| == |Trim(s)|
    ensures var stem := StemOf(s).value;
      && at + |stem| <= |s|
      && (e == [] ==> SetExtensionSpec(s, e) == s[..at + |stem|])
      && (e != [] ==> SetExtensionSpec(s, e) == s[..at + |stem|] + [DOT] + e)
  {
    hide Parse, Trim, Trimmed, StemOfName, ExtensionOfName, SetExtensionSpec, Start, IsName, DotExtension;
    var p, name := SetExtensionBytes(s, e);
    SplitName(name);
    PrefixOfJoin(s, p, name, |StemOfName(name)|);
    assert StemOfName(name) == name[..|StemOfName(name)|];
    DotJoin(p + StemOfName(name), e);
  }

  class PathBuf {
    var inner: Bytes

    constructor (s: Bytes)
      ensures inner == s
    {
      inner := s;
    }

    method Push(rule: SepRule, path: Bytes)
      modifies this
      ensures inner == PushSpec(rule, old(inner), path)
      ensures Rooted(path) ==> inner == path
      ensures !Rooted(path) ==> inner == old(inner) + Between(rule, old(inner)) + path
    {
      PushIs(rule, inner, path);
      var needSep := NeedSeparator(rule, inner);
      if Rooted(path) {
        inner := [];
      } else if needSep {
        inner := inner + [SEPARATOR];
      }
      inner := inner + path;
    }

    /** Leaves byte for byte what `parent` returns. */
    method Pop() returns (popped: bool)
      modifies this
      ensures popped <==> Parse(old(inner)) != [] && Parse(old(inner)) != [RootDir]
      ensures popped ==> Truncation(old(inner), |Parse(old(inner))| - 1, inner)
      ensures !popped ==> inner == old(inner)
    {
      hide Parse, Trimmed;
      var parent := Parent(inner);
      if parent.None? {
        return false;
      }
      inner := inner[..|parent.value|];
      assert inner == parent.value;
      return true;
    }

    method SetExtension(e: Bytes) returns (done: bool)
      modifies this
      ensures done <==> FileOf(old(inner)).Some?
      ensures inner == SetExtensionSpec(old(inner), e) && (!done ==> inner == old(inner))
    {
      hide Parse, Trim, Trimmed, StemOfName, SetExtensionSpec;
      var stem := FileStem(inner);
      if stem.None? {
        NoFileName(inner, e);
        return false;
      }
      var (bytes, at) := stem.value;
      StemInPlace(inner, at, e);
      inner := inner[..at + |bytes|];
      if e != [] {
        inner := inner + [DOT];
        inner := inner + e;
      }
      return true;
    }
  }

  /** The same result as setting the extension in place, under the exact condition; `None` is a panic. */
  method WithExtension(s: Bytes, e: Bytes) returns (r: Option<Bytes>)
    ensures r == Some(SetExtensionSpec(s, e)) <==> !(StemOf(s) == Some([DOT]) && Trim(s) == s) && !CutsCharacter(s)
    ensures r.None? <==> CutsCharacter(s)
    ensures StemOf(s) == Some([DOT]) && Trim(s) == s && r.Some? ==>
      ExtensionOf(s).Some? && |ExtensionOf(s).value| <= |s| && r.value == s[..|s| - |ExtensionOf(s).value|]
  {
    hide Parse, Trim, StemOfName, ExtensionOfName, SetExtensionSpec, IsBoundary, CutsCharacter;
    WithExtensionAgrees(s, e);
    WithExtensionPanics(s, e);
    DotStemCut(s, e);
    var previous := Extension(s);
    ExtensionFits(s);
    if previous.Some? && !IsBoundary(s, |s| - |previous.value|) {
      return None;
    }
    var slice := if previous.Some? then s[..|s| - |previous.value|] else s;
    var buf := new PathBuf([]);
    buf.Push(AsWritten, slice);
    assert buf.inner == slice;
    var _ := buf.SetExtension(e);
    r := Some(buf.inner);
  }

  lemma ExtensionFits(s: Bytes)
    ensures ExtensionOf(s).Some? ==> |ExtensionOf(s).value| <= |s|
  {
    hide Parse, Trim, StemOfName, ExtensionOfName;
    if ExtensionOf(s).Some? {
      var p, name := FileNameEnds(s);
      SplitName(name);
    }
  }
}
