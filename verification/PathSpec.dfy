/**
 What a path means: the component list of a byte string, defined by splitting on `/`.
 Everything the iterator in `PathComponents` does is proved against `Parse`.
 */
module PathSpec {
  import opened Prelude

  const SEPARATOR: u8 := 47
  const DOT: u8 := 46

  datatype Component = RootDir | CurDir | ParentDir | Normal(name: Bytes)

  /** One piece between separators; the empty piece and `.` stand for nothing. */
  function ParseSingle(piece: Bytes): Option<Component> {
    if piece == [] || piece == [DOT] then None
    else if piece == [DOT, DOT] then Some(ParentDir)
    else Some(Normal(piece))
  }

  function Listed(c: Option<Component>): seq<Component> {
    match c
    case None => []
    case Some(x) => [x]
  }

  /** The pieces of `s` between separators, including the empty ones. */
  function Split(s: Bytes): (r: seq<Bytes>)
    ensures r != []
  {
    if s == [] then [[]]
    else
      var rest := Split(s[1..]);
      if s[0] == SEPARATOR then [[]] + rest else [[s[0]] + rest[0]] + rest[1..]
  }

  function Keep(pieces: seq<Bytes>): seq<Component> {
    if pieces == [] then [] else Listed(ParseSingle(pieces[0])) + Keep(pieces[1..])
  }

  function Body(s: Bytes): seq<Component> {
    Keep(Split(s))
  }

  predicate Rooted(s: Bytes) {
    s != [] && s[0] == SEPARATOR
  }

  /** `.` alone or `./` in front: the only place where a current directory is kept. */
  predicate Dotted(s: Bytes) {
    s != [] && s[0] == DOT && (|s| == 1 || s[1] == SEPARATOR)
  }

  function Start(s: Bytes): seq<Component> {
    if Rooted(s) then [RootDir] else if Dotted(s) then [CurDir] else []
  }

  /** The reference component list. `Start` takes one byte for each component it finds. */
  function Parse(s: Bytes): seq<Component> {
    Start(s) + Body(s[|Start(s)|..])
  }

  /** The bytes a component is written with. */
  function Spelling(c: Component): Bytes {
    match c
    case RootDir => [SEPARATOR]
    case CurDir => [DOT]
    case ParentDir => [DOT, DOT]
    case Normal(name) => name
  }

  predicate IsName(name: Bytes) {
    name != [] && SEPARATOR !in name && name != [DOT] && name != [DOT, DOT]
  }

  // ---------------------------------------------------------------- splitting

  lemma {:induction false} SplitPiece(s: Bytes)
    requires SEPARATOR !in s
    ensures Split(s) == [s]
  {
    if s != [] {
      SplitPiece(s[1..]);
      assert [s[0]] + s[1..] == s;
    }
  }

  lemma {:induction false} SplitJoin(a: Bytes, b: Bytes)
    ensures Split(a + [SEPARATOR] + b) == Split(a) + Split(b)
  {
    var s := a + [SEPARATOR] + b;
    if a == [] {
      assert s[0] == SEPARATOR && s[1..] == b;
    } else {
      assert s[0] == a[0] && s[1..] == a[1..] + [SEPARATOR] + b;
      SplitJoin(a[1..], b);
      SplitStep(a, s, Split(a[1..]), Split(b));
    }
  }

  lemma SplitStep(a: Bytes, s: Bytes, left: seq<Bytes>, right: seq<Bytes>)
    requires a != [] && s != [] && a[0] == s[0] && left != []
    requires Split(a[1..]) == left && Split(s[1..]) == left + right
    ensures Split(s) == Split(a) + right
  {
    hide Split;
    UnfoldSplit(a);
    UnfoldSplit(s);
    assert (left + right)[0] == left[0] && (left + right)[1..] == left[1..] + right;
    var head := if s[0] == SEPARATOR then [[]] else [[s[0]] + left[0]];
    var tail := if s[0] == SEPARATOR then left else left[1..];
    ConcatAssoc(head, tail, right);
  }

  lemma UnfoldSplit(s: Bytes)
    requires s != []
    ensures Split(s) == var rest := Split(s[1..]);
      if s[0] == SEPARATOR then [[]] + rest else [[s[0]] + rest[0]] + rest[1..]
  {
  }

  lemma UnfoldKeep(p: seq<Bytes>)
    requires p != []
    ensures Keep(p) == Listed(ParseSingle(p[0])) + Keep(p[1..])
  {
  }

  lemma {:induction false} KeepJoin(p: seq<Bytes>, q: seq<Bytes>)
    ensures Keep(p + q) == Keep(p) + Keep(q)
  {
    if p == [] {
      assert p + q == q;
    } else {
      hide Keep, ParseSingle;
      KeepJoin(p[1..], q);
      UnfoldKeep(p);
      UnfoldKeep(p + q);
      assert (p + q)[1..] == p[1..] + q;
      ConcatAssoc(Listed(ParseSingle(p[0])), Keep(p[1..]), Keep(q));
    }
  }

  lemma BodyPiece(s: Bytes)
    requires SEPARATOR !in s
    ensures Body(s) == Listed(ParseSingle(s))
  {
    SplitPiece(s);
    assert Keep([s]) == Listed(ParseSingle(s)) + Keep([]);
  }

  lemma BodyEmpty()
    ensures Body([]) == []
  {
    BodyPiece([]);
  }

  /** The body of two strings with a separator between them: both iteration directions rest on this. */
  lemma BodyJoin(a: Bytes, b: Bytes)
    ensures Body(a + [SEPARATOR] + b) == Body(a) + Body(b)
  {
    SplitJoin(a, b);
    KeepJoin(Split(a), Split(b));
  }

  // ---------------------------------------------------------------- where pieces end

  /** Length of the first piece of `s`. */
  function FirstPiece(s: Bytes): (i: nat)
    ensures i <= |s| && SEPARATOR !in s[..i]
    ensures i < |s| ==> s[i] == SEPARATOR
  {
    if s == [] || s[0] == SEPARATOR then 0 else 1 + FirstPiece(s[1..])
  }

  /** Where the last piece of `s` starts. */
  function LastPiece(s: Bytes): (k: nat)
    ensures k <= |s| && SEPARATOR !in s[k..]
    ensures k > 0 ==> s[k - 1] == SEPARATOR
  {
    if s == [] || s[|s| - 1] == SEPARATOR then |s| else LastPiece(s[..|s| - 1])
  }

  /** `s` without its last piece and without the separator in front of that piece. */
  function Cut(s: Bytes): (r: Bytes)
    ensures r <= s
  {
    var k := LastPiece(s);
    if k == 0 then [] else s[..k - 1]
  }

  lemma BodyFront(s: Bytes)
    ensures var i := FirstPiece(s);
      Body(s) == Listed(ParseSingle(s[..i])) + Body(if i < |s| then s[i + 1..] else [])
  {
    hide Body, ParseSingle, FirstPiece;
    var i := FirstPiece(s);
    BodyPiece(s[..i]);
    BodyEmpty();
    if i < |s| {
      assert s == s[..i] + [SEPARATOR] + s[i + 1..];
      BodyJoin(s[..i], s[i + 1..]);
    } else {
      assert s[..i] == s;
    }
  }

  lemma BodyBack(s: Bytes)
    ensures Body(s) == Body(Cut(s)) + Listed(ParseSingle(s[LastPiece(s)..]))
  {
    var k := LastPiece(s);
    BodyPiece(s[k..]);
    BodyEmpty();
    if k == 0 {
      assert s[k..] == s;
    } else {
      assert s == s[..k - 1] + [SEPARATOR] + s[k..];
      BodyJoin(s[..k - 1], s[k..]);
    }
  }

  // ---------------------------------------------------------------- names in a parse

  lemma {:induction false} BodyNames(s: Bytes)
    ensures forall c :: c in Body(s) ==> c == ParentDir || (c.Normal? && IsName(c.name))
    decreases |s|
  {
    if s == [] {
      BodyEmpty();
    } else {
      BodyBack(s);
      BodyEmpty();
      if |Cut(s)| < |s| {
        BodyNames(Cut(s));
      }
    }
  }

  /** After the start, a parse holds only `..` and names: non-empty, separator-free, neither `.` nor `..`. */
  lemma ParseNames(s: Bytes)
    ensures forall i :: 0 <= i < |Parse(s)| && (i > 0 || Start(s) == []) ==>
        Parse(s)[i] == ParentDir || (Parse(s)[i].Normal? && IsName(Parse(s)[i].name))
    ensures RootDir in Parse(s) <==> Rooted(s)
  {
    BodyNames(s[|Start(s)|..]);
    var rest := Body(s[|Start(s)|..]);
    forall i | 0 <= i < |Parse(s)| && (i > 0 || Start(s) == [])
      ensures Parse(s)[i] == ParentDir || (Parse(s)[i].Normal? && IsName(Parse(s)[i].name))
    {
      assert Parse(s)[i] == rest[i - |Start(s)|];
    }
    if Rooted(s) {
      assert Parse(s)[0] == RootDir;
    }
  }

  // ---------------------------------------------------------------- shortest prefixes

  /** Nothing at the end of `s` could be dropped without changing what it means. */
  predicate Trimmed(s: Bytes) {
    var body := s[|Start(s)|..];
    body == [] || ParseSingle(body[LastPiece(body)..]).Some?
  }

  lemma {:induction false} FirstPieceOfPrefix(t: Bytes, s: Bytes)
    requires t <= s
    ensures FirstPiece(t) == if FirstPiece(s) < |t| then FirstPiece(s) else |t|
  {
    if t != [] && t[0] != SEPARATOR {
      FirstPieceOfPrefix(t[1..], s[1..]);
    }
  }

  lemma PieceGrows(t: Bytes, s: Bytes)
    requires t <= s
    ensures |Listed(ParseSingle(t))| <= |Listed(ParseSingle(s))|
  {
  }

  lemma {:induction false} BodyGrows(t: Bytes, s: Bytes)
    requires t <= s
    ensures |Body(t)| <= |Body(s)|
    decreases |s|
  {
    hide Body, ParseSingle, FirstPiece;
    BodyFront(t);
    BodyFront(s);
    FirstPieceOfPrefix(t, s);
    var i, j := FirstPiece(t), FirstPiece(s);
    if i < |t| {
      assert t[..i] == s[..j];
      BodyGrows(t[i + 1..], s[i + 1..]);
    } else {
      BodyEmpty();
      PieceGrows(t[..i], s[..j]);
    }
  }

  lemma {:induction false} PieceOfPrefix(t: Bytes, s: Bytes)
    requires t <= s && LastPiece(s) <= |t|
    ensures LastPiece(t) == LastPiece(s) && Cut(t) == Cut(s)
  {
    if |t| < |s| {
      PieceOfPrefix(t, s[..|s| - 1]);
    } else {
      assert t == s;
    }
  }

  lemma BodyOfShorter(t: Bytes, s: Bytes)
    requires t < s && ParseSingle(s[LastPiece(s)..]).Some?
    ensures Body(t) != Body(s)
  {
    hide Body;
    var k := LastPiece(s);
    BodyBack(s);
    if |t| < k {
      BodyGrows(t, Cut(s));
    } else {
      PieceOfPrefix(t, s);
      BodyBack(t);
      assert |t[k..]| < |s[k..]|;
      assert Body(t)[|Body(Cut(s))|..] != Body(s)[|Body(Cut(s))|..];
    }
  }

  /** A trimmed string means something different from every shorter prefix of it. */
  lemma TrimmedIsShortest(t: Bytes, r: Bytes)
    requires t < r && Trimmed(r)
    ensures Parse(t) != Parse(r)
  {
    hide Body;
    var l := |Start(r)|;
    BodyNames(r[l..]);
    BodyEmpty();
    if |t| < l {
      assert t == [];
    } else if Start(t) != Start(r) {
      assert Start(t) == [CurDir] && Parse(t)[0] == CurDir;
      assert CurDir !in Body(r[l..]);
    } else {
      BodyOfShorter(t[l..], r[l..]);
      assert Parse(t)[l..] != Parse(r)[l..];
    }
  }

  /** Cutting at a separator, or down to the start itself, keeps the start. */
  lemma StartStable(s: Bytes, m: nat)
    requires |Start(s)| <= m <= |s|
    requires m == |Start(s)| || m == |s| || s[m] == SEPARATOR
    ensures Start(s[..m]) == Start(s)
  {
    assert m == |s| ==> s[..m] == s;
  }

  /** Taking the last piece off the body of a whole path. */
  lemma ParseBack(s: Bytes)
    ensures var l := |Start(s)|;
      && var body := s[l..];
      && var r := s[..l + |Cut(body)|];
      && Start(r) == Start(s) && Parse(s) == Parse(r) + Listed(ParseSingle(body[LastPiece(body)..]))
  {
    hide Body, LastPiece, ParseSingle;
    var l := |Start(s)|;
    var body := s[l..];
    var r := s[..l + |Cut(body)|];
    BodyBack(body);
    StartStable(s, |r|);
    assert r[l..] == Cut(body);
    ConcatAssoc(Start(s), Body(Cut(body)), Listed(ParseSingle(body[LastPiece(body)..])));
  }

  // ---------------------------------------------------------------- trimming the right end

  /** Drops skipped pieces from the right. */
  function TrimBody(s: Bytes): (r: Bytes)
    ensures r <= s
    decreases |s|
  {
    if s == [] || ParseSingle(s[LastPiece(s)..]).Some? then s
    else
      TrimBody(Cut(s))
  }

  /** What remains means the same and ends in a piece that means something, cut off at a separator. */
  lemma {:induction false} TrimBodyFacts(s: Bytes)
    ensures var r := TrimBody(s);
      && Body(r) == Body(s) && (r == [] || r == s || s[|r|] == SEPARATOR)
      && (r == [] || ParseSingle(r[LastPiece(r)..]).Some?)
    decreases |s|
  {
    hide Body, LastPiece, ParseSingle;
    if s != [] && ParseSingle(s[LastPiece(s)..]).None? {
      BodyBack(s);
      TrimBodyFacts(Cut(s));
    }
  }

  /** Where the shortest prefix with the same meaning ends. */
  function TrimmedLength(s: Bytes): (n: nat)
    ensures n <= |s|
  {
    |Start(s)| + |TrimBody(s[|Start(s)|..])|
  }

  lemma TrimFacts(s: Bytes)
    ensures var r := s[..TrimmedLength(s)];
      && Trimmed(r) && Parse(r) == Parse(s) && Start(r) == Start(s)
      && (r == s || |r| == |Start(s)| || s[|r|] == SEPARATOR)
  {
    hide Body, TrimBody, LastPiece, ParseSingle;
    var l := |Start(s)|;
    var r := s[..TrimmedLength(s)];
    assert r[l..] == TrimBody(s[l..]);
    TrimBodyFacts(s[l..]);
    StartStable(s, |r|);
  }

  /** The shortest prefix with the same meaning: what the right trim of a fresh iterator leaves. */
  function Trim(s: Bytes): (r: Bytes)
    ensures r <= s && Trimmed(r) && Parse(r) == Parse(s) && Start(r) == Start(s)
    ensures r == s || |r| == |Start(s)| || s[|r|] == SEPARATOR
  {
    hide *;
    TrimFacts(s);
    s[..TrimmedLength(s)]
  }

  /** Only separators and dots are trimmed away. */
  lemma TrimTail(s: Bytes)
    ensures forall i :: |Trim(s)| <= i < |s| ==> s[i] == SEPARATOR || s[i] == DOT
  {
    hide TrimBody, Parse, Trimmed;
    var l := |Start(s)|;
    TrimBodyTail(s[l..]);
    assert |Trim(s)| == TrimmedLength(s);
    assert forall i :: l <= i < |s| ==> s[i] == s[l..][i - l];
  }

  lemma {:induction false} TrimBodyTail(s: Bytes)
    ensures forall i :: |TrimBody(s)| <= i < |s| ==> s[i] == SEPARATOR || s[i] == DOT
    decreases |s|
  {
    hide LastPiece, Body;
    var k := LastPiece(s);
    if s != [] && ParseSingle(s[k..]).None? {
      TrimBodyTail(Cut(s));
      assert forall i :: k <= i < |s| ==> s[i] == s[k..][i - k];
    }
  }

  /** A trimmed prefix with the meaning of `s` is `Trim(s)`: the property pins down the bytes. */
  lemma TrimIsUnique(r: Bytes, s: Bytes)
    requires r <= s && Trimmed(r) && Parse(r) == Parse(s)
    ensures r == Trim(s)
  {
    var t := Trim(s);
    if |t| < |r| {
      TrimmedIsShortest(t, r);
    } else if |r| < |t| {
      TrimmedIsShortest(r, t);
    }
  }

  // ---------------------------------------------------------------- putting bytes together

  lemma {:induction false} LastPieceOfJoin(a: Bytes, piece: Bytes)
    requires SEPARATOR !in piece && (a == [] || a[|a| - 1] == SEPARATOR)
    ensures LastPiece(a + piece) == |a|
  {
    if piece == [] {
      assert a + piece == a;
    } else {
      var shorter := piece[..|piece| - 1];
      LastPieceOfJoin(a, shorter);
      assert (a + piece)[..|a + piece| - 1] == a + shorter;
    }
  }

  lemma BodyLast(q: Bytes, piece: Bytes)
    requires SEPARATOR !in piece && (q == [] || q[|q| - 1] == SEPARATOR)
    ensures Body(q + piece) == Body(q) + Listed(ParseSingle(piece))
  {
    hide Body;
    BodyEmpty();
    BodyPiece(piece);
    if q == [] {
      assert q + piece == piece;
    } else {
      var c := q[..|q| - 1];
      BodyJoin(c, piece);
      BodyJoin(c, []);
      assert q + piece == c + [SEPARATOR] + piece && q == c + [SEPARATOR] + [];
    }
  }

  /** A string ending in a real piece, cut in two at that piece. */
  lemma ParseLast(p: Bytes, piece: Bytes)
    requires SEPARATOR !in piece && ParseSingle(piece).Some?
    requires p == [] || p[|p| - 1] == SEPARATOR
    ensures Trimmed(p + piece) && Parse(p + piece) == Parse(p) + Listed(ParseSingle(piece))
  {
    hide Body, ParseSingle, LastPiece;
    var s := p + piece;
    StartOfLast(p, piece);
    var q := p[|Start(p)|..];
    assert s[|Start(s)|..] == q + piece;
    BodyLast(q, piece);
    LastPieceOfJoin(q, piece);
    ConcatAssoc(Start(p), Body(q), Listed(ParseSingle(piece)));
    assert (q + piece)[|q|..] == piece;
  }

  lemma StartOfLast(p: Bytes, piece: Bytes)
    requires SEPARATOR !in piece && ParseSingle(piece).Some?
    requires p == [] || p[|p| - 1] == SEPARATOR
    ensures Start(p + piece) == Start(p)
  {
  }

  /** The name a path ends in, if it ends in one. */
  function FileOf(s: Bytes): Option<Bytes> {
    var n := |Parse(s)|;
    if n > 0 && Parse(s)[n - 1].Normal? then Some(Parse(s)[n - 1].name) else None
  }

  lemma FileOfIsName(s: Bytes)
    ensures FileOf(s).Some? ==> IsName(FileOf(s).value)
  {
    hide Body;
    ParseNames(s);
  }

  /** A path with a file name: everything before the name, the name, and bytes that mean nothing. */
  lemma FileNameEnds(s: Bytes) returns (p: Bytes, name: Bytes)
    requires FileOf(s).Some?
    ensures FileOf(s) == Some(name) && IsName(name) && Trim(s) == p + name
    ensures p == [] || p[|p| - 1] == SEPARATOR
    ensures Parse(p) == Parse(s)[..|Parse(s)| - 1]
  {
    hide Parse, Trim, Trimmed;
    var t := Trim(s);
    p, name := LastOfTrimmed(t);
    ParseLast(p, name);
    ParseNames(s);
  }

  lemma FileNotStart(t: Bytes)
    requires FileOf(t).Some?
    ensures |t| > |Start(t)|
  {
    hide Body;
    assert t[|Start(t)|..] != [] by { BodyEmpty(); }
  }

  lemma LastOfTrimmed(t: Bytes) returns (p: Bytes, name: Bytes)
    requires FileOf(t).Some? && Trimmed(t)
    ensures t == p + name && SEPARATOR !in name && ParseSingle(name).Some?
    ensures p == [] || p[|p| - 1] == SEPARATOR
  {
    hide Parse, Start;
    FileNotStart(t);
    var l := |Start(t)|;
    var k := LastPiece(t[l..]);
    p, name := t[..l + k], t[l + k..];
    assert t == p + name && name == t[l..][k..];
    LastByte(t);
  }

  lemma LastByte(t: Bytes)
    requires t[|Start(t)|..] != []
    ensures var k := |Start(t)| + LastPiece(t[|Start(t)|..]);
      k == 0 || t[k - 1] == SEPARATOR
  {
  }

  /** The bytes after the last real piece mean nothing, and neither does any part of them. */
  lemma TailMeansNothing(s: Bytes, u: Bytes)
    requires Trim(s) <= u <= s && |Trim(s)| > |Start(s)|
    ensures Trim(u) == Trim(s)
  {
    hide Body, Trim, Trimmed;
    var t, l := Trim(s), |Start(s)|;
    if u != t {
      var m := |t| + 1;
      assert u[|t|] == s[|t|] == SEPARATOR;
      BodyAround(s, l, |t|);
      BodyAround(u, l, |t|);
      assert s[l..|t|] == t[l..] == u[l..|t|];
      BodyGrows(u[m..], s[m..]);
      assert Parse(s)[l..] == Body(s[l..]) && Parse(t)[l..] == Body(t[l..]);
      assert Start(u) == Start(s);
    }
    TrimIsUnique(t, u);
  }

  lemma BodyAround(s: Bytes, l: nat, m: nat)
    requires l <= m < |s| && s[m] == SEPARATOR
    ensures Body(s[l..]) == Body(s[l..m]) + Body(s[m + 1..])
  {
    hide Body;
    BodyJoin(s[l..m], s[m + 1..]);
    assert s[l..] == s[l..m] + [SEPARATOR] + s[m + 1..];
  }
}
