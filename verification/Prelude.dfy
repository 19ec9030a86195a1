/** Types and constants shared by every module, and operations on sequences. */
module Prelude {

  newtype u8 = x: int | 0 <= x < 0x100

  type Bytes = seq<u8>

  /** Bytes in a page. */
  const PAGE_SIZE: nat := 4096

  /** 2^64. */
  const U64: nat := 0x1_0000_0000_0000_0000

  datatype Option<+T> = None | Some(value: T)

  datatype Result<+T, +E> = Ok(value: T) | Err(error: E)

  function Reverse<T>(s: seq<T>): (r: seq<T>)
    ensures |r| == |s|
    ensures forall i :: 0 <= i < |s| ==> r[i] == s[|s| - 1 - i]
  {
    if s == [] then [] else Reverse(s[1..]) + [s[0]]
  }

  function InsertAt<T>(s: seq<T>, i: nat, x: T): seq<T>
    requires i <= |s|
  {
    s[..i] + [x] + s[i..]
  }

  function RemoveAt<T>(s: seq<T>, i: nat): seq<T>
    requires i < |s|
  {
    s[..i] + s[i + 1..]
  }

  lemma ConcatAssoc<T>(a: seq<T>, b: seq<T>, c: seq<T>)
    ensures a + b + c == a + (b + c)
  {
  }

  lemma RemoveAtJoin<T>(a: seq<T>, b: seq<T>, k: nat)
    requires k < |b|
    ensures RemoveAt(a + b, |a| + k) == a + RemoveAt(b, k)
  {
  }

  lemma InsertAtJoin<T>(a: seq<T>, b: seq<T>, k: nat, x: T)
    requires k <= |b|
    ensures InsertAt(a + b, |a| + k, x) == a + InsertAt(b, k, x)
  {
  }

  lemma UpdateJoin<T>(a: seq<T>, b: seq<T>, k: nat, x: T)
    requires k < |b|
    ensures (a + b)[|a| + k := x] == a + b[k := x]
  {
  }
}
