/** Octets, the fixed-width unsigned integers of the sender, and their network byte order. */
module Bytes {

  type byte = x: int | 0 <= x < 0x100
  type uint16 = x: int | 0 <= x < 0x1_0000
  type uint32 = x: int | 0 <= x < 0x1_0000_0000

  /** Conversion of an integer to an unsigned 16-bit or 32-bit type, as C++ defines it. */
  function ToUint16(n: int): uint16 { n % 0x1_0000 }

  function ToUint32(n: int): uint32 { n % 0x1_0000_0000 }

  /** The wrapped value is congruent to the given one, and the types bound it. */
  lemma WrapsExactly(n: int)
    ensures exists k :: n == ToUint16(n) + 0x1_0000 * k
    ensures exists k :: n == ToUint32(n) + 0x1_0000_0000 * k
  {
    assert n == ToUint16(n) + 0x1_0000 * (n / 0x1_0000);
    assert n == ToUint32(n) + 0x1_0000_0000 * (n / 0x1_0000_0000);
  }

  /** Wrapping early does not change where a counter wraps to. */
  lemma WrapEarly16(a: int, b: int)
    ensures ToUint16(ToUint16(a) + b) == ToUint16(a + b)
  {
  }

  lemma WrapEarly32(a: int, b: int)
    ensures ToUint32(ToUint32(a) + b) == ToUint32(a + b)
  {
  }

  lemma WrapTwice(n: int)
    ensures ToUint32(n) % 0x1_0000 == ToUint16(n)
  {
  }

  // ---------- Network byte order ----------

  /** The octets of `htons(n)` as they lie in memory. */
  function Htons(n: uint16): (bytes: seq<byte>)
    ensures |bytes| == 2
  {
    [n / 0x100, n % 0x100]
  }

  /** The octets of `htonl(n)` as they lie in memory. */
  function Htonl(n: uint32): (bytes: seq<byte>)
    ensures |bytes| == 4
  {
    [n / 0x100_0000, n / 0x1_0000 % 0x100, n / 0x100 % 0x100, n % 0x100]
  }

  /** The receiver's reading of a 16-bit and of a 32-bit big-endian field. */
  function ReadU16(s: seq<byte>, at: nat): uint16
    requires at + 2 <= |s|
  {
    var hi: int, lo: int := s[at], s[at + 1];
    0x100 * hi + lo
  }

  function ReadU32(s: seq<byte>, at: nat): uint32
    requires at + 4 <= |s|
  {
    var b0: int, b1: int, b2: int, b3: int := s[at], s[at + 1], s[at + 2], s[at + 3];
    0x100_0000 * b0 + 0x1_0000 * b1 + 0x100 * b2 + b3
  }

  lemma DigitsOf32(n: uint32)
    ensures 0x100_0000 * (n / 0x100_0000) + 0x1_0000 * (n / 0x1_0000 % 0x100)
            + 0x100 * (n / 0x100 % 0x100) + n % 0x100 == n
  {
    var a, b := n / 0x100, n / 0x1_0000;
    assert b == a / 0x100 && n / 0x100_0000 == b / 0x100;
  }

  /** `ReadU16` and `ReadU32` invert `Htons` and `Htonl` wherever the field lies in a buffer. */
  lemma ReadBack16(s: seq<byte>, at: nat, n: uint16)
    requires at + 2 <= |s| && s[at..at + 2] == Htons(n)
    ensures ReadU16(s, at) == n
  {
    assert s[at] == s[at..at + 2][0] && s[at + 1] == s[at..at + 2][1];
  }

  lemma ReadBack32(s: seq<byte>, at: nat, n: uint32)
    requires at + 4 <= |s| && s[at..at + 4] == Htonl(n)
    ensures ReadU32(s, at) == n
  {
    var field := s[at..at + 4];
    assert s[at] == field[0] && s[at + 1] == field[1] && s[at + 2] == field[2] && s[at + 3] == field[3];
    DigitsOf32(n);
  }

  // ---------- Lists of lists ----------

  /** Sequence identities, kept out of larger proofs. */
  lemma AppendAssoc<T>(xs: seq<T>, ys: seq<T>, zs: seq<T>)
    ensures xs + (ys + zs) == xs + ys + zs
  {
  }

  lemma AppendNothing<T>(xs: seq<T>)
    ensures xs + [] == xs && [] + xs == xs
  {
  }

  lemma DropLast<T>(xs: seq<T>, x: T)
    ensures (xs + [x])[..|xs + [x]| - 1] == xs && (xs + [x])[..|xs|] == xs && (xs + [x])[|xs|] == x
  {
  }

  lemma DropFirst<T>(x: T, xs: seq<T>)
    ensures ([x] + xs)[0] == x && ([x] + xs)[1..] == xs
  {
  }

  lemma FirstAndRest<T>(xs: seq<T>)
    requires xs != []
    ensures xs == [xs[0]] + xs[1..]
  {
  }

  lemma RestOfAppend<T>(xs: seq<T>, ys: seq<T>)
    requires xs != []
    ensures (xs + ys)[0] == xs[0] && (xs + ys)[1..] == xs[1..] + ys
  {
  }

  lemma TakeOneMore<T>(xs: seq<T>, k: nat)
    requires k < |xs|
    ensures xs[..k] + [xs[k]] == xs[..k + 1]
  {
  }

  function Flatten<T>(lists: seq<seq<T>>): seq<T> {
    if lists == [] then [] else lists[0] + Flatten(lists[1..])
  }

  function FlatMap<S, T>(f: S -> seq<T>, xs: seq<S>): seq<T> {
    if xs == [] then [] else f(xs[0]) + FlatMap(f, xs[1..])
  }

  lemma FlatMapAppend<S, T>(f: S -> seq<T>, xs: seq<S>, ys: seq<S>)
    ensures FlatMap(f, xs + ys) == FlatMap(f, xs) + FlatMap(f, ys)
  {
    if xs == [] {
      AppendNothing(ys);
    } else {
      FlatMapAppend(f, xs[1..], ys);
      RestOfAppend(xs, ys);
    }
  }

  // ---------- Memory ----------

  /** `memcpy(dst + at, src, |src|)`. */
  method Memcpy(dst: array<byte>, at: nat, src: seq<byte>)
    requires at + |src| <= dst.Length
    modifies dst
    ensures dst[..] == old(dst[..at]) + src + old(dst[at + |src|..])
  {
    forall i | 0 <= i < |src| {
      dst[at + i] := src[i];
    }
  }
}
