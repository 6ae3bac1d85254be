/** Bytes, optional values and results, and the fixed-width big-endian fields
    of the voice server's TCP framing (network byte order). */
module Bytes {

  type byte = x: int | 0 <= x < 0x100

  datatype Option<+T> = None | Some(value: T)

  datatype Result<+T, +E> = Ok(value: T) | Err(error: E)

  const TWO_16: nat := 0x1_0000
  const TWO_32: nat := 0x1_0000_0000
  const TWO_64: nat := 0x1_0000_0000_0000_0000

  /** Reads a 16-bit unsigned big-endian field from the first two bytes of `s`. */
  function ReadUint16(s: seq<byte>): (n: nat)
    requires |s| >= 2
    ensures n < TWO_16
  {
    var hi: int := s[0];
    hi * 0x100 + s[1]
  }

  /** Reads a 32-bit unsigned big-endian field from the first four bytes of `s`. */
  function ReadUint32(s: seq<byte>): (n: nat)
    requires |s| >= 4
    ensures n < TWO_32
  {
    var b0: int, b1: int, b2: int := s[0], s[1], s[2];
    b0 * 0x100_0000 + b1 * 0x1_0000 + b2 * 0x100 + s[3]
  }

  /** The two bytes a 16-bit store writes: the low 16 bits of `n`, most
      significant byte first. */
  function Uint16Bytes(n: nat): (r: seq<byte>)
    ensures |r| == 2
    ensures ReadUint16(r) == n % TWO_16
  {
    var m := n % TWO_16;
    [m / 0x100, m % 0x100]
  }

  /** The four bytes a 32-bit store writes: the low 32 bits of `n`, most
      significant byte first (a store of a wider value wraps). */
  function Uint32Bytes(n: nat): (r: seq<byte>)
    ensures |r| == 4
    ensures ReadUint32(r) == n % TWO_32
  {
    var m := n % TWO_32;
    var a := m / 0x100;
    var b := a / 0x100;
    var c := b / 0x100;
    [c, b % 0x100, a % 0x100, m % 0x100]
  }

  /** Re-encoding a 16-bit field gives back the bytes it was read from. */
  lemma Uint16BytesOfRead(s: seq<byte>)
    requires |s| >= 2
    ensures Uint16Bytes(ReadUint16(s)) == s[..2]
  {
    var m := ReadUint16(s);
    assert m / 0x100 == s[0];
    assert m % 0x100 == s[1];
  }

  /** Re-encoding a 32-bit field gives back the bytes it was read from. */
  lemma Uint32BytesOfRead(s: seq<byte>)
    requires |s| >= 4
    ensures Uint32Bytes(ReadUint32(s)) == s[..4]
  {
    var b0: int, b1: int, b2: int, b3: int := s[0], s[1], s[2], s[3];
    var m := ReadUint32(s);
    assert m % TWO_32 == m;
    var a := b0 * 0x1_0000 + b1 * 0x100 + b2;
    var b := b0 * 0x100 + b1;
    DivModByte(a, b3);
    DivModByte(b, b2);
    DivModByte(b0, b1);
    assert b0 / 0x100 == 0 && b0 % 0x100 == b0;
  }

  /** Splitting off the low byte of `q * 256 + r`. */
  lemma DivModByte(q: nat, r: nat)
    requires r < 0x100
    ensures (q * 0x100 + r) / 0x100 == q
    ensures (q * 0x100 + r) % 0x100 == r
  {
  }

  lemma AppendAssoc<T>(a: seq<T>, b: seq<T>, c: seq<T>)
    ensures a + (b + c) == (a + b) + c
  {
  }

  /** Concatenation of a sequence of byte (or sample) runs, in order. */
  function Flatten<T>(runs: seq<seq<T>>): (r: seq<T>)
  {
    if |runs| == 0 then [] else runs[0] + Flatten(runs[1..])
  }

  lemma {:induction false} FlattenAppend<T>(a: seq<seq<T>>, b: seq<seq<T>>)
    ensures Flatten(a + b) == Flatten(a) + Flatten(b)
  {
    if |a| == 0 {
      assert a + b == b;
    } else {
      assert (a + b)[1..] == a[1..] + b;
      FlattenAppend(a[1..], b);
    }
  }

  /** Regroupings of concatenations used by the chunk-splitting proofs. */
  lemma Regroup<T>(x: seq<T>, y: seq<T>, a: seq<T>, b: seq<T>, c: seq<T>, d: seq<T>)
    requires x == y + c + d && y == a + b
    ensures x == a + (b + c) + d
  {
  }

  lemma EmptyFront<T>(e: seq<T>, x: seq<T>)
    requires |e| == 0
    ensures e + x == x
  {
  }

  lemma EmptyPrefix<T>(x: seq<T>, e: seq<T>, c: seq<T>, d: seq<T>)
    requires x == e + c + d && |e| == 0
    ensures x == c + d
  {
    assert e + c == c;
  }

  /** Joining two runs whose pieces were each regrouped. */
  lemma Splice<T>(t: seq<T>, fa: seq<T>, fb: seq<T>, x: seq<T>, y: seq<T>, u: seq<T>, v: seq<T>)
    requires t + fa == x + y && y + fb == u + v
    ensures t + (fa + fb) == x + u + v
  {
    AppendAssoc(t, fa, fb);
    AppendAssoc(x, y, fb);
    AppendAssoc(x, u, v);
  }

  lemma DropEmpty<T>(x: seq<T>, a: seq<T>, e: seq<T>, c: seq<T>, d: seq<T>)
    requires x == a + (e + c + d) && |e| == 0
    ensures x == a + c + d
  {
    assert e + c == c;
  }
}
