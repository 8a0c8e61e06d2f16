/**
 * Byte-level vocabulary shared by the image generator: bytes, fixed-width
 * unsigned conversions of C integers, big-endian encoding and decoding, and the
 * memset/memcpy primitives over PEB buffers.
 */
module Bytes {

  newtype byte = x: int | 0 <= x < 256
  newtype uint16 = x: int | 0 <= x < 0x1_0000
  newtype uint32 = x: int | 0 <= x < 0x1_0000_0000
  newtype uint64 = x: int | 0 <= x < 0x1_0000_0000_0000_0000

  /** 256^n: the number of values an n-byte field can hold. */
  function Pow256(n: nat): (r: nat)
    ensures r >= 1
  {
    if n == 0 then 1 else 256 * Pow256(n - 1)
  }

  /** The n-byte big-endian representation of x, most significant byte first;
      digits above the n-th are dropped, as a C store into an n-byte field does. */
  function BE(x: nat, n: nat): (r: seq<byte>)
    ensures |r| == n
  {
    if n == 0 then [] else BE(x / 256, n - 1) + [(x % 256) as byte]
  }

  /** The unsigned value of a big-endian byte string. */
  function FromBE(s: seq<byte>): (r: nat)
    ensures r < Pow256(|s|)
  {
    if s == [] then 0 else 256 * FromBE(s[..|s| - 1]) + s[|s| - 1] as nat
  }

  lemma {:induction false} DivModStep(x: nat, n: nat)
    ensures (x / 256) % Pow256(n) * 256 + x % 256 == x % Pow256(n + 1)
  {
    var q := x / 256;
    var P := Pow256(n);
    var a := q / P;
    var b := q % P;
    assert q == a * P + b;
    assert x == q * 256 + x % 256;
    calc {
      x;
      (a * P + b) * 256 + x % 256;
      a * (256 * P) + (b * 256 + x % 256);
    }
    assert 0 <= b * 256 + x % 256 < 256 * P;
    assert Pow256(n + 1) == 256 * P;
    DivModUnique(x, 256 * P, a, b * 256 + x % 256);
  }

  lemma {:induction false} DivModUnique(x: nat, m: nat, a: int, b: int)
    requires m > 0 && 0 <= b < m && x == a * m + b
    ensures x / m == a && x % m == b
  {
    var q, r := x / m, x % m;
    assert x == q * m + r;
    var k := a - q;
    assert k * m == a * m - q * m;
    assert k * m == r - b;
    if k > 0 {
      MulAtLeast(k, m);
    } else if k < 0 {
      MulAtLeast(-k, m);
    }
  }

  lemma {:induction false} MulAtLeast(k: int, m: int)
    requires k >= 1 && m >= 0
    ensures k * m >= m
  {
    assert k * m == (k - 1) * m + m;
  }

  lemma {:induction false} MulLe(a: int, b: int, c: int)
    requires a <= b && c >= 0
    ensures a * c <= b * c
  {
    assert b * c - a * c == (b - a) * c;
  }

  /** k copies of m added up: the offset of the k-th of a run of m-byte blocks, one
      addition at a time. */
  function Times(k: nat, m: int): (r: int)
    ensures m >= 0 ==> r >= 0
  {
    if k == 0 then 0 else Times(k - 1, m) + m
  }

  lemma {:induction false} TimesIsMul(k: nat, m: int)
    ensures Times(k, m) == k * m
  {
    if k > 0 {
      TimesIsMul(k - 1, m);
    }
  }

  lemma {:induction false} MulNeg(a: int, c: int)
    requires a < 0 && c >= 0
    ensures a * c <= -c
  {
    MulLe(a, -1, c);
  }

  /** Decoding an encoded field gives back the value reduced to the field width. */
  lemma {:induction false} FromBEOfBE(x: nat, n: nat)
    ensures FromBE(BE(x, n)) == x % Pow256(n)
  {
    if n > 0 {
      var s := BE(x, n);
      assert s[..|s| - 1] == BE(x / 256, n - 1);
      FromBEOfBE(x / 256, n - 1);
      DivModStep(x, n - 1);
    }
  }

  /** Encoding the decoded value of a byte string gives back the same bytes. */
  lemma {:induction false} BEOfFromBE(s: seq<byte>)
    ensures BE(FromBE(s), |s|) == s
  {
    if s != [] {
      var init := s[..|s| - 1];
      var v := FromBE(s);
      assert v / 256 == FromBE(init);
      assert v % 256 == s[|s| - 1] as nat;
      BEOfFromBE(init);
    }
  }

  /** Conversions of a C integer into an unsigned field of the given width
      (cpu_to_be16/32/64 and stores into u8 fields); Dafny's % is Euclidean, so a
      negative value wraps as the C conversion does. */
  function U8(x: int): byte { (x % 256) as byte }

  function U16(x: int): uint16 { (x % 0x1_0000) as uint16 }

  function U32(x: int): uint32 { (x % 0x1_0000_0000) as uint32 }

  function U64(x: int): uint64 { (x % 0x1_0000_0000_0000_0000) as uint64 }

  /** The four bytes of a 32-bit big-endian field. */
  function BE32(x: uint32): (r: seq<byte>)
    ensures |r| == 4
  {
    BE(x as nat, 4)
  }

  /** be32_to_cpu undoes cpu_to_be32. */
  lemma {:induction false} BE32Value(x: uint32)
    ensures FromBE(BE32(x)) == x as nat
  {
    FromBEOfBE(x as nat, 4);
    assert Pow256(4) == 0x1_0000_0000;
    DivModUnique(x as nat, 0x1_0000_0000, 0, x as int);
  }

  function Zeros(n: nat): (r: seq<byte>)
    ensures |r| == n && forall i | 0 <= i < n :: r[i] == 0
  {
    seq(n, _ => 0)
  }

  /** The buffer after memset(s + off, v, n). */
  function Fill(s: seq<byte>, off: int, n: int, v: byte): (r: seq<byte>)
    requires 0 <= off && 0 <= n && off + n <= |s|
    ensures |r| == |s|
    ensures forall i | 0 <= i < |s| :: r[i] == if off <= i < off + n then v else s[i]
  {
    s[..off] + seq(n, _ => v) + s[off + n..]
  }

  /** The buffer after memcpy(s + off, d, |d|). */
  function Splice(s: seq<byte>, off: int, d: seq<byte>): (r: seq<byte>)
    requires 0 <= off && off + |d| <= |s|
    ensures |r| == |s|
    ensures forall i | 0 <= i < |s| :: r[i] == if off <= i < off + |d| then d[i - off] else s[i]
  {
    s[..off] + d + s[off + |d|..]
  }

  /** A second copy of the same size to the same place hides the first. */
  lemma {:induction false} SpliceTwice(s: seq<byte>, off: int, d: seq<byte>, e: seq<byte>)
    requires 0 <= off && off + |d| <= |s| && |e| == |d|
    ensures Splice(Splice(s, off, d), off, e) == Splice(s, off, e)
  {
    var a := Splice(Splice(s, off, d), off, e);
    var b := Splice(s, off, e);
    assert |a| == |b|;
    forall i | 0 <= i < |a| ensures a[i] == b[i] { }
  }

  /** memset over an array, as the C library runs it: one byte at a time. */
  method Memset(a: array<byte>, off: int, n: int, v: byte)
    requires 0 <= off && 0 <= n && off + n <= a.Length
    modifies a
    ensures a[..] == Fill(old(a[..]), off, n, v)
  {
    for k := 0 to n
      invariant forall i | 0 <= i < a.Length ::
        a[i] == if off <= i < off + k then v else old(a[i])
    {
      a[off + k] := v;
    }
  }

  /** memcpy from a byte string into an array. */
  method Memcpy(a: array<byte>, off: int, d: seq<byte>)
    requires 0 <= off && off + |d| <= a.Length
    modifies a
    ensures a[..] == Splice(old(a[..]), off, d)
  {
    for k := 0 to |d|
      invariant forall i | 0 <= i < a.Length ::
        a[i] == if off <= i < off + k then d[i - off] else old(a[i])
    {
      a[off + k] := d[k];
    }
  }
}
