/** Little-endian bytes and a flat byte memory: the simple form that the cache and the paged
    accesses are compared with. */
module Bytes {

  type Byte = b: int | 0 <= b < 256

  function Pow256(n: nat): (p: nat)
    ensures p > 0
  {
    if n == 0 then 1 else 256 * Pow256(n - 1)
  }

  /** `v >> (8 * n)`. */
  function ShiftRightBytes(v: nat, n: nat): nat {
    if n == 0 then v else ShiftRightBytes(v / 256, n - 1)
  }

  lemma {:induction false} ShiftOneMore(v: nat, n: nat)
    ensures ShiftRightBytes(v, n) / 256 == ShiftRightBytes(v, n + 1)
  {
    if n > 0 {
      ShiftOneMore(v / 256, n - 1);
    }
  }

  /** The number whose little-endian bytes are `s`. */
  function LittleEndian(s: seq<Byte>): nat {
    if s == [] then 0 else s[0] + 256 * LittleEndian(s[1..])
  }

  /** The lowest `n` bytes of `v`. */
  function BytesOf(v: nat, n: nat): (s: seq<Byte>)
    ensures |s| == n
  {
    if n == 0 then [] else [v % 256] + BytesOf(v / 256, n - 1)
  }

  /** hw_mem_read: `len` bytes at `addr`, zero-extended. */
  function HwRead(mem: seq<Byte>, addr: nat, len: nat): nat
    requires addr + len <= |mem|
  {
    LittleEndian(mem[addr..addr + len])
  }

  /** hw_mem_write: the lowest `len` bytes of `data` to `addr`, nothing else. */
  function HwWrite(mem: seq<Byte>, addr: nat, len: nat, data: nat): (r: seq<Byte>)
    requires addr + len <= |mem|
    ensures |r| == |mem|
  {
    mem[..addr] + BytesOf(data, len) + mem[addr + len..]
  }

  lemma {:induction false} LittleEndianBytesOf(v: nat, n: nat)
    ensures LittleEndian(BytesOf(v, n)) == v % Pow256(n)
  {
    if n > 0 {
      LittleEndianBytesOf(v / 256, n - 1);
      assert BytesOf(v, n)[1..] == BytesOf(v / 256, n - 1);
      DigitByDigit(v, Pow256(n - 1));
    }
  }

  /** v mod 256p, one base-256 digit at a time. */
  lemma DigitByDigit(v: nat, p: nat)
    requires p > 0
    ensures v % 256 + 256 * (v / 256 % p) == v % (256 * p)
  {
    var q, r := v / 256 / p, v / 256 % p;
    Quotient(v / 256, p);
    assert v == v % 256 + 256 * (q * p + r);
    Reassociate(q, p);
    Remainder(v, 256 * p, q, v % 256 + 256 * r);
  }

  lemma Quotient(v: nat, p: nat)
    requires p > 0
    ensures v == v / p * p + v % p
  {
  }

  lemma Reassociate(q: nat, p: nat)
    ensures 256 * (q * p) == q * (256 * p)
  {
  }

  lemma Remainder(v: nat, m: nat, q: nat, r: nat)
    requires m > 0 && v == q * m + r && r < m
    ensures v % m == r && v / m == q
  {
    if v / m < q {
      LargerMultiple(v / m + 1, q, m);
    } else if v / m > q {
      LargerMultiple(q + 1, v / m, m);
    }
  }

  lemma LargerMultiple(a: nat, b: nat, m: nat)
    requires a <= b
    ensures a * m <= b * m
  {
  }

  lemma {:induction false} BytesOfLittleEndian(s: seq<Byte>)
    ensures BytesOf(LittleEndian(s), |s|) == s
    ensures LittleEndian(s) < Pow256(|s|)
  {
    if s != [] {
      BytesOfLittleEndian(s[1..]);
      assert LittleEndian(s) % 256 == s[0] && LittleEndian(s) / 256 == LittleEndian(s[1..]);
      assert s == [s[0]] + s[1..];
    }
  }

  /** Reading in two parts: the second part is shifted past the first. */
  lemma {:induction false} LittleEndianConcat(s: seq<Byte>, t: seq<Byte>)
    ensures LittleEndian(s + t) == LittleEndian(s) + LittleEndian(t) * Pow256(|s|)
  {
    if s == [] {
      assert s + t == t;
    } else {
      LittleEndianConcat(s[1..], t);
      assert (s + t)[1..] == s[1..] + t;
      Reassociate(LittleEndian(t), Pow256(|s| - 1));
    }
  }

  /** Writing in two parts: the second part gets the data shifted down. */
  lemma {:induction false} BytesOfSplit(v: nat, m: nat, n: nat)
    ensures BytesOf(v, m + n) == BytesOf(v, m) + BytesOf(ShiftRightBytes(v, m), n)
  {
    if m == 0 {
      assert BytesOf(v, 0) + BytesOf(v, n) == BytesOf(v, n);
    } else {
      BytesOfSplit(v / 256, m - 1, n);
    }
  }

  /** Only the low bytes matter. */
  lemma BytesOfLow(v: nat, k: nat, n: nat)
    requires n <= k
    ensures BytesOf(v % Pow256(k), n) == BytesOf(v, n)
  {
    LittleEndianBytesOf(v, k);
    BytesOfLittleEndian(BytesOf(v, k));
    BytesOfSplit(v, n, k - n);
    BytesOfSplit(v % Pow256(k), n, k - n);
    assert BytesOf(v % Pow256(k), k) == BytesOf(v, k);
    assert BytesOf(v % Pow256(k), k)[..n] == BytesOf(v % Pow256(k), n);
    assert BytesOf(v, k)[..n] == BytesOf(v, n);
  }

  /** What was written is read back, and a read elsewhere sees no difference. */
  lemma ReadBack(mem: seq<Byte>, addr: nat, len: nat, data: nat)
    requires addr + len <= |mem|
    ensures HwRead(HwWrite(mem, addr, len, data), addr, len) == data % Pow256(len)
  {
    LittleEndianBytesOf(data, len);
    assert HwWrite(mem, addr, len, data)[addr..addr + len] == BytesOf(data, len);
  }

  lemma ReadElsewhere(mem: seq<Byte>, addr: nat, len: nat, data: nat, other: nat, n: nat)
    requires addr + len <= |mem| && other + n <= |mem|
    requires other + n <= addr || addr + len <= other
    ensures HwWrite(mem, addr, len, data)[other..other + n] == mem[other..other + n]
  {
  }

  /** A write in two parts is one write. */
  lemma WriteSplit(mem: seq<Byte>, addr: nat, m: nat, n: nat, data: nat)
    requires addr + m + n <= |mem|
    ensures HwWrite(HwWrite(mem, addr, m, data), addr + m, n, ShiftRightBytes(data, m))
         == HwWrite(mem, addr, m + n, data)
  {
    BytesOfSplit(data, m, n);
  }

  //// 32-bit shifts, as the C code writes them

  const WORD: nat := 0x1_0000_0000

  /** `v << (8 * n)` on uint32_t. */
  function ShiftLeft32(v: nat, n: nat): nat {
    v * Pow256(n) % WORD
  }

  lemma FourBytesFit(s: seq<Byte>)
    requires |s| <= 4
    ensures LittleEndian(s) < WORD
  {
    BytesOfLittleEndian(s);
    assert Pow256(1) == 256 && Pow256(2) == 0x1_0000 && Pow256(3) == 0x100_0000 && Pow256(4) == WORD;
  }

  /** (hi << 8m) + lo puts together what was read in two parts. */
  lemma JoinParts(mem: seq<Byte>, addr: nat, m: nat, n: nat)
    requires addr + m + n <= |mem| && m + n <= 4
    ensures (ShiftLeft32(HwRead(mem, addr + m, n), m) + HwRead(mem, addr, m)) % WORD == HwRead(mem, addr, m + n)
  {
    JoinBytes(mem[addr..addr + m], mem[addr + m..addr + m + n]);
    assert mem[addr..addr + m + n] == mem[addr..addr + m] + mem[addr + m..addr + m + n];
  }

  lemma JoinBytes(s: seq<Byte>, t: seq<Byte>)
    requires |s| + |t| <= 4
    ensures (ShiftLeft32(LittleEndian(t), |s|) + LittleEndian(s)) % WORD == LittleEndian(s + t)
  {
    LittleEndianConcat(s, t);
    FourBytesFit(s + t);
    LargerMultiple(0, LittleEndian(t), Pow256(|s|));
    var x := LittleEndian(t) * Pow256(|s|);
    assert x % WORD == x by { NoWrap(x, LittleEndian(s)); }
    NoWrap(x, LittleEndian(s));
  }

  lemma NoWrap(x: int, y: int)
    requires 0 <= x && 0 <= y && x + y < WORD
    ensures x % WORD == x && (x + y) % WORD == x + y
  {
  }

  /** (data << 8k) >> 8k clears the top k bytes; the low 4 - k bytes are what they were. */
  lemma MaskedLowBytes(data: nat, k: nat, n: nat)
    requires n + k <= 4
    ensures BytesOf(ShiftRightBytes(ShiftLeft32(data, k), k), n) == BytesOf(data, n)
  {
    BytesOfLow(data * Pow256(k), 4, k + n);
    assert Pow256(4) == WORD;
    BytesOfSplit(data * Pow256(k) % WORD, k, n);
    BytesOfSplit(data * Pow256(k), k, n);
    ShiftBack(data, k);
    assert BytesOf(ShiftLeft32(data, k), k + n)[k..] == BytesOf(ShiftRightBytes(ShiftLeft32(data, k), k), n);
    assert BytesOf(data * Pow256(k), k + n)[k..] == BytesOf(data, n);
  }

  /** A split write, the first part masked the way the C code masks it, is one write. */
  lemma MaskedWriteSplit(mem: seq<Byte>, addr: nat, m: nat, n: nat, data: nat)
    requires addr + m + n <= |mem| && m + n <= 4
    ensures var low, high := ShiftRightBytes(ShiftLeft32(data, n), n), ShiftRightBytes(data, m);
      HwWrite(HwWrite(mem, addr, m, low), addr + m, n, high) == HwWrite(mem, addr, m + n, data)
  {
    MaskedLowBytes(data, n, m);
    WriteSplit(mem, addr, m, n, data);
  }

  lemma {:induction false} ShiftBack(v: nat, n: nat)
    ensures ShiftRightBytes(v * Pow256(n), n) == v
  {
    if n > 0 {
      ShiftBack(v, n - 1);
      Reassociate(v, Pow256(n - 1));
      assert v * Pow256(n) / 256 == v * Pow256(n - 1);
    }
  }
}
