/** Octet strings: concatenation, big-endian integers and bitwise or. */
module Bytes {
  type byte = x: int | 0 <= x < 256
  type Bytes = seq<byte>

  /** The bytes of an ASCII literal. */
  function Ascii(s: string): Bytes {
    seq(|s|, i requires 0 <= i < |s| => if s[i] as int < 128 then s[i] as int else 63)
  }

  lemma Assoc<T>(a: seq<T>, b: seq<T>, c: seq<T>)
    ensures a + (b + c) == a + b + c
  {
  }

  lemma PrefixOfSum<T>(a: seq<T>, b: seq<T>)
    ensures a <= a + b
  {
  }

  /** s extends lo and is a prefix of hi. */
  ghost predicate Between<T>(lo: seq<T>, s: seq<T>, hi: seq<T>) { lo <= s <= hi }

  lemma BetweenWithin<T>(lo: seq<T>, from: seq<T>, s: seq<T>, to: seq<T>, hi: seq<T>)
    requires Between(lo, from, hi) && Between(from, s, to) && Between(lo, to, hi)
    ensures Between(lo, s, hi)
  {
  }

  lemma SuffixSlice<T>(s: seq<T>, from: nat, i: nat, j: nat)
    requires i <= j && from + j <= |s|
    ensures s[from..][i..j] == s[from + i..from + j] && s[from..][i..] == s[from + i..]
  {
  }

  /** The bytes of a list of blocks, one after the other. */
  function Concat(blocks: seq<Bytes>): Bytes {
    if blocks == [] then [] else blocks[0] + Concat(blocks[1..])
  }

  lemma {:induction false} ConcatAppend(left: seq<Bytes>, right: seq<Bytes>)
    ensures Concat(left + right) == Concat(left) + Concat(right)
  {
    if left == [] {
      assert left + right == right;
    } else {
      ConcatAppend(left[1..], right);
      assert (left + right)[0] == left[0] && (left + right)[1..] == left[1..] + right;
      Assoc(left[0], Concat(left[1..]), Concat(right));
    }
  }

  lemma ConcatOne(block: Bytes)
    ensures Concat([block]) == block
  {
    assert [block][1..] == [];
  }

  lemma ConcatAt(blocks: seq<Bytes>, i: nat)
    requires i < |blocks|
    ensures Concat(blocks[..i + 1]) == Concat(blocks[..i]) + blocks[i]
    ensures Concat(blocks) == Concat(blocks[..i]) + blocks[i] + Concat(blocks[i + 1..])
  {
    hide Concat;
    ConcatCut(blocks[..i + 1], i);
    assert blocks[..i + 1][..i] == blocks[..i] && blocks[..i + 1][i..] == [blocks[i]];
    ConcatOne(blocks[i]);
    ConcatCut(blocks, i + 1);
  }

  lemma ConcatCut(blocks: seq<Bytes>, i: nat)
    requires i <= |blocks|
    ensures Concat(blocks) == Concat(blocks[..i]) + Concat(blocks[i..])
  {
    assert blocks == blocks[..i] + blocks[i..];
    ConcatAppend(blocks[..i], blocks[i..]);
  }

  /** `n.to_bytes(2, "big")` and its inverse. */
  function Be16(n: nat): (r: Bytes)
    requires n < 0x1_0000
    ensures |r| == 2 && FromBe16(r[0], r[1]) == n
  {
    [n / 256, n % 256]
  }

  function FromBe16(a: byte, b: byte): (r: nat)
    ensures r < 0x1_0000 && r / 256 == a && r % 256 == b
  {
    256 * a + b
  }

  /** `n.to_bytes(3, "big")` and its inverse. */
  function Be24(n: nat): (r: Bytes)
    requires n < 0x100_0000
    ensures |r| == 3 && FromBe24(r[0], r[1], r[2]) == n
  {
    [n / 0x1_0000] + Be16(n % 0x1_0000)
  }

  function FromBe24(a: byte, b: byte, c: byte): (r: nat)
    ensures r < 0x100_0000
  {
    0x1_0000 * a + FromBe16(b, c)
  }

  /** `n.to_bytes(4, "big")` and its inverse. */
  function Be32(n: nat): (r: Bytes)
    requires n < 0x1_0000_0000
    ensures |r| == 4 && FromBe32(r[0], r[1], r[2], r[3]) == n
  {
    Be16(n / 0x1_0000) + Be16(n % 0x1_0000)
  }

  function FromBe32(a: byte, b: byte, c: byte, d: byte): (r: nat)
    ensures r < 0x1_0000_0000
    ensures r >= 0x8000_0000 <==> a >= 128
  {
    0x1_0000 * FromBe16(a, b) + FromBe16(c, d)
  }

  /** The byte order of the network, for integers of two, three and four bytes. */
  lemma NetworkOrder(a: byte, b: byte, c: byte, d: byte)
    ensures FromBe16(a, b) == 256 * a + b && Be16(256 * a + b) == [a, b]
    ensures FromBe24(a, b, c) == 65536 * a + 256 * b + c && Be24(65536 * a + 256 * b + c) == [a, b, c]
    ensures FromBe32(a, b, c, d) == 16777216 * a + 65536 * b + 256 * c + d
    ensures Be32(16777216 * a + 65536 * b + 256 * c + d) == [a, b, c, d]
  {
    var n := 256 * c + d;
    assert n / 256 == c && n % 256 == d;
    var m := 256 * a + b;
    assert (65536 * m + n) / 65536 == m && (65536 * m + n) % 65536 == n;
    assert (65536 * a + (256 * b + c)) / 65536 == a && (65536 * a + (256 * b + c)) % 65536 == 256 * b + c;
    assert (256 * b + c) / 256 == b && (256 * b + c) % 256 == c;
    assert m / 256 == a && m % 256 == b;
  }

  function Power(base: nat, exponent: nat): (r: nat)
    ensures base > 0 ==> r > 0
  {
    if exponent == 0 then 1 else base * Power(base, exponent - 1)
  }

  /** Bitwise or of two non-negative integers, bit by bit. */
  function BitOr(a: nat, b: nat): nat {
    if a == 0 && b == 0 then 0
    else 2 * BitOr(a / 2, b / 2) + (if a % 2 == 1 || b % 2 == 1 then 1 else 0)
  }

  /** The low bits of an integer, `n & (2^bits - 1)`, and what is above them. */
  function LowBits(n: nat, bits: nat): (r: nat)
    ensures r < Power(2, bits)
  {
    if bits == 0 then 0 else 2 * LowBits(n / 2, bits - 1) + n % 2
  }

  function HighBits(n: nat, bits: nat): nat {
    if bits == 0 then n else HighBits(n / 2, bits - 1)
  }

  lemma {:induction false} BitsSplit(n: nat, bits: nat)
    ensures n == Power(2, bits) * HighBits(n, bits) + LowBits(n, bits)
  {
    if bits > 0 {
      BitsSplit(n / 2, bits - 1);
      TwiceProduct(Power(2, bits - 1), HighBits(n, bits));
    }
  }

  lemma {:induction false} LowBitsOfSum(q: nat, low: nat, bits: nat)
    requires low < Power(2, bits)
    ensures LowBits(Power(2, bits) * q + low, bits) == low
  {
    if bits > 0 {
      TwiceProduct(Power(2, bits - 1), q);
      LowBitsOfSum(q, low / 2, bits - 1);
    }
  }

  lemma TwiceProduct(a: nat, b: nat)
    ensures (2 * a) * b == 2 * (a * b)
  {
  }

  lemma {:induction false} OrZero(a: nat)
    ensures BitOr(a, 0) == a && BitOr(0, a) == a
  {
    if a > 0 { OrZero(a / 2); }
  }

  /** Or-ing a number below 2^bits into one with no low bits changes just those. */
  lemma {:induction false} OrSetsLowBits(flags: nat, low: nat, bits: nat)
    requires LowBits(flags, bits) == 0 && low < Power(2, bits)
    ensures LowBits(BitOr(flags, low), bits) == low
    ensures HighBits(BitOr(flags, low), bits) == HighBits(flags, bits)
  {
    if bits == 0 {
      OrZero(flags);
    } else {
      OrSetsLowBits(flags / 2, low / 2, bits - 1);
    }
  }
}
