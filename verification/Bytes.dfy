/** Bytes of the target process and the little-endian words that memcpy builds from them. */
module Bytes {

  type Byte = b: nat | b < 256

  /** The widths the scanner accepts for one element. */
  type ElemSize = n: nat | n == 1 || n == 2 || n == 4 || n == 8 witness 1

  function Pow256(n: nat): (p: nat)
    ensures p > 0
  {
    if n == 0 then 1 else 256 * Pow256(n - 1)
  }

  /** What a zeroed uint64 holds after n bytes of the buffer are copied over its low end. */
  function Word(bytes: seq<Byte>, pos: nat, n: nat): nat
    requires pos + n <= |bytes|
    decreases n, pos
  {
    if n == 0 then 0 else bytes[pos] + 256 * Word(bytes, pos + 1, n - 1)
  }

  /** The same word, read from the target. */
  function MemoryWord(memory: nat -> Byte, addr: nat, n: nat): nat
    decreases n, addr
  {
    if n == 0 then 0 else memory(addr) + 256 * MemoryWord(memory, addr + 1, n - 1)
  }

  /** A word is no wider than the bytes it was read from. */
  lemma {:induction false} WordBound(bytes: seq<Byte>, pos: nat, n: nat)
    requires pos + n <= |bytes|
    ensures Word(bytes, pos, n) < Pow256(n)
    decreases n
  {
    if n > 0 {
      WordBound(bytes, pos + 1, n - 1);
    }
  }

  lemma {:induction false} MemoryWordBound(memory: nat -> Byte, addr: nat, n: nat)
    ensures MemoryWord(memory, addr, n) < Pow256(n)
    decreases n
  {
    if n > 0 {
      MemoryWordBound(memory, addr + 1, n - 1);
    }
  }

  lemma {:induction false} Pow256Values()
    ensures Pow256(1) == 0x100 && Pow256(2) == 0x1_0000 && Pow256(4) == 0x1_0000_0000
    ensures Pow256(8) == 0x1_0000_0000_0000_0000
  {
    assert Pow256(3) == 0x100_0000 && Pow256(5) == 0x100_0000_0000;
    assert Pow256(6) == 0x1_0000_0000_0000 && Pow256(7) == 0x100_0000_0000_0000;
  }

  /** Whatever its width, a word fits the 64 bits it is copied into. */
  lemma {:induction false} WordFits(bytes: seq<Byte>, pos: nat, es: ElemSize)
    requires pos + es <= |bytes|
    ensures Word(bytes, pos, es) < 0x1_0000_0000_0000_0000
  {
    WordBound(bytes, pos, es);
    Pow256Values();
  }

  lemma {:induction false} MemoryWordFits(memory: nat -> Byte, addr: nat, es: ElemSize)
    ensures MemoryWord(memory, addr, es) < 0x1_0000_0000_0000_0000
  {
    MemoryWordBound(memory, addr, es);
    Pow256Values();
  }

  /** The word at an address, byte by byte: the lowest address holds the lowest eight bits. */
  lemma {:induction false} MemoryWordBytes(m: nat -> Byte, a: nat)
    ensures MemoryWord(m, a, 1) == m(a)
    ensures MemoryWord(m, a, 2) == m(a) + 0x100 * m(a + 1)
    ensures MemoryWord(m, a, 4) == m(a) + 0x100 * m(a + 1) + 0x1_0000 * m(a + 2) + 0x100_0000 * m(a + 3)
    ensures MemoryWord(m, a, 8) == MemoryWord(m, a, 4) + 0x1_0000_0000 * MemoryWord(m, a + 4, 4)
  {
    OneByte(m, a);
    FourBytes(m, a);
    FourBytes(m, a + 4);
    var high := MemoryWord(m, a + 4, 4);
    assert MemoryWord(m, a + 3, 5) == m(a + 3) + 0x100 * high;
    assert MemoryWord(m, a + 2, 6) == m(a + 2) + 0x100 * MemoryWord(m, a + 3, 5);
    assert MemoryWord(m, a + 1, 7) == m(a + 1) + 0x100 * MemoryWord(m, a + 2, 6);
    assert MemoryWord(m, a, 8) == m(a) + 0x100 * MemoryWord(m, a + 1, 7);
  }

  lemma {:induction false} OneByte(m: nat -> Byte, a: nat)
    ensures MemoryWord(m, a, 1) == m(a) && MemoryWord(m, a, 2) == m(a) + 0x100 * m(a + 1)
  {
    assert MemoryWord(m, a + 1, 0) == 0 && MemoryWord(m, a + 2, 0) == 0;
    assert MemoryWord(m, a + 1, 1) == m(a + 1);
  }

  lemma {:induction false} FourBytes(m: nat -> Byte, a: nat)
    ensures MemoryWord(m, a, 4) == m(a) + 0x100 * m(a + 1) + 0x1_0000 * m(a + 2) + 0x100_0000 * m(a + 3)
  {
    OneByte(m, a + 2);
    assert MemoryWord(m, a + 1, 3) == m(a + 1) + 0x100 * MemoryWord(m, a + 2, 2);
    assert MemoryWord(m, a, 4) == m(a) + 0x100 * MemoryWord(m, a + 1, 3);
  }

  lemma {:induction false} SameDigits(x: Byte, high: nat, y: Byte, high': nat)
    ensures x + 256 * high == y + 256 * high' <==> x == y && high == high'
  {
  }

  /** Two places hold equal words exactly when they hold the same bytes. */
  lemma {:induction false} WordInjective(a: seq<Byte>, i: nat, b: seq<Byte>, j: nat, n: nat)
    requires i + n <= |a| && j + n <= |b|
    ensures Word(a, i, n) == Word(b, j, n) <==> a[i..i + n] == b[j..j + n]
    decreases n
  {
    if n > 0 {
      WordInjective(a, i + 1, b, j + 1, n - 1);
      assert a[i..i + n] == [a[i]] + a[i + 1..i + n] && b[j..j + n] == [b[j]] + b[j + 1..j + n];
      SameDigits(a[i], Word(a, i + 1, n - 1), b[j], Word(b, j + 1, n - 1));
      assert a[i..i + n] == b[j..j + n] <==> a[i] == b[j] && a[i + 1..i + n] == b[j + 1..j + n] by {
        assert a[i..i + n][0] == a[i] && a[i..i + n][1..] == a[i + 1..i + n];
        assert b[j..j + n][0] == b[j] && b[j..j + n][1..] == b[j + 1..j + n];
      }
    }
  }

  /** memcpy into a live word: its n low bytes are replaced, the bytes above them stay. */
  function OverwriteLow(word: nat, bytes: seq<Byte>, pos: nat, n: nat): nat
    requires pos + n <= |bytes|
    decreases n, pos
  {
    if n == 0 then word else bytes[pos] + 256 * OverwriteLow(word / 256, bytes, pos + 1, n - 1)
  }

  /** The copy leaves no stale high bytes when the old word was no wider than the copied bytes. */
  lemma {:induction false} OverwriteNarrow(word: nat, bytes: seq<Byte>, pos: nat, n: nat)
    requires pos + n <= |bytes| && word < Pow256(n)
    ensures OverwriteLow(word, bytes, pos, n) == Word(bytes, pos, n)
    decreases n
  {
    if n > 0 {
      OverwriteNarrow(word / 256, bytes, pos + 1, n - 1);
    }
  }

  // Products, quotients and remainders by an element size are spelled out for the four widths,
  // so that every fact about them is linear arithmetic.

  /** i * es: the byte offset of element i. */
  function Stride(i: nat, es: ElemSize): nat {
    if es == 1 then i else if es == 2 then 2 * i else if es == 4 then 4 * i else 8 * i
  }

  /** total / es: how many whole elements fit. */
  function Count(total: nat, es: ElemSize): nat {
    if es == 1 then total else if es == 2 then total / 2 else if es == 4 then total / 4 else total / 8
  }

  /** a % es. */
  function Residue(a: nat, es: ElemSize): nat {
    if es == 1 then 0 else if es == 2 then a % 2 else if es == 4 then a % 4 else a % 8
  }

  predicate Aligned(a: nat, es: ElemSize) {
    Residue(a, es) == 0
  }

  /** The spelled-out operations are the ordinary ones. */
  lemma {:induction false} WidthArithmetic(x: nat, es: ElemSize)
    ensures Stride(x, es) == x * es
    ensures Count(x, es) == x / es
    ensures Residue(x, es) == x % es
  {
    if es == 1 {} else if es == 2 {} else if es == 4 {} else {}
  }

  /** As many whole elements as possible: one more would not fit. */
  lemma {:induction false} CountFits(total: nat, es: ElemSize)
    ensures Stride(Count(total, es), es) <= total < Stride(Count(total, es), es) + es
  {
    if es == 1 {} else if es == 2 {} else if es == 4 {} else {}
  }

  lemma {:induction false} CountOfStride(i: nat, es: ElemSize)
    ensures Count(Stride(i, es), es) == i && Aligned(Stride(i, es), es)
  {
    if es == 1 {} else if es == 2 {} else if es == 4 {} else {}
  }

  /** Two aligned addresses are a whole number of elements apart. */
  lemma {:induction false} IndexOfAddress(base: nat, a: nat, es: ElemSize) returns (i: nat)
    requires base <= a && Aligned(base, es) && Aligned(a, es)
    ensures base + Stride(i, es) == a
  {
    if es == 1 {
      i := a - base;
    } else if es == 2 {
      i := a / 2 - base / 2;
    } else if es == 4 {
      i := a / 4 - base / 4;
    } else {
      i := a / 8 - base / 8;
    }
  }

  lemma {:induction false} AlignedOffset(base: nat, i: nat, es: ElemSize)
    requires Aligned(base, es)
    ensures Aligned(base + Stride(i, es), es)
  {
    WholeMultiple(base / 2 + i, base / 4 + i, base / 8 + i);
  }

  lemma {:induction false} WholeMultiple(i: nat, j: nat, k: nat)
    ensures 2 * i % 2 == 0 && 4 * j % 4 == 0 && 8 * k % 8 == 0
  {
  }

  lemma {:induction false} StrideMonotone(i: nat, j: nat, es: ElemSize)
    ensures i < j <==> Stride(i, es) + es <= Stride(j, es)
    ensures i == j <==> Stride(i, es) == Stride(j, es)
  {
  }

  lemma {:induction false} StrideNext(i: nat, es: ElemSize)
    ensures Stride(i + 1, es) == Stride(i, es) + es
  {
  }

  /** The last element that starts in time is the count. */
  lemma {:induction false} CountIsLast(n: nat, total: nat, es: ElemSize)
    requires Stride(n, es) <= total < Stride(n, es) + es
    ensures n == Count(total, es)
  {
    if es == 1 {} else if es == 2 {} else if es == 4 {} else {}
  }
}
