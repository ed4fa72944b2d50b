/**
 * Arbitrary-precision constant storage: the words of an integer kept either
 * inline (one 64-bit word) or in a word buffer owned by the compilation's
 * arena, and the IEEE 754 bit patterns that real constants store in it.
 */
module NumericStorage {

  /** 2^64, the radix of the words. */
  const WORD: nat := 0x1_0000_0000_0000_0000

  /** uint64_t */
  newtype u64 = x: int | 0 <= x < 0x1_0000_0000_0000_0000

  function Pow2(n: nat): (r: nat)
    ensures r >= 1
  {
    if n == 0 then 1 else 2 * Pow2(n - 1)
  }

  lemma {:induction false} Pow2Add(a: nat, b: nat)
    ensures Pow2(a + b) == Pow2(a) * Pow2(b)
  {
    if a > 0 {
      Pow2Add(a - 1, b);
    }
  }

  lemma Pow2Monotone(a: nat, b: nat)
    requires a <= b
    ensures Pow2(a) <= Pow2(b)
  {
    Pow2Add(a, b - a);
  }

  lemma Pow2Word()
    ensures Pow2(64) == WORD
  {
    assert Pow2(8) == 256;
    Pow2Add(8, 8);
    Pow2Add(16, 16);
    Pow2Add(32, 32);
  }

  /** APInt::getNumWords: the number of 64-bit words that hold `bitWidth` bits. */
  function NumWords(bitWidth: nat): (n: nat)
    ensures 64 * n >= bitWidth && (n > 0 ==> 64 * (n - 1) < bitWidth)
  {
    (bitWidth + 63) / 64
  }

  /** The number the words stand for, least significant word first. */
  function ToNat(words: seq<u64>): nat {
    if |words| == 0 then 0 else words[0] as nat + WORD * ToNat(words[1..])
  }

  /** The `count` least significant words of `n`. */
  function FromNat(n: nat, count: nat): (r: seq<u64>)
    ensures |r| == count
  {
    if count == 0 then [] else [(n % WORD) as u64] + FromNat(n / WORD, count - 1)
  }

  /** Splitting a number that fits into `count` words and adding the words back gives it again. */
  lemma {:induction false} ToNatFromNat(n: nat, count: nat)
    requires n < Pow2(64 * count)
    ensures ToNat(FromNat(n, count)) == n
  {
    if count > 0 {
      Pow2Add(64, 64 * (count - 1));
      Pow2Word();
      assert n / WORD < Pow2(64 * (count - 1));
      ToNatFromNat(n / WORD, count - 1);
      var r := FromNat(n, count);
      assert r[1..] == FromNat(n / WORD, count - 1);
    }
  }

  /** The bound the words of an integer always respect. */
  lemma {:induction false} ToNatBound(words: seq<u64>)
    ensures ToNat(words) < Pow2(64 * |words|)
  {
    if |words| > 0 {
      ToNatBound(words[1..]);
      Pow2Add(64, 64 * (|words| - 1));
      Pow2Word();
    }
  }

  /**
   * An llvm::APInt value: a bit width and its words. A well-formed value has
   * exactly getNumWords(width) words and no bit set at or above the width.
   */
  datatype ApInt = ApInt(bitWidth: nat, words: seq<u64>)

  predicate WellFormed(a: ApInt) {
    |a.words| == NumWords(a.bitWidth) && ToNat(a.words) < Pow2(a.bitWidth)
  }

  /** The unsigned value of an APInt. */
  function Value(a: ApInt): nat {
    ToNat(a.words)
  }

  /** The APInt of width `width` holding `n`. */
  function MakeApInt(width: nat, n: nat): (r: ApInt)
    requires n < Pow2(width)
    ensures WellFormed(r) && r.bitWidth == width && Value(r) == n
  {
    Pow2Monotone(width, 64 * NumWords(width));
    ToNatFromNat(n, NumWords(width));
    ApInt(width, FromNat(n, NumWords(width)))
  }

  /** Two well-formed APInts of one width are equal exactly when their values are. */
  lemma {:induction false} ValueDeterminesWords(a: seq<u64>, b: seq<u64>)
    requires |a| == |b| && ToNat(a) == ToNat(b)
    ensures a == b
  {
    if |a| > 0 {
      assert a[0] as int == ToNat(a) % WORD;
      assert b[0] as int == ToNat(b) % WORD;
      ValueDeterminesWords(a[1..], b[1..]);
      assert a == [a[0]] + a[1..];
      assert b == [b[0]] + b[1..];
    }
  }

  /**
   * The compilation's bump allocator, seen only through the word buffers it
   * hands out: `live` is the set of buffers allocated and not yet released.
   */
  class Arena {
    ghost var live: set<array<u64>>

    constructor()
      ensures live == {}
    {
      live := {};
    }

    /** `new (C) uint64_t[n]` */
    method Allocate(n: nat) returns (a: array<u64>)
      modifies this
      ensures fresh(a) && a.Length == n
      ensures live == old(live) + {a}
    {
      a := new u64[n];
      live := live + {a};
    }

    /** `C.Deallocate(p)`: releases a live buffer, exactly once. */
    method Deallocate(a: array<u64>)
      requires a in live
      modifies this
      ensures live == old(live) - {a}
    {
      live := live - {a};
    }
  }

  /**
   * APNumericStorage: a bit width and, in a C++ union, either the inline word
   * `val` (at most one word) or the buffer `pVal` (more than one word). The
   * ghost `stored` is the APInt the storage represents.
   */
  class NumericStorage {
    var bitWidth: nat
    var val: u64
    var pVal: array?<u64>
    ghost var stored: ApInt

    /** The buffer is the active member exactly when the width needs more than one word. */
    predicate HasAllocation()
      reads this
    {
      NumWords(bitWidth) > 1
    }

    ghost predicate Valid()
      reads this, pVal
    {
      && WellFormed(stored)
      && bitWidth == stored.bitWidth
      && (HasAllocation() ==> pVal != null && pVal[..] == stored.words)
      && (NumWords(bitWidth) == 1 ==> stored.words == [val])
      && (NumWords(bitWidth) == 0 ==> val == 0)
    }

    /** An allocated buffer is one the arena still holds live. */
    ghost predicate OwnedBy(C: Arena)
      reads this, C
    {
      HasAllocation() ==> pVal in C.live
    }

    /** A fresh storage has width 0 and value 0. */
    constructor()
      ensures Valid() && bitWidth == 0 && val == 0 && pVal == null
      ensures stored == ApInt(0, []) && Value(stored) == 0
    {
      bitWidth := 0;
      val := 0;
      pVal := null;
      stored := ApInt(0, []);
    }

    /**
     * getIntValue: reads the buffer when the width needs more than one word,
     * the inline word otherwise, and returns the stored value unchanged.
     */
    method GetIntValue() returns (r: ApInt)
      requires Valid()
      ensures r == stored && WellFormed(r)
    {
      var numWords := NumWords(bitWidth);
      if numWords > 1 {
        r := ApInt(bitWidth, pVal[..]);
      } else {
        r := ApInt(bitWidth, if numWords == 1 then [val] else []);
      }
    }

    /**
     * setIntValue: releases the old buffer when the old width needed one,
     * then keeps the words of `v` inline or in a newly allocated buffer.
     */
    method SetIntValue(C: Arena, v: ApInt)
      requires Valid() && OwnedBy(C) && WellFormed(v)
      modifies this, C
      ensures Valid() && OwnedBy(C)
      ensures stored == v && bitWidth == v.bitWidth
      ensures HasAllocation() ==> fresh(pVal)
      ensures C.live == (old(C.live) - (if old(HasAllocation()) then {old(pVal)} else {}))
                        + (if HasAllocation() then {pVal} else {})
    {
      if HasAllocation() {
        C.Deallocate(pVal);
      }
      bitWidth := v.bitWidth;
      var numWords := |v.words|;
      if numWords > 1 {
        var buf := C.Allocate(numWords);
        var i := 0;
        while i < numWords
          invariant 0 <= i <= numWords
          invariant buf[..i] == v.words[..i]
          modifies buf
        {
          buf[i] := v.words[i];
          i := i + 1;
        }
        assert buf[..] == v.words;
        pVal := buf;
      } else if numWords == 1 {
        val := v.words[0];
      } else {
        val := 0;
      }
      stored := v;
    }

    /** APFloatStorage::setValue: stores the bit pattern of `f`. */
    method SetFloatValue(C: Arena, f: APFloat)
      requires Valid() && OwnedBy(C) && ValidFloat(f)
      modifies this, C
      ensures Valid() && OwnedBy(C)
      ensures stored == BitcastToApInt(f)
      ensures HasAllocation() ==> fresh(pVal)
      ensures C.live == (old(C.live) - (if old(HasAllocation()) then {old(pVal)} else {}))
                        + (if HasAllocation() then {pVal} else {})
    {
      SetIntValue(C, BitcastToApInt(f));
    }

    /** APFloatStorage::getValue: reinterprets the stored bits in the format their width selects. */
    method GetFloatValue() returns (f: APFloat)
      requires Valid() && IsIEEEWidth(bitWidth)
      ensures f == FromBits(stored) && ValidFloat(f)
    {
      var bits := GetIntValue();
      f := FromBits(bits);
    }
  }

  // ---- IEEE 754 bit patterns ----

  /** The four binary interchange formats of IEEE 754-2008, section 3.6. */
  datatype FloatSemantics = IEEEhalf | IEEEsingle | IEEEdouble | IEEEquad

  /** binary16, binary32, binary64, binary128. */
  function SemanticsWidth(s: FloatSemantics): nat {
    match s
    case IEEEhalf => 16
    case IEEEsingle => 32
    case IEEEdouble => 64
    case IEEEquad => 128
  }

  predicate IsIEEEWidth(w: nat) {
    w == 16 || w == 32 || w == 64 || w == 128
  }

  /** GetIEEEFloatSemantics: the format is chosen by the bit width alone; other widths are unreachable. */
  function GetIEEEFloatSemantics(api: ApInt): (s: FloatSemantics)
    requires IsIEEEWidth(api.bitWidth)
    ensures SemanticsWidth(s) == api.bitWidth
  {
    if api.bitWidth == 16 then IEEEhalf
    else if api.bitWidth == 32 then IEEEsingle
    else if api.bitWidth == 64 then IEEEdouble
    else IEEEquad
  }

  /** An llvm::APFloat, kept only as its format and its bit pattern. */
  datatype APFloat = APFloat(semantics: FloatSemantics, bits: ApInt)

  predicate ValidFloat(f: APFloat) {
    WellFormed(f.bits) && f.bits.bitWidth == SemanticsWidth(f.semantics)
  }

  /** APFloat::bitcastToAPInt */
  function BitcastToApInt(f: APFloat): (r: ApInt)
    requires ValidFloat(f)
    ensures WellFormed(r) && IsIEEEWidth(r.bitWidth)
  {
    f.bits
  }

  /** `APFloat(GetIEEEFloatSemantics(Int), Int)` */
  function FromBits(api: ApInt): (f: APFloat)
    requires WellFormed(api) && IsIEEEWidth(api.bitWidth)
    ensures ValidFloat(f) && f.bits == api
  {
    APFloat(GetIEEEFloatSemantics(api), api)
  }

  /** Storing a float and reading it back yields the same format and the same bits. */
  lemma FloatBitsRoundTrip(f: APFloat)
    requires ValidFloat(f)
    ensures FromBits(BitcastToApInt(f)) == f
  {
  }

  /** Two bit patterns are read in the same format exactly when their widths agree. */
  lemma SemanticsByWidthOnly(a: ApInt, b: ApInt)
    requires IsIEEEWidth(a.bitWidth) && IsIEEEWidth(b.bitWidth)
    ensures GetIEEEFloatSemantics(a) == GetIEEEFloatSemantics(b) <==> a.bitWidth == b.bitWidth
  {
  }
}
