/**
 * The string hashes of com.solers.util.HashFunction over 64-bit words.
 *
 * Each hash is a loop; its specification is a fold of one step over the characters.  Steps that can be
 * undone make the hash injective under the substitution of one character.
 */
module HashFunction {
  type Long = bv64
  type Char = bv16

  /** The hash state after the characters of s, from state h. */
  function Fold<S, C>(step: (S, C) -> S, h: S, s: seq<C>): S
    decreases |s|
  {
    if s == [] then h else Fold(step, step(h, s[0]), s[1..])
  }

  lemma {:induction false} FoldConcat<S, C>(step: (S, C) -> S, h: S, a: seq<C>, b: seq<C>)
    ensures Fold(step, h, a + b) == Fold(step, Fold(step, h, a), b)
    decreases |a|
  {
    if a == [] {
      assert a + b == b;
    } else {
      assert (a + b)[1..] == a[1..] + b;
      FoldConcat(step, step(h, a[0]), a[1..], b);
    }
  }

  lemma FoldNext<S, C>(step: (S, C) -> S, h: S, s: seq<C>, i: nat)
    requires i < |s|
    ensures Fold(step, h, s[..i + 1]) == step(Fold(step, h, s[..i]), s[i])
  {
    assert s[..i + 1] == s[..i] + [s[i]];
    FoldConcat(step, h, s[..i], [s[i]]);
  }

  /** Different characters or different states give different states. */
  ghost predicate Injective<S(!new), C(!new)>(step: (S, C) -> S) {
    && (forall h, c, d :: c != d ==> step(h, c) != step(h, d))
    && (forall h, k, c :: h != k ==> step(h, c) != step(k, c))
  }

  /** The same suffix keeps different states apart. */
  lemma {:induction false} SuffixKeepsApart<S(!new), C(!new)>(step: (S, C) -> S, h: S, k: S, s: seq<C>)
    requires Injective(step) && h != k
    ensures Fold(step, h, s) != Fold(step, k, s)
    decreases |s|
  {
    if s != [] {
      assert step(h, s[0]) != step(k, s[0]);
      SuffixKeepsApart(step, step(h, s[0]), step(k, s[0]), s[1..]);
    }
  }

  /** Two strings of the same length differ in the character at i and nowhere else. */
  predicate DifferAt<C(==)>(a: seq<C>, b: seq<C>, i: nat) {
    |a| == |b| && i < |a| && a[i] != b[i] && b == a[i := b[i]]
  }

  /** With an injective step, strings that differ in exactly one character never collide. */
  lemma SubstitutionNeverCollides<S(!new), C(!new)>(step: (S, C) -> S, h: S, a: seq<C>, b: seq<C>, i: nat)
    requires Injective(step) && DifferAt(a, b, i)
    ensures Fold(step, h, a) != Fold(step, h, b)
  {
    var prefix, suffix := a[..i], a[i + 1..];
    assert a == prefix + ([a[i]] + suffix) && b == prefix + ([b[i]] + suffix);
    FoldConcat(step, h, prefix, [a[i]] + suffix);
    FoldConcat(step, h, prefix, [b[i]] + suffix);
    var mid := Fold(step, h, prefix);
    assert ([a[i]] + suffix)[1..] == suffix && ([b[i]] + suffix)[1..] == suffix;
    assert step(mid, a[i]) != step(mid, b[i]);
    SuffixKeepsApart(step, step(mid, a[i]), step(mid, b[i]), suffix);
  }

  // ---------------------------------------------------------------- words

  /** The multiplier of both FNV hashes: the int literal 0x811C9DC5, sign-extended to a long. */
  function TimesFnv(h: Long): Long { h * 0xFFFF_FFFF_811C_9DC5 }

  function UnTimesFnv(h: Long): Long { h * 0xAE8E_611A_BD90_D90D }

  lemma TimesFnvUndone(h: Long)
    ensures UnTimesFnv(h * 0xFFFF_FFFF_811C_9DC5) == h
  {
  }

  lemma TimesFnvApart(h: Long, k: Long)
    requires h != k
    ensures TimesFnv(h) != TimesFnv(k)
  {
    TimesFnvUndone(h);
    TimesFnvUndone(k);
  }

  /** The seed of BKDR. */
  function Times131(h: Long): Long { h * 131 }

  function UnTimes131(h: Long): Long { h * 0x03E8_8CB3_C948_4E2B }

  lemma Times131Undone(h: Long)
    ensures UnTimes131(h * 131) == h
  {
  }

  lemma Times131Apart(h: Long, k: Long)
    requires h != k
    ensures Times131(h) != Times131(k)
  {
    Times131Undone(h);
    Times131Undone(k);
  }

  /** What the shifts of SDBM amount to. */
  function Times65599(h: Long): Long { h * 65599 }

  function UnTimes65599(h: Long): Long { h * 0xDF24_161E_8E7A_EFBF }

  lemma Times65599Undone(h: Long)
    ensures UnTimes65599(h * 65599) == h
  {
  }

  lemma Times65599Apart(h: Long, k: Long)
    requires h != k
    ensures Times65599(h) != Times65599(k)
  {
    Times65599Undone(h);
    Times65599Undone(k);
  }

  /** What the shift of DJB amounts to. */
  function Times33(h: Long): Long { h * 33 }

  function UnTimes33(h: Long): Long { h * 0x0F83_E0F8_3E0F_83E1 }

  lemma Times33Undone(h: Long)
    ensures UnTimes33(h * 33) == h
  {
  }

  lemma Times33Apart(h: Long, k: Long)
    requires h != k
    ensures Times33(h) != Times33(k)
  {
    Times33Undone(h);
    Times33Undone(k);
  }

  function Xor(a: Long, c: Char): Long { a ^ (c as Long) }

  function Plus(a: Long, c: Char): Long { a + (c as Long) }

  lemma XorApart(a: Long, b: Long, c: Char)
    requires a != b
    ensures Xor(a, c) != Xor(b, c)
  {
  }

  lemma XorCharsApart(a: Long, c: Char, d: Char)
    requires c != d
    ensures Xor(a, c) != Xor(a, d)
  {
  }

  lemma PlusApart(a: Long, b: Long, c: Char)
    requires a != b
    ensures Plus(a, c) != Plus(b, c)
  {
  }

  lemma AddApart(a: Long, b: Long, c: Long)
    requires b != c
    ensures a + b != a + c
  {
  }

  lemma CharsApart(c: Char, d: Char)
    requires c != d
    ensures c as Long != d as Long
  {
  }

  lemma PlusCharsApart(a: Long, c: Char, d: Char)
    requires c != d
    ensures Plus(a, c) != Plus(a, d)
  {
    CharsApart(c, d);
    AddApart(a, c as Long, d as Long);
  }

  // ---------------------------------------------------------------- the steps

  function FnvStep(h: Long, c: Char): Long { Xor(TimesFnv(h), c) }

  function Fnv1aStep(h: Long, c: Char): Long { TimesFnv(Xor(h, c)) }

  function BkdrStep(h: Long, c: Char): Long { Plus(Times131(h), c) }

  function Shl5(h: Long): Long { h << 5 }

  function Shl6(h: Long): Long { h << 6 }

  function Shl16(h: Long): Long { h << 16 }

  /** str.charAt(i) + (hash << 6) + (hash << 16) - hash. */
  function SdbmSum(c: Char, a: Long, b: Long, h: Long): Long { (c as Long) + a + b - h }

  function SdbmStep(h: Long, c: Char): Long { SdbmSum(c, Shl6(h), Shl16(h), h) }

  /** ((hash << 5) + hash) + str.charAt(i). */
  function DjbSum(a: Long, h: Long, c: Char): Long { (a + h) + (c as Long) }

  function DjbStep(h: Long, c: Char): Long { DjbSum(Shl5(h), h, c) }

  lemma Shift5(h: Long)
    ensures Shl5(h) == h * 32
  {
  }

  lemma Shift6(h: Long)
    ensures Shl6(h) == h * 64
  {
  }

  lemma Shift16(h: Long)
    ensures Shl16(h) == h * 65536
  {
  }

  lemma SdbmRing(h: Long, c: Char)
    ensures SdbmSum(c, h * 64, h * 65536, h) == Plus(h * 65599, c)
  {
  }

  lemma Unfold65599(h: Long)
    ensures Times65599(h) == h * 65599
  {
  }

  /** The shift-and-add step of SDBM multiplies by 65599 and adds the character. */
  lemma SdbmMultiplies(h: Long, c: Char)
    ensures SdbmStep(h, c) == Plus(Times65599(h), c)
  {
    Shift6(h);
    Shift16(h);
    SdbmRing(h, c);
    Unfold65599(h);
  }

  lemma DjbRing(h: Long, c: Char)
    ensures DjbSum(h * 32, h, c) == Plus(h * 33, c)
  {
  }

  lemma Unfold33(h: Long)
    ensures Times33(h) == h * 33
  {
  }

  /** The shift-and-add step of DJB multiplies by 33 and adds the character. */
  lemma DjbMultiplies(h: Long, c: Char)
    ensures DjbStep(h, c) == Plus(Times33(h), c)
  {
    Shift5(h);
    DjbRing(h, c);
    Unfold33(h);
  }

  lemma FnvInjective()
    ensures Injective(FnvStep)
  {
    forall h, c: Char, d: Char | c != d ensures FnvStep(h, c) != FnvStep(h, d) {
      XorCharsApart(TimesFnv(h), c, d);
    }
    forall h, k, c | h != k ensures FnvStep(h, c) != FnvStep(k, c) {
      TimesFnvApart(h, k);
      XorApart(TimesFnv(h), TimesFnv(k), c);
    }
  }

  lemma Fnv1aInjective()
    ensures Injective(Fnv1aStep)
  {
    forall h, c: Char, d: Char | c != d ensures Fnv1aStep(h, c) != Fnv1aStep(h, d) {
      XorCharsApart(h, c, d);
      TimesFnvApart(Xor(h, c), Xor(h, d));
    }
    forall h, k, c | h != k ensures Fnv1aStep(h, c) != Fnv1aStep(k, c) {
      XorApart(h, k, c);
      TimesFnvApart(Xor(h, c), Xor(k, c));
    }
  }

  lemma BkdrInjective()
    ensures Injective(BkdrStep)
  {
    forall h, c: Char, d: Char | c != d ensures BkdrStep(h, c) != BkdrStep(h, d) {
      PlusCharsApart(Times131(h), c, d);
    }
    forall h, k, c | h != k ensures BkdrStep(h, c) != BkdrStep(k, c) {
      Times131Apart(h, k);
      PlusApart(Times131(h), Times131(k), c);
    }
  }

  lemma SdbmInjective()
    ensures Injective(SdbmStep)
  {
    forall h, c: Char, d: Char | c != d ensures SdbmStep(h, c) != SdbmStep(h, d) {
      SdbmMultiplies(h, c);
      SdbmMultiplies(h, d);
      PlusCharsApart(Times65599(h), c, d);
    }
    forall h, k, c | h != k ensures SdbmStep(h, c) != SdbmStep(k, c) {
      SdbmMultiplies(h, c);
      SdbmMultiplies(k, c);
      Times65599Apart(h, k);
      PlusApart(Times65599(h), Times65599(k), c);
    }
  }

  lemma DjbInjective()
    ensures Injective(DjbStep)
  {
    forall h, c: Char, d: Char | c != d ensures DjbStep(h, c) != DjbStep(h, d) {
      DjbMultiplies(h, c);
      DjbMultiplies(h, d);
      PlusCharsApart(Times33(h), c, d);
    }
    forall h, k, c | h != k ensures DjbStep(h, c) != DjbStep(k, c) {
      DjbMultiplies(h, c);
      DjbMultiplies(k, c);
      Times33Apart(h, k);
      PlusApart(Times33(h), Times33(k), c);
    }
  }

  // ---------------------------------------------------------------- the hashes

  method FNVHash(str: seq<Char>) returns (hash: Long)
    ensures hash == Fold(FnvStep, 0, str)
  {
    hash := 0;
    for i := 0 to |str|
      invariant hash == Fold(FnvStep, 0, str[..i])
    {
      FoldNext(FnvStep, 0 as Long, str, i);
      hash := TimesFnv(hash);
      hash := Xor(hash, str[i]);
    }
    assert str[..|str|] == str;
  }

  method FNV1aHash(str: seq<Char>) returns (hash: Long)
    ensures hash == Fold(Fnv1aStep, 0, str)
  {
    hash := 0;
    for i := 0 to |str|
      invariant hash == Fold(Fnv1aStep, 0, str[..i])
    {
      FoldNext(Fnv1aStep, 0 as Long, str, i);
      hash := Xor(hash, str[i]);
      hash := TimesFnv(hash);
    }
    assert str[..|str|] == str;
  }

  method BKDRHash(str: seq<Char>) returns (hash: Long)
    ensures hash == Fold(BkdrStep, 0, str)
  {
    hash := 0;
    for i := 0 to |str|
      invariant hash == Fold(BkdrStep, 0, str[..i])
    {
      FoldNext(BkdrStep, 0 as Long, str, i);
      hash := Plus(Times131(hash), str[i]);
    }
    assert str[..|str|] == str;
  }

  method SDBMHash(str: seq<Char>) returns (hash: Long)
    ensures hash == Fold(SdbmStep, 0, str)
  {
    hash := 0;
    for i := 0 to |str|
      invariant hash == Fold(SdbmStep, 0, str[..i])
    {
      FoldNext(SdbmStep, 0 as Long, str, i);
      hash := SdbmSum(str[i], Shl6(hash), Shl16(hash), hash);
    }
    assert str[..|str|] == str;
  }

  method DJBHash(str: seq<Char>) returns (hash: Long)
    ensures hash == Fold(DjbStep, 5381, str)
  {
    hash := 5381;
    for i := 0 to |str|
      invariant hash == Fold(DjbStep, 5381, str[..i])
    {
      FoldNext(DjbStep, 5381 as Long, str, i);
      hash := DjbSum(Shl5(hash), hash, str[i]);
    }
    assert str[..|str|] == str;
  }

  /** Strings that differ in exactly one character collide under none of these five hashes. */
  lemma NoHashCollides(a: seq<Char>, b: seq<Char>, i: nat)
    requires DifferAt(a, b, i)
    ensures Fold(FnvStep, 0, a) != Fold(FnvStep, 0, b)
    ensures Fold(Fnv1aStep, 0, a) != Fold(Fnv1aStep, 0, b)
    ensures Fold(BkdrStep, 0, a) != Fold(BkdrStep, 0, b)
    ensures Fold(SdbmStep, 0, a) != Fold(SdbmStep, 0, b)
    ensures Fold(DjbStep, 5381, a) != Fold(DjbStep, 5381, b)
  {
    FnvInjective();
    SubstitutionNeverCollides(FnvStep, 0, a, b, i);
    Fnv1aInjective();
    SubstitutionNeverCollides(Fnv1aStep, 0, a, b, i);
    BkdrInjective();
    SubstitutionNeverCollides(BkdrStep, 0, a, b, i);
    SdbmInjective();
    SubstitutionNeverCollides(SdbmStep, 0, a, b, i);
    DjbInjective();
    SubstitutionNeverCollides(DjbStep, 5381, a, b, i);
  }

  // ---------------------------------------------------------------- PJW

  /** (long) 0xFFFFFFFF is -1, shifted left by 28. */
  const HIGH_BITS: Long := 0xFFFF_FFFF_F000_0000

  /** Java's arithmetic shift of a long by 24. */
  function Sar24(x: Long): Long {
    if x & 0x8000_0000_0000_0000 == 0 then x >> 24 else (x >> 24) | 0xFFFF_FF00_0000_0000
  }

  function PjwSum(h: Long, c: Char): Long { (h << 4) + (c as Long) }

  function HighPart(x: Long): Long { x & HIGH_BITS }

  /** (hash ^ (test >> ThreeQuarters)) & (~HighBits). */
  function FoldDown(x: Long, test: Long): Long { (x ^ Sar24(test)) & !HIGH_BITS }

  /** The step without its branch: the low 28 bits, with the bits above folded in at bit 4. */
  function PjwFold(x: Long): Long { (x ^ ((x & HIGH_BITS) >> 24)) & 0xFFF_FFFF }

  function PjwStep(h: Long, c: Char): Long { PjwFold(PjwSum(h, c)) }

  lemma PjwSumBound(h: Long, c: Char)
    requires h < 0x1000_0000
    ensures PjwSum(h, c) < 0x2_0000_0000
  {
    assert h << 4 < 0x1_0000_0000;
    assert c as Long < 0x1_0000;
  }

  lemma LowBits(y: Long)
    ensures y & 0xFFF_FFFF < 0x1000_0000 && y & !HIGH_BITS == y & 0xFFF_FFFF
  {
  }

  lemma SignClear(x: Long)
    requires x < 0x2_0000_0000
    ensures (x & HIGH_BITS) & 0x8000_0000_0000_0000 == 0
  {
  }

  lemma NothingHigh(x: Long)
    requires HighPart(x) == 0
    ensures PjwFold(x) == x
  {
  }

  lemma PjwBranch(x: Long)
    requires x < 0x2_0000_0000
    ensures (if HighPart(x) != 0 then FoldDown(x, HighPart(x)) else x) == PjwFold(x)
    ensures PjwFold(x) < 0x1000_0000
  {
    SignClear(x);
    LowBits(x ^ ((x & HIGH_BITS) >> 24));
    if HighPart(x) == 0 {
      NothingHigh(x);
    }
  }

  /** PJWHash stays below 2^28, whatever the characters. */
  method PJWHash(str: seq<Char>) returns (hash: Long)
    ensures hash == Fold(PjwStep, 0, str)
    ensures hash < 0x1000_0000
  {
    hash := 0;
    for i := 0 to |str|
      invariant hash == Fold(PjwStep, 0, str[..i])
      invariant hash < 0x1000_0000
    {
      FoldNext(PjwStep, 0 as Long, str, i);
      PjwSumBound(hash, str[i]);
      hash := PjwSum(hash, str[i]);
      PjwBranch(hash);
      var test := HighPart(hash);
      if test != 0 {
        hash := FoldDown(hash, test);
      }
    }
    assert str[..|str|] == str;
  }
}
