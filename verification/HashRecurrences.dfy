/** What each hash makes of one more character, and the value it starts from, in operators and constants. */
module HashRecurrences {
  import opened HashFunction

  lemma XorOf(a: Long, b: Long, c: Char)
    requires a == b
    ensures Xor(a, c) == b ^ (c as Long)
  {
  }

  lemma PlusOf(a: Long, b: Long, c: Char)
    requires a == b
    ensures Plus(a, c) == b + (c as Long)
  {
  }

  lemma TimesFnvOf(a: Long, b: Long)
    requires a == b
    ensures TimesFnv(a) == b * 0xFFFF_FFFF_811C_9DC5
  {
  }

  lemma FnvStepIs(h: Long, c: Char)
    ensures FnvStep(h, c) == (h * 0xFFFF_FFFF_811C_9DC5) ^ (c as Long)
  {
    XorOf(TimesFnv(h), h * 0xFFFF_FFFF_811C_9DC5, c);
  }

  lemma {:induction false} FnvFolds(s: seq<Char>, c: Char)
    ensures Fold(FnvStep, 0, []) == 0 && Fold(FnvStep, 0, s + [c]) == FnvStep(Fold(FnvStep, 0, s), c)
  {
    FoldConcat(FnvStep, 0, s, [c]);
  }

  /** FNV multiplies, then xors. */
  lemma {:induction false} FnvAppends(s: seq<Char>, c: Char, h: Long)
    requires h == Fold(FnvStep, 0, s)
    ensures Fold(FnvStep, 0, []) == 0
    ensures Fold(FnvStep, 0, s + [c]) == (h * 0xFFFF_FFFF_811C_9DC5) ^ (c as Long)
  {
    FnvFolds(s, c);
    FnvStepIs(h, c);
  }

  lemma Fnv1aStepIs(h: Long, c: Char)
    ensures Fnv1aStep(h, c) == (h ^ (c as Long)) * 0xFFFF_FFFF_811C_9DC5
  {
    XorOf(h, h, c);
    TimesFnvOf(Xor(h, c), h ^ (c as Long));
  }

  lemma {:induction false} Fnv1aFolds(s: seq<Char>, c: Char)
    ensures Fold(Fnv1aStep, 0, []) == 0 && Fold(Fnv1aStep, 0, s + [c]) == Fnv1aStep(Fold(Fnv1aStep, 0, s), c)
  {
    FoldConcat(Fnv1aStep, 0, s, [c]);
  }

  /** FNV1a xors, then multiplies. */
  lemma {:induction false} Fnv1aAppends(s: seq<Char>, c: Char, h: Long)
    requires h == Fold(Fnv1aStep, 0, s)
    ensures Fold(Fnv1aStep, 0, []) == 0
    ensures Fold(Fnv1aStep, 0, s + [c]) == (h ^ (c as Long)) * 0xFFFF_FFFF_811C_9DC5
  {
    Fnv1aFolds(s, c);
    Fnv1aStepIs(h, c);
  }

  lemma BkdrStepIs(h: Long, c: Char)
    ensures BkdrStep(h, c) == h * 131 + (c as Long)
  {
    PlusOf(Times131(h), h * 131, c);
  }

  lemma {:induction false} BkdrFolds(s: seq<Char>, c: Char)
    ensures Fold(BkdrStep, 0, []) == 0 && Fold(BkdrStep, 0, s + [c]) == BkdrStep(Fold(BkdrStep, 0, s), c)
  {
    FoldConcat(BkdrStep, 0, s, [c]);
  }

  /** BKDR multiplies by 131 and adds. */
  lemma {:induction false} BkdrAppends(s: seq<Char>, c: Char, h: Long)
    requires h == Fold(BkdrStep, 0, s)
    ensures Fold(BkdrStep, 0, []) == 0
    ensures Fold(BkdrStep, 0, s + [c]) == h * 131 + (c as Long)
  {
    BkdrFolds(s, c);
    BkdrStepIs(h, c);
  }

  lemma SdbmStepIs(h: Long, c: Char)
    ensures SdbmStep(h, c) == h * 65599 + (c as Long)
  {
    SdbmMultiplies(h, c);
    Unfold65599(h);
    PlusOf(Times65599(h), h * 65599, c);
  }

  lemma {:induction false} SdbmFolds(s: seq<Char>, c: Char)
    ensures Fold(SdbmStep, 0, []) == 0 && Fold(SdbmStep, 0, s + [c]) == SdbmStep(Fold(SdbmStep, 0, s), c)
  {
    FoldConcat(SdbmStep, 0, s, [c]);
  }

  /** SDBM comes to multiplying by 65599 and adding. */
  lemma {:induction false} SdbmAppends(s: seq<Char>, c: Char, h: Long)
    requires h == Fold(SdbmStep, 0, s)
    ensures Fold(SdbmStep, 0, []) == 0
    ensures Fold(SdbmStep, 0, s + [c]) == h * 65599 + (c as Long)
  {
    SdbmFolds(s, c);
    SdbmStepIs(h, c);
  }

  lemma DjbStepIs(h: Long, c: Char)
    ensures DjbStep(h, c) == h * 33 + (c as Long)
  {
    DjbMultiplies(h, c);
    Unfold33(h);
    PlusOf(Times33(h), h * 33, c);
  }

  lemma {:induction false} DjbFolds(s: seq<Char>, c: Char)
    ensures Fold(DjbStep, 5381, []) == 5381 && Fold(DjbStep, 5381, s + [c]) == DjbStep(Fold(DjbStep, 5381, s), c)
  {
    FoldConcat(DjbStep, 5381, s, [c]);
  }

  /** DJB comes to multiplying by 33 and adding, from 5381 on. */
  lemma {:induction false} DjbAppends(s: seq<Char>, c: Char, h: Long)
    requires h == Fold(DjbStep, 5381, s)
    ensures Fold(DjbStep, 5381, []) == 5381
    ensures Fold(DjbStep, 5381, s + [c]) == h * 33 + (c as Long)
  {
    DjbFolds(s, c);
    DjbStepIs(h, c);
  }

  lemma PjwStepIs(h: Long, c: Char)
    ensures PjwStep(h, c) ==
        (((h << 4) + (c as Long)) ^ ((((h << 4) + (c as Long)) & 0xFFFF_FFFF_F000_0000) >> 24)) & 0xFFF_FFFF
  {
  }

  lemma {:induction false} PjwFolds(s: seq<Char>, c: Char)
    ensures Fold(PjwStep, 0, []) == 0 && Fold(PjwStep, 0, s + [c]) == PjwStep(Fold(PjwStep, 0, s), c)
  {
    FoldConcat(PjwStep, 0, s, [c]);
  }

  /** PJW shifts by four and adds; the bits from 28 on are folded in at bit 4 and cleared. */
  lemma {:induction false} PjwAppends(s: seq<Char>, c: Char, h: Long)
    requires h == Fold(PjwStep, 0, s)
    ensures Fold(PjwStep, 0, []) == 0
    ensures Fold(PjwStep, 0, s + [c]) ==
        (((h << 4) + (c as Long)) ^ ((((h << 4) + (c as Long)) & 0xFFFF_FFFF_F000_0000) >> 24)) & 0xFFF_FFFF
  {
    PjwFolds(s, c);
    PjwStepIs(h, c);
  }
}
