/** `EntityUtil.getActorFlags`: the set of actor flags a 64-bit flag word
    carries. The `ActorFlags.getByValue` table is a parameter. */
module EntityUtil {
  import opened Wrappers
  import opened JavaLang

  /** `(value & (1L << i)) != 0`. */
  predicate Bit(value: bv64, i: nat)
    requires i < 64
  {
    value & ((1 as bv64) << i) != 0
  }

  /** The loop index masked as `i & 0x3f`. */
  function Index(i: nat): (idx: nat)
    ensures idx < 64
  {
    LowBits(i, 6)
  }

  /** The mask is the identity over the loop range, so every bit position
      is examined once. */
  lemma IndexIdentity(i: nat)
    requires i < 64
    ensures Index(i) == i
  {
    assert Pow2(6) == 64 by {
      assert Pow2(1) == 2;
      assert Pow2(2) == 4;
      assert Pow2(3) == 8;
      assert Pow2(4) == 16;
      assert Pow2(5) == 32;
    }
  }

  /** The flags found among the first `n` bit positions, in loop order. */
  function FlagsBelow<F>(value: bv64, byValue: int -> Option<F>, n: nat): (r: set<F>)
    requires n <= 64
  {
    if n == 0 then {}
    else
      var i := n - 1;
      FlagsBelow(value, byValue, i) + if Bit(value, i) && byValue(i).Some? then {byValue(i).value} else {}
  }

  /** The result of `getActorFlags(value)`. */
  function ActorFlags<F>(value: bv64, byValue: int -> Option<F>): set<F>
  {
    FlagsBelow(value, byValue, 64)
  }

  /** A flag is found among the first `n` positions iff it is the table's
      entry for some set bit below `n`. */
  lemma {:induction false} FlagsBelowMember<F>(value: bv64, byValue: int -> Option<F>, n: nat, f: F)
    requires n <= 64
    ensures f in FlagsBelow(value, byValue, n) <==> exists i :: 0 <= i < n && Bit(value, i) && byValue(i) == Some(f)
  {
    if n > 0 {
      FlagsBelowMember(value, byValue, n - 1, f);
    }
  }

  /** `getActorFlags`: a flag is in the result iff its bit is set and the
      table knows its position. */
  lemma ActorFlagsMember<F>(value: bv64, byValue: int -> Option<F>, f: F)
    ensures f in ActorFlags(value, byValue) <==> exists i :: 0 <= i < 64 && Bit(value, i) && byValue(i) == Some(f)
  {
    FlagsBelowMember(value, byValue, 64, f);
  }

  lemma {:induction false} FlagsBelowZero<F>(byValue: int -> Option<F>, n: nat)
    requires n <= 64
    ensures FlagsBelow(0, byValue, n) == {}
  {
    if n > 0 {
      FlagsBelowZero(byValue, n - 1);
      assert !Bit(0, n - 1);
    }
  }

  /** A zero word carries no flag. */
  lemma ActorFlagsZero<F>(byValue: int -> Option<F>)
    ensures ActorFlags(0, byValue) == {}
  {
    FlagsBelowZero(byValue, 64);
  }

  /** A bit of `v` under the mask is also a bit of `w` when `v`'s bits
      are among `w`'s. */
  lemma MaskedSubset(v: bv64, w: bv64, m: bv64)
    requires v & w == v
    ensures v & m != 0 ==> w & m != 0
  {
  }

  lemma {:induction false} FlagsBelowMonotone<F>(v: bv64, w: bv64, byValue: int -> Option<F>, n: nat)
    requires n <= 64 && v & w == v
    ensures FlagsBelow(v, byValue, n) <= FlagsBelow(w, byValue, n)
  {
    if n > 0 {
      var i := n - 1;
      FlagsBelowMonotone(v, w, byValue, i);
      MaskedSubset(v, w, (1 as bv64) << i);
    }
  }

  /** More bits set carry at least the same flags. */
  lemma ActorFlagsMonotone<F>(v: bv64, w: bv64, byValue: int -> Option<F>)
    requires v & w == v
    ensures ActorFlags(v, byValue) <= ActorFlags(w, byValue)
  {
    FlagsBelowMonotone(v, w, byValue, 64);
  }

  /** `getActorFlags`: 64 iterations over the masked index, adding the
      flag of each set bit the table knows. */
  method GetActorFlags<F(==)>(value: bv64, byValue: int -> Option<F>) returns (flags: set<F>)
    ensures flags == ActorFlags(value, byValue)
  {
    flags := {};
    var i := 0;
    while i < 64
      invariant 0 <= i <= 64
      invariant flags == FlagsBelow(value, byValue, i)
    {
      var idx := Index(i);
      IndexIdentity(i);
      if value & ((1 as bv64) << idx) != 0 {
        var flag := byValue(i);
        if flag.Some? {
          flags := flags + {flag.value};
        }
      }
      i := i + 1;
    }
  }
}
