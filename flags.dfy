/** The VM's condition-flags register: one bit per comparison outcome in a
    single byte, set and cleared in place. */
module Flags {

  /** The six condition flags are the values 0..5 of the C enum `Flag`; a
      flag is also its bit position. */
  type Flag = i: bv8 | i < 6

  const FLAG_E: Flag := 0
  const FLAG_G: Flag := 1
  const FLAG_L: Flag := 2
  const FLAG_NE: Flag := 3
  const FLAG_GE: Flag := 4
  const FLAG_LE: Flag := 5

  const ONE: bv8 := 1

  /** `ONE << flag`: the single bit of a flag, one of the low six. */
  function Bit(f: Flag): (b: bv8)
    ensures b != 0 && b & (b - 1) == 0 && b & 0xC0 == 0
  {
    ONE << f
  }

  /** Distinct flags own distinct bits. */
  lemma BitsDisjoint(f: Flag, g: Flag)
    ensures f != g ==> Bit(f) & Bit(g) == 0
  {
  }

  /** is: the flag's bit, shifted down to bit 0, is non-zero. */
  function Test(buf: bv8, f: Flag): (r: bool)
    ensures r <==> buf & Bit(f) != 0
  {
    ((buf & Bit(f)) >> f) != 0
  }

  /** flag_set on the register byte. */
  function WithFlag(buf: bv8, f: Flag): (r: bv8)
    ensures r & Bit(f) == Bit(f)
    ensures r & !Bit(f) == buf & !Bit(f)
  {
    buf | Bit(f)
  }

  /** flag_reset on the register byte. */
  function WithoutFlag(buf: bv8, f: Flag): (r: bv8)
    ensures r & Bit(f) == 0
    ensures r & !Bit(f) == buf & !Bit(f)
  {
    buf & !Bit(f)
  }

  /** After flag_set(f), is(f) holds and every other flag reads as before. */
  lemma SetThenTest(buf: bv8, f: Flag, g: Flag)
    ensures Test(WithFlag(buf, f), g) == (g == f || Test(buf, g))
  {
    BitsDisjoint(f, g);
  }

  /** After flag_reset(f), is(f) fails and every other flag reads as before. */
  lemma ResetThenTest(buf: bv8, f: Flag, g: Flag)
    ensures Test(WithoutFlag(buf, f), g) == (g != f && Test(buf, g))
  {
    BitsDisjoint(f, g);
  }

  /** Setting twice is setting once; likewise for resetting. */
  lemma SetResetIdempotent(buf: bv8, f: Flag)
    ensures WithFlag(WithFlag(buf, f), f) == WithFlag(buf, f)
    ensures WithoutFlag(WithoutFlag(buf, f), f) == WithoutFlag(buf, f)
  {
  }

  /** Reset after set leaves the flag false and the register as reset alone
      would leave it. */
  lemma ResetAfterSet(buf: bv8, f: Flag)
    ensures !Test(WithoutFlag(WithFlag(buf, f), f), f)
    ensures WithoutFlag(WithFlag(buf, f), f) == WithoutFlag(buf, f)
  {
  }

  /** Operations on different flags commute. */
  lemma DistinctFlagsCommute(buf: bv8, f: Flag, g: Flag)
    ensures WithFlag(WithFlag(buf, f), g) == WithFlag(WithFlag(buf, g), f)
    ensures f != g ==> WithFlag(WithoutFlag(buf, f), g) == WithoutFlag(WithFlag(buf, g), f)
  {
  }

  /** The register: a byte that flag_set and flag_reset update in place. */
  class Flags {
    var buf: bv8

    /** flag_new: every flag is clear. */
    constructor ()
      ensures buf == 0
      ensures forall f: Flag :: !Is(f)
    {
      buf := 0;
    }

    /** is */
    function Is(f: Flag): (r: bool)
      reads this
      ensures r <==> buf & Bit(f) != 0
    {
      Test(buf, f)
    }

    /** flag_set */
    method Set(f: Flag)
      modifies this
      ensures buf == WithFlag(old(buf), f)
      ensures Is(f)
      ensures forall g: Flag :: g != f ==> Is(g) == old(Is(g))
    {
      buf := buf | Bit(f);
      forall g: Flag ensures Is(g) == (g == f || old(Is(g))) {
        SetThenTest(old(buf), f, g);
      }
    }

    /** flag_reset */
    method Reset(f: Flag)
      modifies this
      ensures buf == WithoutFlag(old(buf), f)
      ensures !Is(f)
      ensures forall g: Flag :: g != f ==> Is(g) == old(Is(g))
    {
      buf := buf & !Bit(f);
      forall g: Flag ensures Is(g) == (g != f && old(Is(g))) {
        ResetThenTest(old(buf), f, g);
      }
    }
  }
}
