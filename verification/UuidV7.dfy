/** The version-7 UUID as one 128-bit expression. */
module UuidV7 {
  const MS_BOUND: bv128 := 0x1_0000_0000_0000
  const RAND_BOUND: bv128 := 0x400_0000_0000_0000_0000

  function Uuid7(ms: bv128, rand: bv128): bv128 {
    (ms << 80) | ((0x7 as bv128) << 76) | ((rand >> 62) << 64) | ((2 as bv128) << 62)
    | (rand & (((1 as bv128) << 62) - 1))
  }

  /** The five fields stand where section 5.7 of RFC 9562 puts them: 48 bits of milliseconds, the
      version, 12 random bits, the variant, 62 random bits. */
  lemma Layout(ms: bv128, rand: bv128)
    requires ms < MS_BOUND && rand < RAND_BOUND
    ensures var u := Uuid7(ms, rand);
            && u >> 80 == ms
            && (u >> 76) & 0xF == 7
            && (u >> 64) & 0xFFF == rand >> 62
            && (u >> 62) & 0x3 == 2
            && u & 0x3FFF_FFFF_FFFF_FFFF == rand & 0x3FFF_FFFF_FFFF_FFFF
  {
  }

  /** Equal identifiers come from equal times and equal random bits. */
  lemma Injective(ms: bv128, rand: bv128, ms': bv128, rand': bv128)
    requires ms < MS_BOUND && rand < RAND_BOUND && ms' < MS_BOUND && rand' < RAND_BOUND
    ensures Uuid7(ms, rand) == Uuid7(ms', rand') <==> ms == ms' && rand == rand'
  {
    Layout(ms, rand);
    Layout(ms', rand');
  }
}
