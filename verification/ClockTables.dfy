/** The filter and lock settings of legacy/adum7701_fmc/clkgen_core.c, by multiplier. */
module ClockTables {

  const FILTER_TABLE: seq<bv32> := [
    0x01001990, 0x01001190, 0x01009890, 0x01001890, 0x01008890, 0x01009090,
    0x01009090, 0x01009090, 0x01009090, 0x01000890, 0x01000890, 0x01000890,
    0x08009090, 0x01001090, 0x01001090, 0x01001090, 0x01001090, 0x01001090,
    0x01001090, 0x01001090, 0x01001090, 0x01001090, 0x01001090, 0x01008090,
    0x01008090, 0x01008090, 0x01008090, 0x01008090, 0x01008090, 0x01008090,
    0x01008090, 0x01008090, 0x01008090, 0x01008090, 0x01008090, 0x01008090,
    0x01008090, 0x08001090, 0x08001090, 0x08001090, 0x08001090, 0x08001090,
    0x08001090, 0x08001090, 0x08001090, 0x08001090, 0x08001090]

  const LOCK_TABLE: seq<bv32> := [
    0x060603e8, 0x060603e8, 0x080803e8, 0x0b0b03e8, 0x0e0e03e8, 0x111103e8,
    0x131303e8, 0x161603e8, 0x191903e8, 0x1c1c03e8, 0x1f1f0384, 0x1f1f0339,
    0x1f1f02ee, 0x1f1f02bc, 0x1f1f028a, 0x1f1f0271, 0x1f1f023f, 0x1f1f0226,
    0x1f1f020d, 0x1f1f01f4, 0x1f1f01db, 0x1f1f01c2, 0x1f1f01a9, 0x1f1f0190,
    0x1f1f0190, 0x1f1f0177, 0x1f1f015e, 0x1f1f015e, 0x1f1f0145, 0x1f1f0145,
    0x1f1f012c, 0x1f1f012c, 0x1f1f012c, 0x1f1f0113, 0x1f1f0113, 0x1f1f0113]

  lemma TableSizes()
    ensures |FILTER_TABLE| == 47 && |LOCK_TABLE| == 36
  {
  }

  /** clkgen_lookup_filter. */
  function LookupFilter(m: nat): bv32 {
    if m < 47 then FILTER_TABLE[m] else 0x08008090
  }

  /** clkgen_lookup_lock. */
  function LookupLock(m: nat): bv32 {
    if m < 36 then LOCK_TABLE[m] else 0x1f1f00fa
  }

  /** Beyond the tables the settings are those of the largest multipliers. */
  lemma BeyondTables(m: nat)
    ensures m >= 47 ==> LookupFilter(m) == 0x08008090
    ensures m >= 36 ==> LookupLock(m) == 0x1f1f00fa
    ensures m < 47 ==> LookupFilter(m) == FILTER_TABLE[m]
    ensures m < 36 ==> LookupLock(m) == LOCK_TABLE[m]
  {
  }
}
