/** Timestamp reconstruction. The file stores a base time at 0xc2/0xc6 and,
    before the first data block of every cycle, an offset from it; each is a
    u32 of whole seconds and a u16 of tenths of a millisecond. Times are kept
    here as whole numbers of tenths of a millisecond, which is exact. */
module Timestamps {

  const TenthsPerSecond: nat := 10000

  /** A split (seconds, tenths of a millisecond) field pair as one count of tenths. */
  function Tenths(seconds: nat, tenths: nat): nat
  {
    seconds * TenthsPerSecond + tenths
  }

  /** A count of tenths of a millisecond in seconds. */
  function InSeconds(t: int): real
  {
    t as real / TenthsPerSecond as real
  }

  /** `uts_base + (uts_offset_s + uts_offset_ms / 1000)` where both `_ms`
      values are the stored tenths divided by 10. */
  function CycleUts(baseSeconds: nat, baseTenths: nat, offsetSeconds: nat, offsetTenths: nat): nat
  {
    Tenths(baseSeconds, baseTenths) + Tenths(offsetSeconds, offsetTenths)
  }

  /** In seconds, the cycle time is the Python expression it replaces. */
  lemma CycleUtsInSeconds(baseSeconds: nat, baseTenths: nat, offsetSeconds: nat, offsetTenths: nat)
    ensures InSeconds(CycleUts(baseSeconds, baseTenths, offsetSeconds, offsetTenths))
      == (baseSeconds as real + (baseTenths as real / 10.0) / 1000.0)
         + (offsetSeconds as real + (offsetTenths as real / 10.0) / 1000.0)
  {
  }

  /** Base 1000 s and 50 tenths of a millisecond with a zero offset is 1000.005 s. */
  lemma CycleUtsExample()
    ensures InSeconds(CycleUts(1000, 50, 0, 0)) == 1000.005
  {
  }

  /** With sub-second fields below one second, a later stored offset gives a
      later cycle time, and equal offsets give equal times. */
  lemma CycleUtsOrder(baseSeconds: nat, baseTenths: nat, s1: nat, t1: nat, s2: nat, t2: nat)
    requires t1 < TenthsPerSecond && t2 < TenthsPerSecond
    ensures CycleUts(baseSeconds, baseTenths, s1, t1) < CycleUts(baseSeconds, baseTenths, s2, t2)
            <==> s1 < s2 || (s1 == s2 && t1 < t2)
  {
  }
}
