/** When a bundle expires. */
module Lifetime {
  import opened Bytes
  import opened Block
  import opened Primary
  import opened Bundle

  const I63 := 0x8000_0000_0000_0000

  /** The start of the year 2000, in milliseconds since 1970. */
  const EPOCH_2000 := 946684800000

  /** The end of a lifetime, in nanoseconds since 1970, without overflow. */
  function EndOfLife(time: u64, lifetime: u64): int {
    (EPOCH_2000 + time + lifetime) * 1000000
  }

  lemma WrapsBy(n: int) returns (k: int)
    requires 0 <= n < 1000000 * U64_LIMIT
    ensures WrapInt64(n) == n - k * U64_LIMIT && k >= 0 && (k == 0 <==> n < I63)
  {
    var m := n % U64_LIMIT;
    k := n / U64_LIMIT + if m < I63 then 0 else 1;
  }

  lemma WrapsTwice(time: u64) returns (k: int)
    ensures WrapInt64(WrapInt64(time) + EPOCH_2000) == time + EPOCH_2000 - k * U64_LIMIT && k >= 0
    ensures k == 0 <==> time + EPOCH_2000 < I63
  {
    k := if time + EPOCH_2000 < I63 then 0 else 1;
    if time < I63 {
      assert WrapInt64(time) == time;
    } else {
      assert WrapInt64(time) == time - U64_LIMIT;
    }
  }

  /** The computed deadline is the end of the lifetime exactly if neither timestamp nor lifetime overflows 63 bits. */
  lemma DeadlineExactIff(time: u64, lifetime: u64)
    ensures Deadline(time, lifetime) == EndOfLife(time, lifetime) <==> time + EPOCH_2000 < I63 && lifetime * 1000000 < I63
  {
    hide WrapInt64;
    var j := WrapsTwice(time);
    var k := WrapsBy(lifetime * 1000000);
  }

  /** With a clock, a bundle expires right behind the end of its lifetime, and never before, if that does not overflow. */
  lemma ExpiresByClock(p: PrimaryBlock, exts: seq<Canonical>, now: int)
    requires p.time != 0 && p.time + EPOCH_2000 < I63 && p.lifetime * 1000000 < I63
    ensures LifetimeExceeded(p, exts, now) <==> now > EndOfLife(p.time, p.lifetime)
  {
    hide Deadline;
    DeadlineExactIff(p.time, p.lifetime);
  }

  /** A lifetime of 293 years overflows, and the bundle has expired when it is made. */
  lemma LongLifetimeExpires(p: PrimaryBlock, exts: seq<Canonical>)
    requires p.time == 1 && p.lifetime == 9223372036855
    ensures LifetimeExceeded(p, exts, 0) && EndOfLife(p.time, p.lifetime) > 0
  {
    assert WrapInt64(9223372036855000000) == 9223372036855000000 - U64_LIMIT;
  }

  /** Without a clock, the one age block decides, whatever the time; without it the bundle has expired. */
  lemma ExpiresByAge(p: PrimaryBlock, exts: seq<Canonical>, now: int)
    requires p.time == 0
    ensures LifetimeExceeded(p, exts, now) <==>
              !(exists a :: ByType(exts, BUNDLE_AGE) == [a] && a.value.BundleAge? && a.value.age <= p.lifetime)
  {
    hide ByType;
    var ages := ByType(exts, BUNDLE_AGE);
    if |ages| == 1 {
      assert ages == [ages[0]];
    }
  }

  /** What has expired stays so. */
  lemma ExpiredForGood(p: PrimaryBlock, exts: seq<Canonical>, now: int, later: int)
    requires now <= later && LifetimeExceeded(p, exts, now)
    ensures LifetimeExceeded(p, exts, later)
  {
  }
}
