/** The timers (src/p2p/time.c): a clock reading and a random number give a point in time. */
module Clock {

  function InOneMinute(now: int): int
  {
    now + 60
  }

  function InThirtyMinutes(now: int): int
  {
    now + 1800
  }

  function InAboutOneMinute(now: int, random: nat): int
  {
    now + 50 + random % 20
  }

  function InAboutFiveMinutes(now: int, random: nat): int
  {
    now + 240 + random % 120
  }
}
