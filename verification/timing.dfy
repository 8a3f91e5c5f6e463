/**
 * The random delays between sends. A draw of `Random.nextInt(origin, bound)`
 * is modelled as its offset above `origin`, handed in by the caller, and
 * `nextInt(n)` as `nextInt(0, n)`.
 */
module Timing {

  /** `nextInt(origin, bound)`: uniform in `[origin, bound)`; `offset` is the draw above `origin`. */
  function NextInt(origin: int, bound: int, offset: nat): (r: int)
    requires origin + offset < bound
    ensures origin <= r < bound
  {
    origin + offset
  }

  /** `1 + random.nextInt(30)` seconds: the client's and the coordinator's delay, always in [1, 30]. */
  function AnnounceDelay(offset: nat): (seconds: int)
    requires offset < 30
    ensures 1 <= seconds <= 30
  {
    1 + NextInt(0, 30, offset)
  }

  /** `rand.nextInt(0, 31)` seconds: the peer's delay between send rounds, in [0, 30]. */
  function PeerRoundDelay(offset: nat): (seconds: int)
    requires offset < 31
    ensures 0 <= seconds <= 30
  {
    NextInt(0, 31, offset)
  }

  /** `rand.nextInt(5, 10)` seconds: the ping peer's first delay, in [5, 9]. */
  function FirstPingDelay(offset: nat): (seconds: int)
    requires offset < 5
    ensures 5 <= seconds <= 9
  {
    NextInt(5, 10, offset)
  }

  /** `rand.nextInt(5, 31)` seconds: every later ping delay, in [5, 30]. */
  function PingDelay(offset: nat): (seconds: int)
    requires offset < 26
    ensures 5 <= seconds <= 30
  {
    NextInt(5, 31, offset)
  }
}
