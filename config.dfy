/** The helper's configuration (`wmi_helper_config`) and the two termination tests of the poll loops. */
module Config {
  import opened Types

  /** The `infinite` marker for `fire_count` and `fire_time`. */
  const Infinite: Int32 := -1

  /** Namespace the default configuration connects to: `\\.\root\cimv2`. */
  const DefaultServer: string := "\\\\.\\root\\cimv2"

  datatype Config = Config(
    className: string,
    fireCount: Int32,          // cycles after which a session stops, or Infinite
    fireTime: Int32,           // milliseconds after which a session stops, or Infinite
    updatesPerSecond: Int32,   // cadence of the (unmodelled) sleep between cycles
    server: string,
    username: string,
    password: string)

  /** The default-constructed configuration: no class, unbounded count, 5000 ms, 2 polls per second. */
  function DefaultConfig(): (c: Config)
    ensures c.fireCount == Infinite && c.fireTime == 5000 && c.updatesPerSecond == 2
    ensures c.className == "" && c.server == DefaultServer && c.username == "" && c.password == ""
  {
    Config("", Infinite, 5000, 2, DefaultServer, "", "")
  }

  /** The constructor taking a class name; its own defaults make both bounds infinite. */
  function ConfigFor(className: string, fireCount: Int32 := Infinite, fireTime: Int32 := Infinite,
                     updatesPerSecond: Int32 := 2): (c: Config)
    ensures c.className == className && c.fireCount == fireCount && c.fireTime == fireTime
    ensures c.updatesPerSecond == updatesPerSecond
    ensures c.server == DefaultServer && c.username == "" && c.password == ""
  {
    Config(className, fireCount, fireTime, updatesPerSecond, DefaultServer, "", "")
  }

  /** The configurations a synchronous query refuses: it could never return, since neither
      termination test can ever be met. */
  predicate BothInfinite(c: Config): (r: bool)
    ensures r ==> forall fired: int :: !CountReached(c, fired)
    ensures r ==> forall start: Uint64, now: Uint64 :: !TimeReached(c, start, now)
    ensures !r ==> c.fireCount != Infinite || c.fireTime != Infinite
  {
    c.fireCount == Infinite && c.fireTime == Infinite
  }

  /** A synchronous query accepts any configuration with at least one finite bound, such as
      the default-constructed one; one built from a class name alone is always refused. */
  lemma ClassNameOnlyConfigIsRefused(className: string)
    ensures BothInfinite(ConfigFor(className))
    ensures !BothInfinite(DefaultConfig())
    ensures !BothInfinite(ConfigFor(className, fireCount := 3))
  {
  }

  /** `start_time + fire_time` computed in `uint64`: the `int32` bound is converted to
      unsigned, so the sum wraps modulo 2^64. */
  function Deadline(start: Uint64, fireTime: Int32): (d: Uint64)
    ensures 0 <= start + fireTime < 0x1_0000_0000_0000_0000 ==> d == start + fireTime
    ensures start + fireTime < 0 ==> d == start + fireTime + 0x1_0000_0000_0000_0000
    ensures 0x1_0000_0000_0000_0000 <= start + fireTime ==> d == start + fireTime - 0x1_0000_0000_0000_0000
  {
    (start + fireTime) % 0x1_0000_0000_0000_0000
  }

  /** The fire-count test after `fired` counted cycles: only a finite bound ends the loop,
      and only on equality. */
  predicate CountReached(c: Config, fired: int): (r: bool)
    ensures c.fireCount == Infinite ==> !r
    ensures r ==> fired == c.fireCount && fired != Infinite
  {
    c.fireCount != Infinite && fired == c.fireCount
  }

  /** The fire-time test on a clock reading. */
  predicate TimeReached(c: Config, start: Uint64, now: Uint64): (r: bool)
    ensures c.fireTime == Infinite ==> !r
    ensures c.fireTime != Infinite ==> (r <==> now >= Deadline(start, c.fireTime))
  {
    c.fireTime != Infinite && now >= Deadline(start, c.fireTime)
  }

  /** A fire count of zero or below (other than infinite) is never reached by a counter that
      starts at one; a negative fire time other than infinite puts the deadline before the start. */
  lemma NonPositiveBoundsQuirks(c: Config, fired: nat, start: Uint64)
    ensures c.fireCount != Infinite && c.fireCount <= 0 ==> !CountReached(c, fired + 1)
    ensures c.fireTime != Infinite && c.fireTime < 0 && start + c.fireTime >= 0 ==> TimeReached(c, start, start)
  {
  }
}
