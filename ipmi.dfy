/**
 * The actuator side of the gateway: the raw management-controller request
 * that `set_fan_speeds(cpu, hdd)` sends (fancontrol.py:69-85).
 * The subprocess call itself is outside the model; what is kept is the
 * layout of the request: network function 0x3a, command 0x01, then one
 * CPU fan channel followed by seven disk fan channels.
 */
module Ipmi {
  import opened Wrappers

  /** A fan duty cycle, as a percentage of the fan's maximum speed. */
  type Percent = p: int | 0 <= p <= 100

  /** One `set_fan_speeds(cpu, hdd)` call. */
  datatype Command = Command(cpu: Percent, hdd: Percent)

  const NetFn := 0x3a
  const SetFanCmd := 0x01
  const DiskChannels := 7

  /** `n` copies of `x`. */
  function Repeat(x: int, n: nat): (r: seq<int>)
    ensures |r| == n
    ensures forall k :: 0 <= k < n ==> r[k] == x
  {
    if n == 0 then [] else [x] + Repeat(x, n - 1)
  }

  /** The eight channel values: the CPU fan first, then every disk fan alike. */
  function Channels(c: Command): seq<int>
  {
    [c.cpu] + Repeat(c.hdd, DiskChannels)
  }

  /** The argument bytes after `ipmitool raw`. */
  function RawRequest(c: Command): (r: seq<int>)
    ensures |r| == 2 + 1 + DiskChannels
    ensures r[0] == NetFn && r[1] == SetFanCmd && r[2] == c.cpu
    ensures forall k :: 3 <= k < |r| ==> r[k] == c.hdd
  {
    [NetFn, SetFanCmd] + Channels(c)
  }

  /**
   * The inverse of RawRequest: the command a request was built from, or
   * `None` when the values are not the header, eight channels in range and
   * one value shared by all seven disk channels.
   */
  function ParseRawRequest(a: seq<int>): (r: Option<Command>)
    ensures r.Some? ==> RawRequest(r.value) == a
  {
    if |a| == 2 + 1 + DiskChannels && a[0] == NetFn && a[1] == SetFanCmd
       && 0 <= a[2] <= 100 && 0 <= a[3] <= 100
       && (forall k :: 3 <= k < |a| ==> a[k] == a[3])
    then
      var c := Command(a[2], a[3]);
      assert RawRequest(c) == a by {
        assert forall k :: 0 <= k < |a| ==> RawRequest(c)[k] == a[k];
      }
      Some(c)
    else None
  }

  /** Every command has a request, and the request gives the command back. */
  lemma RawRequestRoundTrip(c: Command)
    ensures |RawRequest(c)| == 2 + 1 + DiskChannels
    ensures RawRequest(c)[2] == c.cpu
    ensures forall k :: 3 <= k < |RawRequest(c)| ==> RawRequest(c)[k] == c.hdd
    ensures ParseRawRequest(RawRequest(c)) == Some(c)
  {
    var a := RawRequest(c);
    assert a[2] == c.cpu && a[3] == c.hdd;
  }

  /** Two different commands never produce the same request. */
  lemma RawRequestInjective(c: Command, d: Command)
    requires RawRequest(c) == RawRequest(d)
    ensures c == d
  {
    RawRequestRoundTrip(c);
    RawRequestRoundTrip(d);
  }
}
