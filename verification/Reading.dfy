/** A byte source read in arbitrary pieces, with timeouts, interruptions and failures. */
module Reading {
  import opened Bytes

  /** What happens at one read: at most `n` bytes (at least one, if any are left), or none at all. */
  datatype Hint = AtMost(n: nat) | Idle | Interrupt | Fail

  datatype ReadResult = Data(bytes: seq<u8>) | Empty | Interrupted | Failed

  /** How many of the scheduled reads fail. */
  function Failures(schedule: seq<Hint>): nat {
    if schedule == [] then 0 else (if schedule[0].Fail? then 1 else 0) + Failures(schedule[1..])
  }

  /** How many of the scheduled reads time out with nothing. */
  function Timeouts(schedule: seq<Hint>): nat {
    if schedule == [] then 0 else (if schedule[0].Idle? then 1 else 0) + Timeouts(schedule[1..])
  }

  predicate NeverFails(schedule: seq<Hint>) {
    Failures(schedule) == 0
  }

  /** Every read delivers or is retried, so that an empty read means the end of the input. */
  predicate Steady(schedule: seq<Hint>) {
    Failures(schedule) == 0 && Timeouts(schedule) == 0
  }

  class Reader {
    var remaining: seq<u8>
    var schedule: seq<Hint>

    constructor (data: seq<u8>, schedule: seq<Hint>)
      ensures remaining == data && this.schedule == schedule
    {
      remaining, this.schedule := data, schedule;
    }

    predicate Exhausted()
      reads this
    {
      remaining == [] && schedule == []
    }

    function Fuel(): nat
      reads this
    {
      |remaining| + |schedule|
    }

    /** Each read uses up one scheduled event; once there are none left, reads deliver what they can. */
    method Read(max: nat) returns (r: ReadResult)
      requires max > 0
      modifies this
      ensures schedule == if old(schedule) == [] then [] else old(schedule)[1..]
      ensures r.Data? ==> 0 < |r.bytes| <= max && old(remaining) == r.bytes + remaining
      ensures !r.Data? ==> remaining == old(remaining)
      ensures r.Failed? <==> old(schedule) != [] && old(schedule)[0].Fail?
      ensures r.Interrupted? <==> old(schedule) != [] && old(schedule)[0].Interrupt?
      ensures r.Empty? <==> if old(schedule) != [] && !old(schedule)[0].AtMost? then old(schedule)[0].Idle?
                            else old(remaining) == []
      ensures Failures(schedule) + (if r.Failed? then 1 else 0) == Failures(old(schedule))
      ensures Timeouts(schedule) <= Timeouts(old(schedule))
      ensures Timeouts(old(schedule)) == 0 && r.Empty? ==> old(remaining) == []
      ensures Fuel() < old(Fuel()) || (old(Exhausted()) && Exhausted())
    {
      var limit := max;
      if schedule != [] {
        var hint := schedule[0];
        schedule := schedule[1..];
        match hint
        case Idle => return Empty;
        case Interrupt => return Interrupted;
        case Fail => return Failed;
        case AtMost(n) => limit := if 1 <= n < max then n else max;
      }
      if remaining == [] {
        return Empty;
      }
      var n := if limit < |remaining| then limit else |remaining|;
      r := Data(remaining[..n]);
      remaining := remaining[n..];
    }
  }
}
