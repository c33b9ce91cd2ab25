/** `useDebounce().shouldRun(key, ms)`: a per-key throttle over a map of
    the last time each key was let through.  The clock (`Date.now()`)
    is a parameter. */
module UseDebounce {
  import opened Options

  /** Milliseconds since the epoch. */
  type Millis = int

  const DefaultWindow: Millis := 3000

  function WindowOr(ms: Option<Millis>): Millis
  {
    if ms.Some? then ms.value else DefaultWindow
  }

  /** The guard of `shouldRun`: no truthy stored time for the key (absent
      or 0), or more than `ms` elapsed since it. */
  predicate Due(last: map<string, Millis>, key: string, now: Millis, ms: Millis)
  {
    key !in last || last[key] == 0 || now - last[key] > ms
  }

  /** One call: whether it runs, and the map afterwards. */
  function Step(last: map<string, Millis>, key: string, now: Millis, ms: Millis): (r: (bool, map<string, Millis>))
    ensures r.0 <==> Due(last, key, now, ms)
    ensures r.0 ==> r.1 == last[key := now]
    ensures !r.0 ==> r.1 == last
  {
    if Due(last, key, now, ms) then (true, last[key := now]) else (false, last)
  }

  /** The `refs.current` object. */
  class Throttle {
    var last: map<string, Millis>

    constructor()
      ensures last == map[]
    {
      last := map[];
    }

    method ShouldRun(key: string, now: Millis, ms: Option<Millis>) returns (run: bool)
      modifies this
      ensures (run, last) == Step(old(last), key, now, WindowOr(ms))
      ensures forall k :: k != key ==> (k in last <==> k in old(last)) && (k in last ==> last[k] == old(last)[k])
    {
      var window := WindowOr(ms);
      if key !in last || last[key] == 0 || now - last[key] > window {
        last := last[key := now];
        return true;
      }
      return false;
    }
  }

  /** The times at which successive calls for `key` run. */
  function FireTimes(last: map<string, Millis>, key: string, times: seq<Millis>, ms: Millis): (f: seq<Millis>)
    ensures |f| <= |times|
    decreases |times|
  {
    if times == [] then []
    else
      var r := Step(last, key, times[0], ms);
      (if r.0 then [times[0]] else []) + FireTimes(r.1, key, times[1..], ms)
  }

  /** The first call for a key always runs, and a key's first run opens
      the window: calls within `ms` of the last run are suppressed
      without moving it, so consecutive runs are more than `ms` apart
      (no clock reading is 0). */
  lemma {:induction false} FireTimesSpaced(last: map<string, Millis>, key: string, times: seq<Millis>, ms: Millis)
    requires forall i :: 0 <= i < |times| ==> times[i] != 0
    ensures var f := FireTimes(last, key, times, ms);
            && (times != [] && key !in last ==> f != [] && f[0] == times[0])
            && (f != [] && key in last && last[key] != 0 ==> f[0] - last[key] > ms)
            && forall i :: 0 < i < |f| ==> f[i] - f[i - 1] > ms
    decreases |times|
  {
    if times != [] {
      var r := Step(last, key, times[0], ms);
      FireTimesSpaced(r.1, key, times[1..], ms);
      var rest := FireTimes(r.1, key, times[1..], ms);
      var f := FireTimes(last, key, times, ms);
      if r.0 {
        assert f == [times[0]] + rest;
        forall i | 0 < i < |f| ensures f[i] - f[i - 1] > ms {
          if i > 1 {
            assert f[i] == rest[i - 1] && f[i - 1] == rest[i - 2];
          }
        }
      } else {
        assert f == rest;
      }
    }
  }
}
