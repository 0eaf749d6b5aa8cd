/** `TelemetryStore`: the GDI sample log and the backend advice drawn from it. */
module Telemetry {
  import opened Common

  /** Rows of `gdi_samples` and `restart_events`; times are unix seconds. */
  datatype Sample = Sample(ts: int, count: Count)

  /** A GDI handle count, a `u32`. */
  type Count = n: nat | n <= U32_MAX

  datatype Restart = Restart(ts: int, reason: string)

  datatype Advice = Unknown | Optional | Required

  const REQUIRED_PEAK := 8500
  const SEVEN_DAYS := 7 * 24 * 60 * 60

  /** `SELECT MAX(count) FROM gdi_samples WHERE ts >= cutoff`. */
  function MaxSince(rows: seq<Sample>, cutoff: int): Option<Count> {
    if rows == [] then None
    else
      var rest, last := MaxSince(rows[..|rows| - 1], cutoff), rows[|rows| - 1];
      if last.ts < cutoff then rest
      else if rest.Some? && rest.value >= last.count then rest
      else Some(last.count)
  }

  /** The sample table as a reader meets it; the query may fail. */
  datatype Log = Log(rows: seq<Sample>, readable: bool)

  datatype QueryError = QueryFailed

  function PeakGdiLast(log: Log, now: int, lookback: int): Result<Option<Count>, QueryError> {
    if log.readable then Ok(MaxSince(log.rows, now - lookback)) else Err(QueryFailed)
  }

  function RecommendCef(log: Log, now: int): Advice {
    match PeakGdiLast(log, now, SEVEN_DAYS)
    case Ok(Some(peak)) => if peak >= REQUIRED_PEAK then Required else Optional
    case Ok(None) => Unknown
    case Err(_) => Unknown
  }

  class Store {
    var samples: seq<Sample>
    var restarts: seq<Restart>

    constructor ()
      ensures samples == [] && restarts == []
    {
      samples, restarts := [], [];
    }

    /** The insert may fail; the sink logs that and goes on. */
    method RecordGdiSample(now: int, count: Count, inserted: bool)
      modifies this`samples
      ensures samples == if inserted then old(samples) + [Sample(now, count)] else old(samples)
    {
      if inserted {
        samples := samples + [Sample(now, count)];
      }
    }

    method RecordRestart(now: int, reason: string, inserted: bool)
      modifies this`restarts
      ensures restarts == if inserted then old(restarts) + [Restart(now, reason)] else old(restarts)
    {
      if inserted {
        restarts := restarts + [Restart(now, reason)];
      }
    }
  }

  ghost predicate InWindow(rows: seq<Sample>, cutoff: int, i: int) {
    0 <= i < |rows| && rows[i].ts >= cutoff
  }

  /** Row `i` was recorded in the seven days before `now`, or later. */
  ghost predicate ThisWeek(rows: seq<Sample>, now: int, i: int) { InWindow(rows, now - 604_800, i) }

  /** The peak is the count of some sample in the window, and no sample there exceeds it. */
  lemma {:induction false} PeakIsMaximum(rows: seq<Sample>, cutoff: int)
    ensures MaxSince(rows, cutoff).None? <==> forall i :: !InWindow(rows, cutoff, i)
    ensures MaxSince(rows, cutoff).Some? ==>
      && (exists i :: InWindow(rows, cutoff, i) && rows[i].count == MaxSince(rows, cutoff).value)
      && (forall i :: InWindow(rows, cutoff, i) ==> rows[i].count <= MaxSince(rows, cutoff).value)
  {
    if rows != [] {
      var n := |rows| - 1;
      PeakIsMaximum(rows[..n], cutoff);
      forall i | 0 <= i < n
        ensures InWindow(rows, cutoff, i) <==> InWindow(rows[..n], cutoff, i)
      {
      }
      if MaxSince(rows[..n], cutoff).Some? {
        var i :| InWindow(rows[..n], cutoff, i) && rows[..n][i].count == MaxSince(rows[..n], cutoff).value;
        assert InWindow(rows, cutoff, i) && rows[i].count == MaxSince(rows[..n], cutoff).value;
      }
      if rows[n].ts >= cutoff {
        assert InWindow(rows, cutoff, n);
      }
    }
  }

  /** Looking further back never lowers the peak. */
  lemma PeakMonotone(log: Log, now: int, near: int, far: int, peak: Count)
    requires near <= far && PeakGdiLast(log, now, near) == Ok(Some(peak))
    ensures exists higher :: PeakGdiLast(log, now, far) == Ok(Some(higher)) && peak <= higher
  {
    PeakIsMaximum(log.rows, now - near);
    PeakIsMaximum(log.rows, now - far);
    var i :| InWindow(log.rows, now - near, i) && log.rows[i].count == peak;
    assert InWindow(log.rows, now - far, i);
    assert PeakGdiLast(log, now, far) == Ok(Some(MaxSince(log.rows, now - far).value));
  }

  /**
   * CEF is required exactly when the log can be read and some sample of the
   * last seven days reached the threshold; nothing is known exactly when it
   * cannot be read or has no sample of that time.
   */
  lemma RequiredIffLeakSeen(log: Log, now: int)
    ensures RecommendCef(log, now) == Required
            <==> log.readable && exists i :: ThisWeek(log.rows, now, i) && log.rows[i].count >= 8500
    ensures RecommendCef(log, now) == Unknown <==> log.readable ==> forall i :: !ThisWeek(log.rows, now, i)
  {
    PeakIsMaximum(log.rows, now - SEVEN_DAYS);
    if MaxSince(log.rows, now - SEVEN_DAYS).Some? {
      var i :| InWindow(log.rows, now - SEVEN_DAYS, i) && log.rows[i].count == MaxSince(log.rows, now - SEVEN_DAYS).value;
      assert ThisWeek(log.rows, now, i);
    }
  }
}
