/**
  Repair of packet times (sanitizeHEPTimestamp, src/decoder/decoder.go). Times are nanoseconds since the
  Unix epoch; a packet carries seconds and microseconds as 32-bit numbers.
  */
module Timestamp {
  import opened Octets
  import opened HepStruct

  const SECOND: int := 1_000_000_000
  const NTP_OFFSET: int := 2208988800
  const PAST: int := 10 * 365 * 24 * 3600 * SECOND
  const FUTURE: int := 24 * 3600 * SECOND

  /** hepTimestampInWindow. */
  predicate InWindow(ts: int, now: int) {
    now - PAST <= ts <= now + FUTURE
  }

  /** The window reaches from ten years of 365 days before the receive time to one day behind it, both ends included. */
  lemma WindowEnds(now: int)
    ensures InWindow(now - 315_360_000 * 1_000_000_000, now) && !InWindow(now - 315_360_000 * 1_000_000_000 - 1, now)
    ensures InWindow(now + 86_400 * 1_000_000_000, now) && !InWindow(now + 86_400 * 1_000_000_000 + 1, now)
  {
  }

  /** time.Unix of the two fields. */
  function Reading(tsec: int, tmsec: int): int {
    tsec * SECOND + tmsec * 1000
  }

  /** Microseconds of a million and more are no microseconds. */
  function Micros(tmsec: Word): Word {
    if tmsec >= 1_000_000 then 0 else tmsec
  }

  /** The time a packet gets. */
  function Repaired(tsec: Word, tmsec: Word, now: int): int {
    var usec := Micros(tmsec);
    if tsec == 0 then now
    else if InWindow(Reading(tsec, usec), now) then Reading(tsec, usec)
    else if tsec > NTP_OFFSET && InWindow(Reading(tsec - NTP_OFFSET, usec), now) then Reading(tsec - NTP_OFFSET, usec)
    else now
  }

  /** The fields that applyTimestamp writes. */
  function Seconds(ts: int): Word {
    (ts / SECOND) % U32
  }

  function MicrosOf(ts: int): Word {
    ts % SECOND / 1000
  }

  method ApplyTimestamp(h: Hep, ts: int)
    modifies h`timestamp, h`tsec, h`tmsec
    ensures h.timestamp == ts && h.tsec == Seconds(ts) && h.tmsec == MicrosOf(ts)
  {
    h.timestamp := ts;
    h.tsec := (ts / SECOND) % U32;
    h.tmsec := ts % SECOND / 1000;
  }

  /** sanitizeHEPTimestamp: the three fields agree, the time is in the window, and nothing else changes. */
  method Sanitize(h: Hep, now: int)
    modifies h`timestamp, h`tsec, h`tmsec
    ensures h.timestamp == Repaired(old(h.tsec), old(h.tmsec), now) && InWindow(h.timestamp, now)
    ensures h.tsec == Seconds(h.timestamp) && h.tmsec == MicrosOf(h.timestamp)
  {
    if h.tmsec >= 1_000_000 { h.tmsec := 0; }
    if h.tsec == 0 {
      ApplyTimestamp(h, now);
      return;
    }
    var ts := h.tsec * SECOND + h.tmsec * 1000;
    if InWindow(ts, now) {
      ApplyTimestamp(h, ts);
      return;
    }
    if h.tsec > NTP_OFFSET {
      var converted := (h.tsec - NTP_OFFSET) * SECOND + h.tmsec * 1000;
      if InWindow(converted, now) {
        ApplyTimestamp(h, converted);
        return;
      }
    }
    ApplyTimestamp(h, now);
  }

  /** The fields name the time to the microsecond, as long as its seconds fit 32 bits. */
  lemma FieldsAgree(ts: int)
    requires 0 <= ts < U32 * SECOND
    ensures Reading(Seconds(ts), MicrosOf(ts)) <= ts < Reading(Seconds(ts), MicrosOf(ts)) + 1000
  {
  }

  lemma FieldsOfReading(tsec: Word, usec: Word)
    requires usec < 1_000_000
    ensures Seconds(Reading(tsec, usec)) == tsec && MicrosOf(Reading(tsec, usec)) == usec
  {
    var ts := Reading(tsec, usec);
    assert ts / SECOND == tsec && ts % SECOND == usec * 1000;
  }

  /** A Unix time in the window keeps its value. */
  lemma UnixTimeKept(tsec: Word, tmsec: Word, now: int)
    requires tsec != 0 && tmsec < 1_000_000 && InWindow(Reading(tsec, tmsec), now)
    ensures var ts := Repaired(tsec, tmsec, now);
            ts == Reading(tsec, tmsec) && Seconds(ts) == tsec && MicrosOf(ts) == tmsec
  {
    FieldsOfReading(tsec, tmsec);
  }

  /** A time cannot be in the window both as Unix time and as NTP time. */
  lemma ReadingsExclude(tsec: Word, usec: Word, now: int)
    ensures !(InWindow(Reading(tsec, usec), now) && InWindow(Reading(tsec - NTP_OFFSET, usec), now))
  {
    assert Reading(tsec, usec) - Reading(tsec - NTP_OFFSET, usec) == NTP_OFFSET * SECOND;
  }

  /** A time in the window that was sent with the NTP offset is recovered exactly. */
  lemma NtpTimeRecovered(unix: Word, usec: Word, now: int)
    requires unix != 0 && usec < 1_000_000 && InWindow(Reading(unix, usec), now) && unix + NTP_OFFSET < U32
    ensures var ts := Repaired(unix + NTP_OFFSET, usec, now);
            ts == Reading(unix, usec) && Seconds(ts) == unix && MicrosOf(ts) == usec
  {
    ReadingsExclude(unix + NTP_OFFSET, usec, now);
    FieldsOfReading(unix, usec);
  }

  /** A time that is missing, or in the window in neither reading, becomes the receive time. */
  lemma OtherwiseNow(tsec: Word, tmsec: Word, now: int)
    requires var usec := if tsec == 0 || tmsec >= 1_000_000 then 0 else tmsec;
             tsec == 0 || !(InWindow(Reading(tsec, usec), now) || InWindow(Reading(tsec - NTP_OFFSET, usec), now))
    ensures Repaired(tsec, tmsec, now) == now
  {
  }

  /** Microseconds of a million and more count as none, and nothing else of the time is lost. */
  lemma BadMicros(tsec: Word, tmsec: Word, now: int)
    requires tmsec >= 1_000_000
    ensures Repaired(tsec, tmsec, now) == Repaired(tsec, 0, now)
  {
  }

  /** The receive time, cut to the fields, reads as itself or does not read at all. */
  lemma NowAgain(now: int)
    ensures var ts := Repaired(Seconds(now), MicrosOf(now), now);
            Seconds(ts) == Seconds(now) && MicrosOf(ts) == MicrosOf(now)
  {
    var tsec, usec := Seconds(now), MicrosOf(now);
    var q := now / SECOND / U32;
    assert now / SECOND == q * U32 + tsec;
    assert now == (q * U32 + tsec) * SECOND + now % SECOND;
    assert usec < 1_000_000 && 0 <= now % SECOND - usec * 1000 < 1000;
    assert Reading(tsec, usec) == now - q * (U32 * SECOND) - (now % SECOND - usec * 1000);
    if InWindow(Reading(tsec, usec), now) {
      FieldsOfReading(tsec, usec);
    } else if InWindow(Reading(tsec - NTP_OFFSET, usec), now) {
      NoSuchMultiple(q);
    }
  }

  /** No whole number of 32-bit rounds makes up for the NTP offset within the window. */
  lemma NoSuchMultiple(q: int)
    ensures q * (U32 * SECOND) + NTP_OFFSET * SECOND > PAST ||
            q * (U32 * SECOND) + NTP_OFFSET * SECOND < -FUTURE - SECOND
  {
    if q >= 0 {
      assert q * (U32 * SECOND) >= 0;
    } else {
      assert q * (U32 * SECOND) <= -(U32 * SECOND);
    }
  }

  /** Running the repair again on its own result changes nothing in the fields. */
  lemma RepairIsStable(tsec: Word, tmsec: Word, now: int)
    ensures var ts := Repaired(tsec, tmsec, now);
            var again := Repaired(Seconds(ts), MicrosOf(ts), now);
            Seconds(again) == Seconds(ts) && MicrosOf(again) == MicrosOf(ts)
  {
    var usec := Micros(tmsec);
    var ts := Repaired(tsec, tmsec, now);
    if ts == now {
      NowAgain(now);
    } else if InWindow(Reading(tsec, usec), now) {
      FieldsOfReading(tsec, usec);
    } else {
      FieldsOfReading(tsec - NTP_OFFSET, usec);
    }
  }
}
