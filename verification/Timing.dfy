/** From timer ticks to elapsed time, on 64-bit words. */
module Timing {
  import opened Numbers

  const U64 := 0x1_0000_0000_0000_0000
  const MICROS_PER_SECOND := 1_000_000
  const NANOS_PER_SECOND := 1_000_000_000

  datatype Duration = Duration(secs: nat, nanos: nat)

  /** `Panics` stands for a division by zero. */
  datatype Outcome<T> = Panics | Done(value: T)

  function Nanos(d: Duration): nat { d.secs * NANOS_PER_SECOND + d.nanos }

  /** The ticks of a microsecond, rounded up; the sum is a 64-bit one. */
  function TicksPerMicro(freq: nat): nat {
    (freq + MICROS_PER_SECOND - 1) % U64 / MICROS_PER_SECOND
  }

  function CheckedDurationSince(freq: nat, later: nat, earlier: nat): Outcome<Option<Duration>>
    requires freq < U64
  {
    var perMicro := TicksPerMicro(freq);
    if later < earlier then Done(None)
    else if freq == 0 then Panics
    else
      var diff := later - earlier;
      if perMicro == 0 then Panics
      else Done(Some(Duration(diff / freq, diff % freq / perMicro * 1000)))
  }

  function DurationSince(freq: nat, later: nat, earlier: nat): Outcome<Duration>
    requires freq < U64
  {
    match CheckedDurationSince(freq, later, earlier)
    case Panics => Panics
    case Done(Some(d)) => Done(d)
    case Done(None) => Done(Duration(0, 0))
  }

  /** Durations compare by seconds first. */
  predicate AtLeast(a: Duration, b: Duration) { a.secs > b.secs || (a.secs == b.secs && a.nanos >= b.nanos) }

  function Expired(freq: nat, start: nat, now: nat, wanted: Duration): Outcome<bool>
    requires freq < U64
  {
    match DurationSince(freq, now, start)
    case Panics => Panics
    case Done(d) => Done(AtLeast(d, wanted))
  }

  /** A clock frequency the conversion works for. */
  predicate Usable(freq: nat) { 0 < freq <= U64 - MICROS_PER_SECOND }

  lemma PerMicroRoundsUp(freq: nat)
    requires Usable(freq)
    ensures TicksPerMicro(freq) > 0
    ensures freq <= TicksPerMicro(freq) * MICROS_PER_SECOND < freq + MICROS_PER_SECOND
  {
  }

  /** The conversion panics exactly for a frequency of zero and for one whose rounding up overflows. */
  lemma PanicsOnlyIfUnusable(freq: nat, later: nat, earlier: nat)
    requires freq < U64
    ensures CheckedDurationSince(freq, later, earlier).Panics? <==>
      earlier <= later && (freq == 0 || freq + 999_999 >= 0x1_0000_0000_0000_0000)
    ensures CheckedDurationSince(freq, later, earlier) == Done(None) <==> later < earlier
  {
    if Usable(freq) { PerMicroRoundsUp(freq); }
  }

  function Since(freq: nat, diff: nat): (d: Duration)
    requires Usable(freq)
  {
    CheckedDurationSince(freq, diff, 0).value.value
  }

  /** Only the difference of the two instants matters. */
  lemma OnlyDifference(freq: nat, later: nat, earlier: nat)
    requires Usable(freq) && earlier <= later
    ensures CheckedDurationSince(freq, later, earlier) == Done(Some(Since(freq, later - earlier)))
  {
  }

  lemma Quotient(a: nat, b: nat)
    requires b > 0
    ensures b * (a / b) <= a < b * (a / b) + b
  {
  }

  lemma QuotientAtLeast(a: nat, q: nat, b: nat)
    requires b > 0 && b * q <= a
    ensures a / b >= q
  {
    Quotient(a, b);
    FarMultiple(b, q - a / b);
    assert b * (q - a / b) == b * q - b * (a / b);
  }

  lemma AtMost(a: nat, q: nat, b: nat)
    requires b > 0 && b * q <= a < b * q + b
    ensures a / b == q
  {
    Quotient(a, b);
    FarMultiple(b, a / b - q);
    assert b * (a / b) - b * q == b * (a / b - q);
  }

  lemma Scale(a: nat, b: nat, c: nat)
    requires a <= b
    ensures a * c <= b * c && c * a <= c * b
  {
  }

  /** The nanosecond part never reaches a second, so the parts are in their normal form and fit 32 bits. */
  lemma NanosBelowSecond(freq: nat, diff: nat)
    requires Usable(freq)
    ensures Since(freq, diff).nanos <= NANOS_PER_SECOND - 1000
  {
    var p := TicksPerMicro(freq);
    var r := diff % freq;
    PerMicroRoundsUp(freq);
    Quotient(r, p);
    if r / p >= MICROS_PER_SECOND { Scale(MICROS_PER_SECOND, r / p, p); }
  }

  lemma RoundedMicros(freq: nat, p: nat, m: nat, r: nat)
    requires freq <= p * MICROS_PER_SECOND && p * m <= r
    ensures freq * m <= MICROS_PER_SECOND * r
  {
    Scale(freq, p * MICROS_PER_SECOND, m);
    assert p * MICROS_PER_SECOND * m == MICROS_PER_SECOND * (p * m);
  }

  /** The measured time never exceeds the elapsed time, which is `diff` seconds over `freq`. */
  lemma NeverExceedsElapsed(freq: nat, diff: nat)
    requires Usable(freq)
    ensures Nanos(Since(freq, diff)) * freq <= diff * NANOS_PER_SECOND
  {
    hide TicksPerMicro;
    PerMicroRoundsUp(freq);
    Quotient(diff % freq, TicksPerMicro(freq));
    RoundedMicros(freq, TicksPerMicro(freq), diff % freq / TicksPerMicro(freq), diff % freq);
    SecondsAndMicros(freq, diff / freq, diff % freq / TicksPerMicro(freq), diff % freq);
    assert diff == freq * (diff / freq) + diff % freq;
  }

  lemma SecondsAndMicros(freq: nat, q: nat, m: nat, r: nat)
    requires freq * m <= MICROS_PER_SECOND * r
    ensures (q * NANOS_PER_SECOND + m * 1000) * freq <= (freq * q + r) * NANOS_PER_SECOND
  {
    assert (q * NANOS_PER_SECOND + m * 1000) * freq == NANOS_PER_SECOND * (freq * q) + 1000 * (freq * m);
  }

  /** A later instant never measures less. */
  lemma Monotone(freq: nat, a: nat, b: nat)
    requires Usable(freq) && a <= b
    ensures Nanos(Since(freq, a)) <= Nanos(Since(freq, b))
    ensures AtLeast(Since(freq, b), Since(freq, a))
  {
    var p := TicksPerMicro(freq);
    PerMicroRoundsUp(freq);
    NanosBelowSecond(freq, a);
    NanosBelowSecond(freq, b);
    DivMonotone(a, b, freq);
    if a / freq == b / freq { DivMonotone(a % freq, b % freq, p); }
  }

  lemma DivMonotone(a: nat, b: nat, c: nat)
    requires a <= b && c > 0
    ensures a / c <= b / c
  {
    Quotient(a, c);
    Quotient(b, c);
    if a / c >= b / c + 1 { Scale(b / c + 1, a / c, c); }
  }

  lemma ComparesNanos(a: Duration, b: Duration)
    requires a.nanos < 1_000_000_000 && b.nanos < 1_000_000_000
    ensures AtLeast(a, b) <==> a.secs * 1_000_000_000 + a.nanos >= b.secs * 1_000_000_000 + b.nanos
  {
  }

  /** A timeout has fired exactly if the measured time has reached the wanted one, in nanoseconds. */
  lemma ExpiredExact(freq: nat, start: nat, now: nat, wanted: Duration)
    requires Usable(freq) && wanted.nanos < 1_000_000_000
    ensures var measured := if start <= now then Since(freq, now - start) else Duration(0, 0);
      Expired(freq, start, now, wanted) ==
        Done(measured.secs * 1_000_000_000 + measured.nanos >= wanted.secs * 1_000_000_000 + wanted.nanos)
  {
    hide Since, TicksPerMicro, AtLeast;
    if start <= now {
      OnlyDifference(freq, now, start);
      NanosBelowSecond(freq, now - start);
      ComparesNanos(Since(freq, now - start), wanted);
    } else {
      ComparesNanos(Duration(0, 0), wanted);
    }
  }

  /** A timeout does not fire early, nor stop having fired. */
  lemma ExpiredInTime(freq: nat, start: nat, now: nat, wanted: Duration)
    requires Usable(freq) && wanted.nanos < NANOS_PER_SECOND
    requires Expired(freq, start, now, wanted) == Done(true)
    ensures start <= now ==> Nanos(wanted) * freq <= (now - start) * NANOS_PER_SECOND
    ensures now < start ==> Nanos(wanted) == 0
    ensures forall later | now <= later && start <= now :: Expired(freq, start, later, wanted) == Done(true)
  {
    if start <= now {
      var d := Since(freq, now - start);
      OnlyDifference(freq, now, start);
      NanosBelowSecond(freq, now - start);
      NeverExceedsElapsed(freq, now - start);
      Scale(Nanos(wanted), Nanos(d), freq);
      forall later | now <= later ensures Expired(freq, start, later, wanted) == Done(true) {
        OnlyDifference(freq, later, start);
        Monotone(freq, now - start, later - start);
      }
    }
  }

  /** The elapsed time cut to whole microseconds, in nanoseconds. */
  function ElapsedMicros(freq: nat, diff: nat): nat
    requires freq > 0
  {
    diff * 1_000_000 / freq * 1000
  }

  predicate Exact(freq: nat, diff: nat)
    requires Usable(freq)
  {
    Nanos(Since(freq, diff)) == ElapsedMicros(freq, diff)
  }

  lemma WholeSeconds(freq: nat, diff: nat, q: nat, r: nat, micros: nat)
    requires freq > 0 && diff == freq * q + r && freq * micros <= r * MICROS_PER_SECOND < freq * micros + freq
    ensures diff * MICROS_PER_SECOND / freq == q * MICROS_PER_SECOND + micros
  {
    var all := diff * MICROS_PER_SECOND;
    assert freq * (q * MICROS_PER_SECOND + micros) == MICROS_PER_SECOND * (freq * q) + freq * micros;
    AtMost(all, q * MICROS_PER_SECOND + micros, freq);
  }

  /** Only the ticks within the last second decide. */
  lemma ExactByRemainder(freq: nat, diff: nat)
    requires Usable(freq)
    ensures Exact(freq, diff) <==> diff % freq / TicksPerMicro(freq) == diff % freq * MICROS_PER_SECOND / freq
  {
    hide TicksPerMicro, Since, ElapsedMicros;
    SinceIs(freq, diff);
    ElapsedIs(freq, diff);
  }

  lemma ElapsedIs(freq: nat, diff: nat)
    requires freq > 0
    ensures ElapsedMicros(freq, diff) == diff / freq * NANOS_PER_SECOND + diff % freq * MICROS_PER_SECOND / freq * 1000
  {
    hide ElapsedMicros;
    Quotient(diff % freq * MICROS_PER_SECOND, freq);
    Whole(diff, freq);
    ElapsedParts(freq, diff, diff / freq, diff % freq, diff % freq * MICROS_PER_SECOND / freq);
  }

  lemma Whole(a: nat, b: nat)
    requires b > 0
    ensures a == b * (a / b) + a % b
  {
  }

  lemma ElapsedParts(freq: nat, diff: nat, q: nat, r: nat, micros: nat)
    requires freq > 0 && diff == freq * q + r && freq * micros <= r * MICROS_PER_SECOND < freq * micros + freq
    ensures ElapsedMicros(freq, diff) == q * NANOS_PER_SECOND + micros * 1000
  {
    WholeSeconds(freq, diff, q, r, micros);
  }

  lemma SinceIs(freq: nat, diff: nat)
    requires Usable(freq)
    ensures TicksPerMicro(freq) > 0
    ensures Since(freq, diff) == Duration(diff / freq, diff % freq / TicksPerMicro(freq) * 1000)
  {
    hide TicksPerMicro;
    PerMicroRoundsUp(freq);
  }

  lemma FloorsAgree(freq: nat, p: nat, r: nat, k: nat)
    requires p * MICROS_PER_SECOND - 1 <= freq <= p * MICROS_PER_SECOND && r < freq && p * k <= r < p * k + p
    ensures r * MICROS_PER_SECOND / freq == k
  {
    RoundedMicros(freq, p, k, r);
    assert p * k * MICROS_PER_SECOND == (p * MICROS_PER_SECOND) * k;
    if k + 1 < MICROS_PER_SECOND {
      Scale(p * MICROS_PER_SECOND, freq + 1, k + 1);
      assert (r + 1) * MICROS_PER_SECOND <= (p * k + p) * MICROS_PER_SECOND == (p * MICROS_PER_SECOND) * (k + 1);
      assert (freq + 1) * (k + 1) == freq * (k + 1) + k + 1;
    } else {
      Scale(MICROS_PER_SECOND, k + 1, freq);
    }
    assert freq * (k + 1) == freq * k + freq;
    AtMost(r * MICROS_PER_SECOND, k, freq);
  }

  lemma SmallGain(p: nat, gap: nat, k: nat)
    requires p > 0 && 2 <= gap < MICROS_PER_SECOND && (p == 1 ==> gap <= MICROS_PER_SECOND - 2)
    requires MICROS_PER_SECOND <= gap * k && gap * (k - 1) < MICROS_PER_SECOND
    ensures 2 <= k <= MICROS_PER_SECOND && gap <= (MICROS_PER_SECOND - k) * p
  {
    if k >= 3 {
      Scale(2, k - 1, gap);
      Scale(2, gap, k - 1);
    }
    if p >= 2 { Scale(2, p, MICROS_PER_SECOND - k); }
  }

  lemma GainedOne(freq: nat, p: nat, gap: nat, k: nat)
    requires freq > 0 && p > 0 && k > 0 && freq + gap == p * MICROS_PER_SECOND && MICROS_PER_SECOND <= gap * k
    ensures k * p >= 1 && (k * p - 1) / p == k - 1 && (k * p - 1) * MICROS_PER_SECOND / freq >= k
  {
    Scale(1, k, p);
    assert p * (k - 1) + p == k * p;
    AtMost(k * p - 1, k - 1, p);
    var all := (k * p - 1) * MICROS_PER_SECOND;
    assert all == (p * MICROS_PER_SECOND) * k - MICROS_PER_SECOND == freq * k + (gap * k - MICROS_PER_SECOND);
    QuotientAtLeast(all, k, freq);
  }

  /** The first `k` at which the rounded ticks of a microsecond have gained one on the exact ones. */
  lemma FloorsDiffer(freq: nat, p: nat, gap: nat) returns (r: nat)
    requires freq > 1 && p > 0 && 2 <= gap < MICROS_PER_SECOND && freq + gap == p * MICROS_PER_SECOND
    ensures r < freq && r / p < r * MICROS_PER_SECOND / freq
  {
    var k := (MICROS_PER_SECOND + gap - 1) / gap;
    Quotient(MICROS_PER_SECOND + gap - 1, gap);
    assert gap * (k - 1) == gap * k - gap;
    SmallGain(p, gap, k);
    GainedOne(freq, p, gap, k);
    assert (MICROS_PER_SECOND - k) * p == p * MICROS_PER_SECOND - k * p;
    r := k * p - 1;
  }

  lemma ExactWithGap(freq: nat, diff: nat)
    requires Usable(freq) && (freq == 1 || TicksPerMicro(freq) * MICROS_PER_SECOND <= freq + 1)
    ensures Exact(freq, diff)
  {
    hide TicksPerMicro, Exact;
    PerMicroRoundsUp(freq);
    ExactByRemainder(freq, diff);
    if freq > 1 {
      var p, r := TicksPerMicro(freq), diff % freq;
      Quotient(r, p);
      FloorsAgree(freq, p, r, r / p);
    }
  }

  lemma InexactWithGap(freq: nat) returns (r: nat)
    requires Usable(freq) && freq > 1 && TicksPerMicro(freq) * MICROS_PER_SECOND > freq + 1
    ensures r < freq && !Exact(freq, r)
  {
    hide TicksPerMicro, Exact;
    PerMicroRoundsUp(freq);
    var p := TicksPerMicro(freq);
    r := FloorsDiffer(freq, p, p * MICROS_PER_SECOND - freq);
    ExactByRemainder(freq, r);
    Below(r, freq);
  }

  /** The time is the elapsed time cut to the microsecond, for every difference, exactly at these frequencies. */
  lemma ExactFrequencies(freq: nat)
    requires Usable(freq)
    ensures (forall diff: nat | diff < U64 :: Exact(freq, diff)) <==>
            freq == 1 || freq % 1_000_000 == 0 || freq % 1_000_000 == 999_999
  {
    hide Exact, TicksPerMicro;
    PerMicroRoundsUp(freq);
    Remainder(freq, TicksPerMicro(freq));
    if freq == 1 || TicksPerMicro(freq) * MICROS_PER_SECOND <= freq + 1 {
      forall diff: nat | diff < U64 ensures Exact(freq, diff) {
        ExactWithGap(freq, diff);
      }
    } else {
      var r := InexactWithGap(freq);
    }
  }

  lemma Remainder(freq: nat, p: nat)
    requires freq <= p * MICROS_PER_SECOND < freq + MICROS_PER_SECOND
    ensures (p * MICROS_PER_SECOND - freq <= 1) <==>
            freq % MICROS_PER_SECOND == 0 || freq % MICROS_PER_SECOND == MICROS_PER_SECOND - 1
  {
  }
}
