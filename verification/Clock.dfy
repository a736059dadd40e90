/** The wall clock of kernel/exceptions/timer.c: a reference point that every read moves
    forward, with a frequency correction and a slew that is worked off in small parts.
    Times are in microseconds; the monotonic counter is a parameter. */
module Clock {
  import opened Calendar

  const MAX_PPM := 500
  const SLEW_CAP := 60_000_000

  function Clamp(v: int, lo: int, hi: int): int { if v < lo then lo else if v > hi then hi else v }

  function Abs(x: int): nat { if x < 0 then -x else x }

  /** The elapsed time as the frequency correction stretches it. */
  function Stretched(dt: nat, ppm: int): int { dt + Quot(dt * ppm, 1_000_000) }

  /** The most slew one read may apply. */
  function MaxSlew(dt: nat): nat {
    var m := dt * MAX_PPM / 1_000_000;
    if m < 1 then 1 else m
  }

  /** Within 500 parts per million, with one microsecond to spare. */
  lemma StretchBound(dt: nat, ppm: int)
    requires -MAX_PPM <= ppm <= MAX_PPM
    ensures Abs(Stretched(dt, ppm) - dt) <= dt / 2000 && MaxSlew(dt) == if dt < 2000 then 1 else dt / 2000
  {
    Divide(dt * MAX_PPM, 1_000_000, dt / 2000, dt % 2000 * MAX_PPM);
    var p := Abs(ppm);
    assert dt * p <= dt * MAX_PPM;
    Monotone(dt * p, dt * MAX_PPM, 1_000_000);
    assert dt * ppm == if ppm >= 0 then dt * p else -(dt * p);
  }

  /** A positive correction lengthens the time that passes and a negative one shortens it,
      by at least a microsecond exactly when it comes to as much. */
  lemma StretchSign(dt: nat, ppm: int)
    ensures (ppm >= 0 ==> Stretched(dt, ppm) >= dt) && (ppm <= 0 ==> Stretched(dt, ppm) <= dt)
    ensures Stretched(dt, ppm) > dt <==> dt * ppm >= 1_000_000
    ensures Stretched(dt, ppm) < dt <==> dt * ppm <= -1_000_000
  {
    assert ppm >= 0 ==> dt * ppm >= 0;
    assert ppm <= 0 ==> dt * ppm <= 0;
  }

  /** Of two clocks that differ in their correction, the one with more is never behind. */
  lemma StretchOrder(dt: nat, p: int, q: int)
    requires p <= q
    ensures Stretched(dt, p) <= Stretched(dt, q)
  {
    assert dt * p <= dt * q;
    if dt * q < 0 {
      Monotone(-(dt * q), -(dt * p), 1_000_000);
    } else if dt * p >= 0 {
      Monotone(dt * p, dt * q, 1_000_000);
    }
  }

  lemma Monotone(a: nat, b: nat, d: nat)
    requires a <= b && d > 0
    ensures a / d <= b / d
  {
    var q, r := a / d, b / d;
    assert q * d <= a <= b < (r + 1) * d;
    assert q >= r + 1 ==> q * d >= (r + 1) * d;
  }

  /** The errors of two stretches of time add up to no more than that of both. */
  lemma DriftAdds(x: nat, y: nat)
    ensures x / 1000 + y / 1000 <= (x + y) / 1000
  {
  }

  /** The clock: a reference point on both scales, the slew still to be applied and the
      frequency correction. */
  datatype State = State(mono: nat, unix: int, slew: int, ppm: int)

  datatype Event = Read(now: nat) | Slew(delta: int) | Tune(ppm: int) | Set(unix: nat, now: nat)

  predicate Sane(c: State) { -SLEW_CAP <= c.slew <= SLEW_CAP && -MAX_PPM <= c.ppm <= MAX_PPM }

  /** The time since the last read; the first one starts the clock. */
  function Elapsed(c: State, now: nat): nat { if c.mono == 0 || now < c.mono then 0 else now - c.mono }

  /** The part of the slew that a read after dt applies. */
  function Applied(slew: int, dt: nat): int {
    if dt == 0 then 0 else Clamp(slew, -(MaxSlew(dt) as int), MaxSlew(dt))
  }

  function Tick(c: State, e: Event): State {
    match e
    case Read(now) =>
      var dt := Elapsed(c, now);
      State(if c.mono == 0 || now > c.mono then now else c.mono,
            c.unix + Stretched(dt, c.ppm) + Applied(c.slew, dt), c.slew - Applied(c.slew, dt), c.ppm)
    case Slew(delta) => c.(slew := Clamp(c.slew + delta, -SLEW_CAP, SLEW_CAP))
    case Tune(p) => c.(ppm := Clamp(p, -MAX_PPM, MAX_PPM))
    case Set(t, now) => State(now, t, 0, c.ppm)
  }

  /** How fast a slew is worked off: a read after dt microseconds takes dt / 2000 of them
      from what is pending, at least one and never more than there are. */
  lemma SlewSpeed(c: State, now: nat)
    requires c.mono != 0 && now > c.mono
    ensures var t, dt := Tick(c, Read(now)), now - c.mono;
            && Abs(t.slew) == Abs(c.slew) - (if Abs(c.slew) <= 1 || Abs(c.slew) <= dt / 2000 then Abs(c.slew)
                                             else if dt < 2000 then 1 else dt / 2000)
            && (t.slew > 0 ==> c.slew > 0) && (t.slew < 0 ==> c.slew < 0)
  {
    hide Stretched;
  }

  /** The counter never goes back between the events. */
  predicate Timed(mono: nat, events: seq<Event>)
    decreases events
  {
    if events == [] then true
    else match events[0]
      case Read(now) => mono <= now && Timed(now, events[1..])
      case Set(_, now) => mono <= now && Timed(now, events[1..])
      case _ => Timed(mono, events[1..])
  }

  /** A read never takes the clock back and is off the elapsed time by at most a thousandth
      and one microsecond; it applies some of the slew, never more than there is, and the
      whole of it in the end. */
  lemma TickRead(c: State, now: nat)
    requires Sane(c)
    ensures var c', dt := Tick(c, Read(now)), Elapsed(c, now);
            && Sane(c') && c.unix <= c'.unix && Abs(c'.unix - c.unix - dt) <= dt / 1000 + 1
            && ((0 <= c'.slew <= c.slew) || (c.slew <= c'.slew <= 0))
            && (dt > 0 && c.slew != 0 ==> Abs(c'.slew) < Abs(c.slew))
            && (dt >= 2000 * Abs(c.slew) && dt > 0 ==> c'.slew == 0)
  {
    StretchBound(Elapsed(c, now), c.ppm);
  }

  /** Two reads of a clock with nothing to slew: more time than has passed lies between
      them exactly when the correction is positive and comes to a microsecond, and less
      exactly when it is negative and does. The clock with the greater correction is
      never behind. */
  lemma Speeds(c: State, now: nat, later: nat, ppm: int)
    requires Sane(c) && 0 < c.mono <= now <= later && c.slew == 0 && c.ppm <= ppm
    ensures var a := Tick(c, Read(now));
            var b, dt := Tick(a, Read(later)), later - now;
            && (b.unix - a.unix > dt <==> dt * c.ppm >= 1_000_000)
            && (b.unix - a.unix < dt <==> dt * c.ppm <= -1_000_000)
            && Tick(a.(ppm := ppm), Read(later)).unix >= b.unix
  {
    hide Stretched;
    StretchSign(later - now, c.ppm);
    StretchOrder(later - now, c.ppm, ppm);
  }

  /** A slew that is asked for is added to what is pending as far as a minute either way
      allows, and a correction is taken as it is within 500 parts per million. */
  lemma Asked(c: State, x: int)
    requires Sane(c)
    ensures var s, t := Tick(c, Slew(x)), Tick(c, Tune(x));
            && s == c.(slew := s.slew) && t == c.(ppm := t.ppm) && Sane(s) && Sane(t)
            && (-60_000_000 <= c.slew + x <= 60_000_000 ==> s.slew == c.slew + x)
            && (c.slew + x > 60_000_000 ==> s.slew == 60_000_000)
            && (c.slew + x < -60_000_000 ==> s.slew == -60_000_000)
            && (-500 <= x <= 500 ==> t.ppm == x) && (x > 500 ==> t.ppm == 500) && (x < -500 ==> t.ppm == -500)
  {
  }

  class Wall {
    var mono: nat
    var unix: int
    var slew: int
    var ppm: int
    var synced: bool

    constructor ()
      ensures Valid() && Now() == State(0, 0, 0, 0) && !synced
    {
      mono, unix, slew, ppm, synced := 0, 0, 0, 0, false;
    }

    function Now(): State
      reads this
    {
      State(mono, unix, slew, ppm)
    }

    predicate Valid()
      reads this
    {
      Sane(Now())
    }

    /** wall_advance_to */
    method Advance(now: nat) returns (wall: int)
      requires Valid() && mono <= now
      modifies this`mono, this`unix, this`slew
      ensures Valid() && Now() == Tick(old(Now()), Read(now)) && wall == unix
    {
      TickRead(Now(), now);
      if mono == 0 { mono := now; }
      var dt := now - mono;
      if dt > 0 {
        var base := unix + Stretched(dt, ppm);
        var max: int := MaxSlew(dt);
        if slew != 0 {
          var apply := Clamp(slew, -max, max);
          slew := slew - apply;
          base := base + apply;
        }
        mono := now;
        unix := base;
      }
      return unix;
    }

    /** timer_sync_set_unix_us */
    method SetUnix(t: nat, now: nat)
      requires Valid()
      modifies this
      ensures Valid() && Now() == Tick(old(Now()), Set(t, now)) && synced
    {
      mono, unix, slew, synced := now, t, 0, true;
    }

    /** timer_sync_slew_us */
    method SlewBy(delta: int)
      requires Valid()
      modifies this`slew
      ensures Valid() && Now() == Tick(old(Now()), Slew(delta))
    {
      slew := Clamp(slew + delta, -SLEW_CAP, SLEW_CAP);
    }

    /** timer_sync_set_freq_ppm */
    method SetFrequency(p: int)
      requires Valid()
      modifies this`ppm
      ensures Valid() && Now() == Tick(old(Now()), Tune(p))
    {
      ppm := Clamp(p, -MAX_PPM, MAX_PPM);
    }
  }

  /** The states before, between and after the events. */
  ghost predicate Traced(trace: seq<State>, events: seq<Event>) {
    && |trace| == |events| + 1 && (forall i :: 0 <= i < |trace| ==> Sane(trace[i]))
    && forall i :: 0 <= i < |events| ==> trace[i + 1] == Tick(trace[i], events[i])
  }

  /** What the reads among the events return. */
  ghost function Shown(trace: seq<State>, events: seq<Event>): seq<int>
    requires |trace| == |events| + 1
  {
    if events == [] then []
    else Shown(trace[..|events|], events[..|events| - 1]) +
         if events[|events| - 1].Read? then [trace[|events|].unix] else []
  }

  /** Any run of reads and adjustments. */
  method Run(w: Wall, events: seq<Event>) returns (walls: seq<int>, ghost trace: seq<State>)
    requires w.Valid() && Timed(w.mono, events)
    modifies w
    ensures w.Valid() && Traced(trace, events) && trace[0] == old(w.Now()) && trace[|events|] == w.Now()
    ensures walls == Shown(trace, events)
  {
    hide Tick, Shown;
    walls, trace := [], [w.Now()];
    var i := 0;
    ShownNone(trace);
    while i < |events|
      invariant i <= |events| && w.Valid() && Timed(w.mono, events[i..])
      invariant Traced(trace, events[..i]) && trace[0] == old(w.Now()) && trace[i] == w.Now()
      invariant walls == Shown(trace, events[..i])
    {
      var e := events[i];
      ghost var c := w.Now();
      assert events[i..][0] == e && events[i..][1..] == events[i + 1..];
      TickMono(c, e);
      match e {
        case Read(now) =>
          var t := w.Advance(now);
          walls := walls + [t];
        case Slew(delta) => w.SlewBy(delta);
        case Tune(p) => w.SetFrequency(p);
        case Set(t, now) => w.SetUnix(t, now);
      }
      assert events[..i + 1] == events[..i] + [e];
      ShownMore(trace, events[..i], w.Now(), e);
      trace := trace + [w.Now()];
      i := i + 1;
    }
    assert events[..i] == events;
  }

  lemma TickMono(c: State, e: Event)
    ensures (e.Read? && c.mono <= e.now) || e.Set? ==> Tick(c, e).mono == e.now
    ensures e.Slew? || e.Tune? ==> Tick(c, e).mono == c.mono && Tick(c, e).unix == c.unix
  {
  }

  lemma ShownNone(trace: seq<State>)
    requires |trace| == 1
    ensures Shown(trace, []) == []
  {
  }

  lemma ShownMore(trace: seq<State>, events: seq<Event>, c: State, e: Event)
    requires Traced(trace, events) && Sane(c) && c == Tick(trace[|events|], e)
    ensures Traced(trace + [c], events + [e])
    ensures Shown(trace + [c], events + [e]) == Shown(trace, events) + if e.Read? then [c.unix] else []
  {
    hide Tick;
    assert (trace + [c])[..|events| + 1] == trace && (events + [e])[..|events|] == events;
  }

  /** Between two settings of the clock, however it is slewed and tuned: the time never
      falls, and it is off the elapsed time by at most a thousandth and one microsecond
      for each event. */
  lemma {:induction false} Drift(trace: seq<State>, events: seq<Event>, i: nat, j: nat)
    requires Traced(trace, events) && i <= j < |trace| && trace[i].mono > 0
    requires forall k :: i <= k < j ==> !events[k].Set?
    ensures trace[i].mono <= trace[j].mono && trace[i].unix <= trace[j].unix
    ensures var dt := trace[j].mono - trace[i].mono; Abs(trace[j].unix - trace[i].unix - dt) <= dt / 1000 + (j - i)
    decreases j
  {
    hide Tick, Elapsed;
    if i < j {
      Drift(trace, events, i, j - 1);
      var c, e := trace[j - 1], events[j - 1];
      TickMono(c, e);
      if e.Read? {
        TickRead(c, e.now);
        ElapsedIs(c, e.now);
        DriftAdds(c.mono - trace[i].mono, Elapsed(c, e.now));
      }
    }
  }

  lemma ElapsedIs(c: State, now: nat)
    requires c.mono > 0
    ensures Tick(c, Read(now)).mono == c.mono + Elapsed(c, now)
  {
  }

  /** The time added by the reads from i to j for the passing of time alone. */
  ghost function Passed(trace: seq<State>, events: seq<Event>, i: nat, j: nat): int
    requires i <= j < |trace| && |trace| == |events| + 1
  {
    if i == j then 0
    else Passed(trace, events, i, j - 1) +
         match events[j - 1]
         case Read(now) => Stretched(Elapsed(trace[j - 1], now), trace[j - 1].ppm)
         case _ => 0
  }

  /** The slew asked for from i to j, as far as the cap let it in. */
  ghost function Granted(trace: seq<State>, events: seq<Event>, i: nat, j: nat): int
    requires i <= j < |trace| && |trace| == |events| + 1
  {
    if i == j then 0
    else Granted(trace, events, i, j - 1) + if events[j - 1].Slew? then trace[j].slew - trace[j - 1].slew else 0
  }

  /** Between two settings, whatever slew was granted has been applied once or is still to come. */
  lemma {:induction false} SlewAccount(trace: seq<State>, events: seq<Event>, i: nat, j: nat)
    requires Traced(trace, events) && i <= j < |trace| && forall k :: i <= k < j ==> !events[k].Set?
    ensures trace[j].unix ==
            trace[i].unix + Passed(trace, events, i, j) + trace[i].slew + Granted(trace, events, i, j) - trace[j].slew
    decreases j
  {
    if i < j { SlewAccount(trace, events, i, j - 1); }
  }

  /** The first read after a setting shows the time that was set and what has passed since,
      within a two-thousandth, and nothing of what was to be slewed before. */
  lemma ReadAfterSet(c: State, t: nat, now: nat, later: nat)
    requires Sane(c) && 0 < now <= later
    ensures var c' := Tick(Tick(c, Set(t, now)), Read(later));
            && c'.slew == 0 && c'.unix == t + Stretched(later - now, c.ppm)
            && Abs(c'.unix - t - (later - now)) <= (later - now) / 2000
  {
    StretchBound(later - now, c.ppm);
  }
}
