/** The Trickle timer of os/lib/trickle-timer.c: section 4.2 of RFC 6206 on a clock that
    counts modulo a power of two. The ideal timer below runs on unbounded time; the class
    keeps the C structure's fields and is shown to follow it. */
module TrickleTimer {
  import opened Arithmetic

  // ---------------------------------------------------------------------------
  // Powers of two

  function Pow2(n: nat): (p: nat)
    ensures 0 < p
  {
    if n == 0 then 1 else 2 * Pow2(n - 1)
  }

  lemma {:induction false} Pow2Add(a: nat, b: nat)
    ensures Pow2(a + b) == Pow2(a) * Pow2(b)
  {
    if a > 0 {
      Pow2Add(a - 1, b);
    }
  }

  lemma {:induction false} Pow2Monotone(a: nat, b: nat)
    requires a <= b
    ensures Pow2(a) <= Pow2(b)
  {
    if a < b {
      Pow2Monotone(a, b - 1);
    }
  }

  lemma MulLess(a: nat, b: nat, c: nat)
    requires 0 < c
    ensures a < b <==> a * c < b * c
    ensures a <= b <==> a * c <= b * c
  {
  }

  /** Quotient and remainder are unique. */
  lemma DivisionIs(m: nat, t: int, q: int, e: nat)
    requires e < m && t == m * q + e
    ensures t / m == q && t % m == e
  {
    var p, r := t / m, t % m;
    assert t == m * p + r;
    assert m * (q - p) == m * q - m * p == r - e;
    AwayFromZero(m, q - p);
  }

  lemma ShiftedMax(p: nat, r: nat)
    requires 0 < p && 0 < r
    ensures (p * r - 1) / p == r - 1
  {
    assert p * r - 1 == p * (r - 1) + (p - 1);
    DivisionIs(p, p * r - 1, r - 1, p - 1);
  }

  // ---------------------------------------------------------------------------
  // Configuration

  /** Which of the implementations of max_imax is compiled in. */
  datatype Flavour = Generic | FixedWidth

  ghost predicate Width(w: nat) {
    w == 16 || w == 32
  }

  /** `value` with `n` doublings stays within half the clock range, and with one more does
      not. The fixed-width variants keep strictly below. */
  ghost predicate Largest(w: nat, flavour: Flavour, value: nat, n: nat)
    requires 0 < w
  {
    match flavour
    case Generic => value * Pow2(n) <= Pow2(w - 1) < value * Pow2(n + 1)
    case FixedWidth => value * Pow2(n) < Pow2(w - 1) <= value * Pow2(n + 1)
  }

  lemma ShiftUp(w: nat, v: nat, zeros: nat, i: nat, cur: nat)
    requires cur == v * Pow2(zeros) && i <= w
    ensures cur * Pow2(i) == v * Pow2(zeros + i)
    ensures cur < Pow2(w - i) <==> cur * Pow2(i) < Pow2(w)
    ensures 2 * i <= w && Pow2(w - 2 * i) <= cur ==> Pow2(w - i) <= cur * Pow2(i)
  {
    Pow2Add(zeros, i);
    MulAssoc(v, Pow2(zeros), Pow2(i));
    Pow2Add(w - i, i);
    MulLess(cur, Pow2(w - i), Pow2(i));
    if 2 * i <= w {
      Pow2Add(w - 2 * i, i);
      MulLess(Pow2(w - 2 * i), cur, Pow2(i));
    }
  }

  /** Counting the leading zeros of `v` finds the doublings that fit. */
  lemma ZerosFit(w: nat, flavour: Flavour, value: nat, v: nat, zeros: nat)
    requires 0 < w && 2 <= value < Pow2(w - 1) && v == (if flavour == Generic then value - 1 else value)
    requires Pow2(w - 1) <= v * Pow2(zeros) < Pow2(w)
    ensures 0 < zeros && Largest(w, flavour, value, zeros - 1)
  {
    assert Pow2(0) == 1;
    assert 0 < zeros;
    var r := zeros - 1;
    var p := Pow2(r);
    assert v * Pow2(zeros) == 2 * (v * p) by {
      MulAssoc(v, 2, p);
      assert v * 2 == 2 * v;
      MulAssoc(2, v, p);
    }
    assert v * p < Pow2(w - 1);
    if flavour == Generic {
      if r >= w {
        Pow2Monotone(w - 1, r);
        MulLess(1, v, p);
      } else {
        Pow2Add(w - 1 - r, r);
        MulLess(v, Pow2(w - 1 - r), p);
        MulLess(value, Pow2(w - 1 - r), p);
      }
      MulLess(v, value, Pow2(zeros));
    }
  }

  /** max_imax. Testing the top `i` bits of `value` for zero is comparing with Pow2(w - i). */
  method MaxImax(w: nat, flavour: Flavour, value: nat) returns (n: nat)
    requires Width(w) && 2 <= value < Pow2(w - 1)
    ensures Largest(w, flavour, value, n)
  {
    hide Largest, Pow2;
    var zeros := 0;
    var cur := value;
    if flavour == Generic {
      cur := cur - 1;
    }
    ghost var v := cur;
    StartOfCount(w, value, v);
    var i := w / 2;
    while i > 0
      invariant i in {0, 1, 2, 4, 8, 16} && 2 * i <= w
      invariant cur == v * Pow2(zeros) < Pow2(w)
      invariant if i > 0 then Pow2(w - 2 * i) <= cur else Pow2(w - 1) <= cur
    {
      ShiftUp(w, v, zeros, i, cur);
      if cur < Pow2(w - i) {
        zeros := zeros + i;
        cur := cur * Pow2(i);
      }
      i := i / 2;
    }
    ZerosFit(w, flavour, value, v, zeros);
    n := zeros - 1;
  }

  lemma StartOfCount(w: nat, value: nat, v: nat)
    requires 0 < w && 1 <= v <= value < Pow2(w - 1)
    ensures v == v * Pow2(0) && v < Pow2(w) && Pow2(0) <= v
  {
  }

  lemma LargestIsUnique(w: nat, flavour: Flavour, value: nat, m: nat, n: nat)
    requires 0 < w && Largest(w, flavour, value, m) && Largest(w, flavour, value, n)
    ensures m == n
  {
    if m < n {
      Pow2Monotone(m + 1, n);
      MulMonotone(value, Pow2(m + 1), Pow2(n));
      assert false;
    }
    if n < m {
      Pow2Monotone(n + 1, m);
      MulMonotone(value, Pow2(n + 1), Pow2(m));
      assert false;
    }
  }

  /** The variants of max_imax agree exactly on the values that no number of doublings takes
      to half the clock range; on the others the fixed-width ones give one doubling less. */
  lemma FlavoursAgreeIff(w: nat, value: nat, g: nat, f: nat)
    requires 0 < w && Largest(w, Generic, value, g) && Largest(w, FixedWidth, value, f)
    ensures g == f <==> value * Pow2(g) != Pow2(w - 1)
    ensures g == f || g == f + 1
  {
    if value * Pow2(g) != Pow2(w - 1) {
      LargestIsUnique(w, FixedWidth, value, g, f);
    } else {
      var h := if g > 0 then g - 1 else 0;
      if g > 0 {
        assert Pow2(g) == 2 * Pow2(h);
        DoubleIt(value, Pow2(h));
        LargestIsUnique(w, FixedWidth, value, h, f);
      } else {
        Pow2Monotone(0, f);
        MulMonotone(value, Pow2(0), Pow2(f));
        assert false;
      }
    }
  }

  lemma DoubleIt(a: nat, b: nat)
    ensures a * (2 * b) == 2 * (a * b)
  {
  }

  /** TRICKLE_TIMER_IMIN_IS_BAD */
  predicate IminIsBad(w: nat, iMin: nat) {
    iMin < 2 || iMin > (Pow2(w) - 1) / 2
  }

  /** TRICKLE_TIMER_IPAIR_IS_BAD */
  predicate PairIsBad(w: nat, iMin: nat, iMax: nat) {
    (Pow2(w) - 1) / Pow2(iMax + 1) < iMin - 1
  }

  lemma IminTestExact(w: nat, iMin: nat)
    requires 0 < w
    ensures IminIsBad(w, iMin) <==> !(2 <= iMin < Pow2(w - 1))
  {
  }

  /** TRICKLE_TIMER_IPAIR_IS_BAD tests just whether the largest interval exceeds half the
      clock range. */
  lemma PairTestExact(w: nat, iMin: nat, iMax: nat)
    requires 0 < w && 2 <= iMin
    ensures PairIsBad(w, iMin, iMax) <==> iMin * Pow2(iMax) > Pow2(w - 1)
  {
    var p, m := Pow2(iMax + 1), Pow2(iMax);
    if iMax + 1 <= w {
      var r := Pow2(w - 1 - iMax);
      assert Pow2(w) == p * r && Pow2(w - 1) == m * r by {
        Pow2Add(iMax + 1, w - 1 - iMax);
        Pow2Add(iMax, w - 1 - iMax);
      }
      hide Pow2;
      ShiftedMax(p, r);
      MulLess(r, iMin, m);
      assert r * m == m * r && iMin * m == m * iMin;
    } else {
      Pow2Monotone(w, iMax);
      MulMonotone(m, 2, iMin);
      assert Pow2(w) - 1 < p && Pow2(w - 1) < m * iMin;
      hide Pow2;
      DivisionIs(p, Pow2(w) - 1, 0, Pow2(w) - 1);
    }
  }

  // ---------------------------------------------------------------------------
  // The ideal timer, on unbounded time

  /** What the timer is waiting for: the transmission point, drawn `t` into the interval, or
      the end of the interval. */
  datatype Alarm = Off | Fire(at: nat, t: nat) | End(at: nat)

  /** `len` is I, zero when stopped; `heard` counts consistent transmissions in the current
      interval. */
  datatype Ideal = Ideal(iMin: nat, most: nat, k: nat, len: nat, start: nat, heard: nat, alarm: Alarm)

  ghost predicate Inv(s: Ideal) {
    && 2 <= s.iMin <= s.most
    && match s.alarm
       case Off => s.len == 0
       case Fire(at, t) => s.iMin <= s.len <= s.most && s.len / 2 <= t < s.len && s.start + t <= at
       case End(at) => s.iMin <= s.len <= s.most && s.start + s.len <= at
  }

  /** A point in the second half of an interval. */
  function Draw(len: nat, r: nat): (t: nat)
    requires 2 <= len
    ensures len / 2 <= t < len
  {
    len / 2 + r % (len / 2)
  }

  /** A length between the least and the greatest. */
  function Pick(least: nat, most: nat, r: nat): (n: nat)
    requires least <= most
    ensures least <= n <= most
  {
    least + r % (most - least + 1)
  }

  function Begin(s: Ideal, now: nat, r: nat): Ideal
    requires 2 <= s.len
  {
    var t := Draw(s.len, r);
    s.(heard := 0, start := now, alarm := Fire(now + t, t))
  }

  function Started(s: Ideal, now: nat, size: nat, r: nat): Ideal
    requires 2 <= s.iMin <= s.most
  {
    Begin(s.(len := Pick(s.iMin, s.most, size)), now, r)
  }

  function Heard(s: Ideal): Ideal {
    s.(heard := s.heard + 1)
  }

  function Reset(s: Ideal, now: nat, r: nat): Ideal
    requires 2 <= s.iMin
  {
    if s.len == s.iMin then s else Begin(s.(len := s.iMin), now, r)
  }

  function Stopped(s: Ideal): Ideal {
    s.(len := 0, alarm := Off)
  }

  /** What the protocol's callback does to its own timer. */
  datatype Action = Keep | Stop | ResetIt(r: nat)

  function Acted(s: Ideal, now: nat, a: Action): Ideal
    requires 2 <= s.iMin
  {
    match a
    case Keep => s
    case Stop => Stopped(s)
    case ResetIt(r) => Reset(s, now, r)
  }

  function Fired(s: Ideal, now: nat, a: Action): Ideal
    requires 2 <= s.iMin
  {
    var s' := Acted(s, now, a);
    if s'.len == 0 then s' else s'.(alarm := End(Max(now, s'.start + s'.len)))
  }

  function Next(len: nat, most: nat): nat {
    Min(2 * len, most)
  }

  /** The next interval begins where the last one ended, whenever that is noticed. */
  function Doubled(s: Ideal, now: nat, r: nat): Ideal
    requires 2 <= Next(s.len, s.most)
  {
    var end, len := s.start + s.len, Next(s.len, s.most);
    var t := Draw(len, r);
    s.(len := len, start := end, heard := 0, alarm := Fire(Max(now, end + t), t))
  }

  // ---------------------------------------------------------------------------
  // Runs

  /** Expire is the alarm going off, no earlier than it was set for. The alarm that is set then
      goes off no earlier than `alarm`; that is no constraint for the ideal timer, but the clock
      of the implementation can postpone it. */
  datatype Event =
    | Start(now: nat, size: nat, r: nat)
    | Expire(now: nat, r: nat, a: Action, alarm: nat)
    | Consistent
    | Inconsistent(now: nat, r: nat)
    | Halt

  ghost predicate Enabled(s: Ideal, e: Event) {
    e.Expire? ==> s.alarm != Off && s.alarm.at <= e.now
  }

  /** The alarm, if there is one, goes off no earlier than `to`. */
  function Postponed(s: Ideal, to: nat): Ideal {
    match s.alarm
    case Off => s
    case Fire(at, t) => s.(alarm := Fire(Max(at, to), t))
    case End(at) => s.(alarm := End(Max(at, to)))
  }

  ghost function Apply(s: Ideal, e: Event): Ideal
    requires Inv(s) && Enabled(s, e)
  {
    match e
    case Start(now, size, r) => Started(s, now, size, r)
    case Expire(now, r, a, alarm) => Postponed(if s.alarm.Fire? then Fired(s, now, a) else Doubled(s, now, r), alarm)
    case Consistent => Heard(s)
    case Inconsistent(now, r) => Reset(s, now, r)
    case Halt => Stopped(s)
  }

  lemma DoubledKeeps(s: Ideal, now: nat, r: nat)
    requires Inv(s) && s.alarm.End? && s.alarm.at <= now
    ensures s.len <= s.most && 2 <= Next(s.len, s.most) <= s.most && s.start + s.len <= now && Inv(Doubled(s, now, r))
    ensures var t := Draw(Next(s.len, s.most), r);
      Doubled(s, now, r) == Ideal(s.iMin, s.most, s.k, Next(s.len, s.most), s.start + s.len, 0,
                                  Fire(Max(now, s.start + s.len + t), t))
  {
  }

  /** Every operation keeps the invariant and the configuration. */
  lemma StepKeeps(s: Ideal, e: Event)
    requires Inv(s) && Enabled(s, e)
    ensures Inv(Apply(s, e))
    ensures var s' := Apply(s, e); s'.iMin == s.iMin && s'.most == s.most && s'.k == s.k
  {
  }

  /** States `s` can reach by `events`, in this order. */
  ghost predicate Runs(s: Ideal, events: seq<Event>, s': Ideal)
    requires Inv(s)
    decreases |events|
  {
    if events == [] then s' == s
    else Enabled(s, events[0]) && (StepKeeps(s, events[0]); Runs(Apply(s, events[0]), events[1..], s'))
  }

  /** Over every run, a running timer keeps Imin <= I <= Imin << Imax. */
  lemma {:induction false} RunKeeps(s: Ideal, events: seq<Event>, s': Ideal)
    requires Inv(s) && Runs(s, events, s')
    ensures Inv(s') && s'.iMin == s.iMin && s'.most == s.most
    decreases |events|
  {
    if events != [] {
      StepKeeps(s, events[0]);
      hide Inv, Apply;
      RunKeeps(Apply(s, events[0]), events[1..], s');
    }
  }

  /** Nothing resets, stops or restarts the timer. */
  ghost predicate Undisturbed(events: seq<Event>) {
    forall i :: 0 <= i < |events| ==> events[i].Consistent? || (events[i].Expire? && events[i].a == Keep)
  }

  /** How often an interval ends in the course of a run. */
  ghost function Doublings(s: Ideal, events: seq<Event>): nat
    requires Inv(s)
    decreases |events|
  {
    if events == [] || !Enabled(s, events[0]) then 0
    else
      StepKeeps(s, events[0]);
      (if events[0].Expire? && s.alarm.End? then 1 else 0) + Doublings(Apply(s, events[0]), events[1..])
  }

  /** How often the protocol's callback is called. */
  ghost function Firings(s: Ideal, events: seq<Event>): nat
    requires Inv(s)
    decreases |events|
  {
    if events == [] || !Enabled(s, events[0]) then 0
    else
      StepKeeps(s, events[0]);
      (if events[0].Expire? && s.alarm.Fire? then 1 else 0) + Firings(Apply(s, events[0]), events[1..])
  }

  /** Interval length after `n` doublings from `len`. */
  function Interval(len: nat, most: nat, n: nat): nat {
    Min(len * Pow2(n), most)
  }

  /** Sum of the first `n` interval lengths. */
  function Elapsed(len: nat, most: nat, n: nat): nat
    decreases n
  {
    if n == 0 then 0 else len + Elapsed(Next(len, most), most, n - 1)
  }

  lemma IntervalNext(len: nat, most: nat, n: nat)
    requires len <= most
    ensures Interval(Next(len, most), most, n) == Interval(len, most, n + 1)
  {
    assert len * Pow2(n + 1) == 2 * len * Pow2(n) by {
      DoubleIt(len, Pow2(n));
      MulAssoc(2, len, Pow2(n));
    }
    if most < 2 * len {
      MulMonotone(2 * len, 1, Pow2(n));
      MulMonotone(most, 1, Pow2(n));
    }
  }

  lemma IntervalZero(len: nat, most: nat)
    requires len <= most
    ensures Interval(len, most, 0) == len
  {
  }

  function Waiting(s: Ideal): nat {
    if s.alarm.End? then 1 else 0
  }

  /** One step of an undisturbed run either ends the interval or leaves it alone. */
  lemma QuietStep(s: Ideal, e: Event)
    requires Inv(s) && s.len > 0 && Enabled(s, e) && (e.Consistent? || (e.Expire? && e.a == Keep))
    ensures var s' := Apply(s, e);
      if e.Expire? && s.alarm.End?
      then s'.len == Next(s.len, s.most) && s'.start == s.start + s.len && s'.alarm.Fire?
      else s'.len == s.len && s'.start == s.start && s'.alarm != Off &&
           Waiting(s') == Waiting(s) + if e.Expire? && s.alarm.Fire? then 1 else 0
  {
  }

  /** `n` undisturbed doublings multiply the interval by 2^n up to the maximum; intervals
      follow each other without gap however late the alarms run; and the callback is called
      once in each. */
  lemma {:induction false} UndisturbedRun(s: Ideal, events: seq<Event>, s': Ideal)
    requires Inv(s) && s.len > 0 && Undisturbed(events) && Runs(s, events, s')
    ensures var n := Doublings(s, events);
      && s'.len == Interval(s.len, s.most, n)
      && s'.start == s.start + Elapsed(s.len, s.most, n)
      && Firings(s, events) + Waiting(s) == n + Waiting(s')
    decreases |events|
  {
    if events == [] {
      IntervalZero(s.len, s.most);
    } else {
      var s1, n := Apply(s, events[0]), Doublings(s, events);
      StepKeeps(s, events[0]);
      QuietStep(s, events[0]);
      hide Apply, Interval;
      UndisturbedRun(s1, events[1..], s');
      if events[0].Expire? && s.alarm.End? {
        IntervalNext(s.len, s.most, n - 1);
      }
    }
  }

  /** A reset begins an interval of the least length, unless the timer is in one. */
  lemma ResetBegins(s: Ideal, now: nat, r: nat)
    requires Inv(s)
    ensures var s' := Apply(s, Inconsistent(now, r));
      if s.len == s.iMin then s' == s
      else
        && s'.alarm.Fire? && s.iMin / 2 <= s'.alarm.t < s.iMin
        && s' == Ideal(s.iMin, s.most, s.k, s.iMin, now, 0, Fire(now + s'.alarm.t, s'.alarm.t))
  {
    hide Draw;
  }

  /** `n` undisturbed doublings after an inconsistency multiply the least interval by 2^n up to the
      maximum, and unless the timer was in such an interval the intervals follow each other from then
      on. */
  lemma AfterInconsistency(s: Ideal, now: nat, r: nat, events: seq<Event>, s': Ideal)
    requires Inv(s) && Undisturbed(events) && Runs(s, [Inconsistent(now, r)] + events, s')
    ensures Inv(Apply(s, Inconsistent(now, r)))
    ensures var n := Doublings(Apply(s, Inconsistent(now, r)), events);
      && s'.len == Interval(s.iMin, s.most, n)
      && s'.start == (if s.len == s.iMin then s.start else now) + Elapsed(s.iMin, s.most, n)
  {
    var e := Inconsistent(now, r);
    assert ([e] + events)[0] == e && ([e] + events)[1..] == events;
    StepKeeps(s, e);
    ResetBegins(s, now, r);
    var s1 := Apply(s, e);
    assert Runs(s1, events, s');
    hide Apply, Interval, Elapsed, Runs, Undisturbed, Doublings, Firings;
    UndisturbedRun(s1, events, s');
  }

  /** An event begins a new interval. */
  ghost predicate Begins(s: Ideal, e: Event) {
    match e
    case Start(_, _, _) => true
    case Expire(_, _, a, _) => s.alarm.End? || (a.ResetIt? && s.len != s.iMin)
    case Inconsistent(_, _) => s.len != s.iMin
    case Consistent => false
    case Halt => false
  }

  /** The answers a run gives to the question whether to transmit, asked in each interval: yes if fewer
      than k consistent transmissions were heard since it began. `n` were heard already in the first. */
  ghost function Answers(s: Ideal, events: seq<Event>, n: nat): seq<bool>
    requires Inv(s)
    decreases |events|
  {
    if events == [] || !Enabled(s, events[0]) then []
    else
      var e := events[0];
      StepKeeps(s, e);
      (if e.Expire? && s.alarm.Fire? then [n < s.k] else []) +
      Answers(Apply(s, e), events[1..], if Begins(s, e) then 0 else if e.Consistent? then n + 1 else n)
  }

  lemma StepHeard(s: Ideal, e: Event)
    requires Inv(s) && Enabled(s, e)
    ensures Apply(s, e).heard == if Begins(s, e) then 0 else if e.Consistent? then s.heard + 1 else s.heard
  {
  }

  /** The counter of the timer is the number heard since the interval began. */
  lemma {:induction false} AnswersAppend(s: Ideal, events: seq<Event>, s1: Ideal, e: Event)
    requires Inv(s) && Runs(s, events, s1) && Inv(s1) && Enabled(s1, e)
    ensures Answers(s, events + [e], s.heard) ==
      Answers(s, events, s.heard) + if e.Expire? && s1.alarm.Fire? then [s1.heard < s1.k] else []
    decreases |events|
  {
    hide Inv, Apply, Enabled, Begins;
    var more := events + [e];
    if events == [] {
      StepKeeps(s, e);
      assert more == [e];
    } else {
      StepKeeps(s, events[0]);
      StepHeard(s, events[0]);
      AnswersAppend(Apply(s, events[0]), events[1..], s1, e);
      assert more[1..] == events[1..] + [e] && more[0] == events[0];
    }
  }

  // ---------------------------------------------------------------------------
  // Modular time

  function Wrap(m: nat, t: int): nat
    requires 0 < m
  {
    t % m
  }

  /** The delay computed from clock readings: the difference, or 0 if it looks negative. */
  function Delay(m: nat, target: nat, now: nat): nat
    requires 0 < m
  {
    var d := Wrap(m, target - now);
    if d > (m - 1) / 2 then 0 else d
  }

  lemma SmallWrap(m: nat, t: nat)
    requires t < m
    ensures Wrap(m, t) == t
  {
    DivisionIs(m, t, 0, t);
  }

  lemma WrapShift(m: nat, t: int, q: int)
    requires 0 < m
    ensures Wrap(m, t + m * q) == Wrap(m, t)
  {
    var p := t / m;
    assert t + m * q == m * (p + q) + t % m;
    DivisionIs(m, t + m * q, p + q, t % m);
  }

  lemma WrapParts(m: nat, a: int) returns (p: int)
    requires 0 < m
    ensures a == Wrap(m, a) + m * p
  {
    p := a / m;
  }

  lemma WrapAdd(m: nat, a: int, b: int)
    requires 0 < m
    ensures Wrap(m, Wrap(m, a) + b) == Wrap(m, a + b)
  {
    var p := WrapParts(m, a);
    hide Wrap;
    WrapShift(m, Wrap(m, a) + b, p);
  }

  lemma WrapSubtract(m: nat, a: int, b: int)
    requires 0 < m
    ensures Wrap(m, a - Wrap(m, b)) == Wrap(m, a - b)
  {
    var p := WrapParts(m, b);
    hide Wrap;
    assert m * -p == -(m * p);
    WrapShift(m, a - Wrap(m, b), -p);
  }

  /** The delay is the true one, or 0 for a target in the past, exactly when the target is
      within half the clock range. */
  lemma DelayExactIff(m: nat, target: nat, now: nat)
    requires 0 < m && m % 2 == 0 && now - m < target < now + m
    ensures Delay(m, Wrap(m, target), Wrap(m, now)) == Delay(m, target, now)
    ensures Delay(m, target, now) == Max(0, target - now) <==> 2 * now <= 2 * target + m && 2 * target < 2 * now + m
  {
    WrapAdd(m, target, 0 - Wrap(m, now));
    WrapSubtract(m, target, now);
    var d := target - now;
    if d >= 0 {
      DivisionIs(m, d, 0, d);
    } else {
      DivisionIs(m, d, -1, d + m);
    }
  }

  /** The delay until `target` that the clock readings give. */
  function Until(m: nat, target: nat, now: nat): nat
    requires 0 < m
  {
    Delay(m, Wrap(m, target), Wrap(m, now))
  }

  /** Not so late that the clock takes the target for a future one. */
  predicate Timely(m: nat, target: nat, now: nat)
    requires 0 < m
  {
    now <= target || Wrap(m, now - target) <= m / 2
  }

  /** For a target that is not too far ahead, the alarm is due at the target, or at once if that
      is past, exactly if the call is timely; it is never due too early. */
  lemma UntilExactIff(m: nat, target: nat, now: nat)
    requires 0 < m && m % 2 == 0 && 2 * target < 2 * now + m
    ensures now + Until(m, target, now) == Max(now, target) <==> Timely(m, target, now)
    ensures Max(now, target) <= now + Until(m, target, now)
  {
    WrapAdd(m, target, 0 - Wrap(m, now));
    WrapSubtract(m, target, now);
    assert Until(m, target, now) == Delay(m, target, now);
    if now <= target {
      DivisionIs(m, target - now, 0, target - now);
    } else {
      var l := now - target;
      var e := Wrap(m, l);
      var q := WrapParts(m, l);
      if e == 0 {
        assert m * -q == -(m * q);
        DivisionIs(m, -l, -q, 0);
      } else {
        assert m * (-q - 1) == -(m * q) - m;
        DivisionIs(m, -l, -q - 1, m - e);
      }
    }
  }

  /** The same for a target `t` after a remembered clock reading. */
  lemma UntilAfter(m: nat, from: nat, t: nat, now: nat)
    requires 0 < m
    ensures Delay(m, Wrap(m, Wrap(m, from) + t), Wrap(m, now)) == Until(m, from + t, now)
  {
    WrapAdd(m, from, t);
  }

  lemma HalfClock(w: nat)
    requires 0 < w
    ensures Pow2(w) % 2 == 0 && Pow2(w) == 2 * Pow2(w - 1)
  {
    var p := Pow2(w - 1);
    assert Pow2(w) == 2 * p;
    hide Pow2;
    EvenDouble(p);
  }

  lemma EvenDouble(p: nat)
    ensures 2 * p % 2 == 0
  {
  }

  // ---------------------------------------------------------------------------
  // The implementation

  datatype Callback = Idle | OnFire | OnEnd

  class Timer {
    const w: nat
    var iMin: nat
    var iMax: nat
    var iMaxAbs: nat
    var k: nat
    var iCur: nat
    var iStart: nat
    var c: nat
    /** Whether the protocol has installed a callback. */
    var cb: bool
    /** The ctimer: what it will call, and the clock reading and delay it was set with. */
    var ctCallback: Callback
    var ctStart: nat
    var ctDelay: nat
    ghost var ideal: Ideal
    /** True time at which the ctimer was set. */
    ghost var armed: nat

    /** A timer that is not running, configured or not. */
    ghost predicate Resting()
      reads this
    {
      Width(w) && iCur == 0 && ctCallback == Idle && iStart < Pow2(w) && c < 256
    }

    ghost predicate AlarmSet()
      reads this
    {
      && (ideal.alarm == Off <==> ctCallback == Idle)
      && (ideal.alarm.Fire? <==> ctCallback == OnFire)
      && (ctCallback != Idle ==> ideal.alarm.at == armed + ctDelay && ctStart == Wrap(Pow2(w), armed))
    }

    /** The fields stand for `ideal`, with time reduced to the clock's width and the counter
        saturated. */
    ghost predicate Valid()
      reads this
    {
      && Width(w) && Inv(ideal) && AlarmSet()
      && ideal.iMin < Pow2(w - 1) && ideal.most <= Pow2(w - 1)
      && iMin == ideal.iMin && iMaxAbs == ideal.most && k == ideal.k && 0 < k < 256
      && iCur == ideal.len && iStart == Wrap(Pow2(w), ideal.start) && c == Min(ideal.heard, 255)
    }

    constructor (w: nat)
      requires Width(w)
      ensures Resting() && this.w == w
    {
      this.w := w;
      iMin, iMax, iMaxAbs, k, iCur, iStart, c, cb := 0, 0, 0, 0, 0, 0, 0, false;
      ctCallback, ctStart, ctDelay := Idle, 0, 0;
    }

    /** trickle_timer_config */
    method Config(iMin: nat, iMax: nat, k: nat, flavour: Flavour) returns (ok: bool)
      requires Width(w) && iMin < Pow2(w) && iMax < 256 && k < 256
      modifies this
      ensures ok <==> 2 <= iMin < Pow2(w - 1) && iMax != 0 && k != 0
      ensures !ok ==> unchanged(this)
      ensures ok ==> this.iMin == iMin && this.k == k
      ensures iCur == old(iCur) && iStart == old(iStart) && c == old(c) && cb == old(cb)
      ensures ctCallback == old(ctCallback) && ctStart == old(ctStart) && ctDelay == old(ctDelay)
      ensures ok && old(Resting()) ==> Valid()
      ensures ok && old(Valid()) && iMin <= iCur <= iMaxAbs ==> Valid()
      ensures ok ==> this.iMax <= iMax && iMaxAbs == iMin * Pow2(this.iMax) <= Pow2(w - 1)
      ensures ok && iMin * Pow2(iMax) <= Pow2(w - 1) ==> this.iMax == iMax
      ensures ok && iMin * Pow2(iMax) > Pow2(w - 1) ==> Largest(w, flavour, iMin, this.iMax)
    {
      hide Pow2, Wrap, Largest, IminIsBad, PairIsBad;
      IminTestExact(w, iMin);
      if IminIsBad(w, iMin) {
        return false;
      }
      if iMax == 0 || k == 0 {
        return false;
      }
      var m := iMax;
      PairTestExact(w, iMin, iMax);
      if PairIsBad(w, iMin, iMax) {
        m := MaxImax(w, flavour, iMin);
        LargestBelow(w, flavour, iMin, m, iMax);
      }
      AtLeastOnce(iMin, m);
      this.iMin := iMin;
      this.iMax := m;
      iMaxAbs := iMin * Pow2(m);
      this.k := k;
      if iCur == 0 {
        ideal := Ideal(iMin, iMaxAbs, k, 0, iStart, c, Off);
        if iStart < Pow2(w) {
          SmallWrap(Pow2(w), iStart);
        }
      } else {
        ideal := ideal.(iMin := iMin, most := iMaxAbs, k := k);
      }
      return true;
    }

    /** get_t */
    method GetT(len: nat, r: nat) returns (t: nat)
      requires 2 <= len
      ensures t == Draw(len, r)
    {
      var half := len / 2;
      t := half + r % half;
    }

    /** new_interval */
    method NewInterval(now: nat, r: nat, ghost at: nat)
      requires Width(w) && 2 <= iCur && now == Wrap(Pow2(w), at)
      modifies `c, `ctCallback, `ctStart, `ctDelay, `iStart, `armed
      ensures c == 0 && ctCallback == OnFire && ctStart == now && ctDelay == Draw(iCur, r)
      ensures iStart == now && armed == at
    {
      hide Draw, Pow2, Wrap;
      c := 0;
      var t := GetT(iCur, r);
      ctCallback, ctStart, ctDelay, armed := OnFire, now, t, at;
      iStart := ctStart;
    }

    /** trickle_timer_set */
    method Set(hasCallback: bool, now: nat, size: nat, r: nat, ghost at: nat) returns (ok: bool)
      requires Valid() && now == Wrap(Pow2(w), at)
      modifies this
      ensures Valid() && ok == hasCallback
      ensures ideal == if ok then Started(old(ideal), at, size, r) else old(ideal)
      ensures !ok ==> unchanged(this)
      ensures ok ==> cb && iMin <= iCur <= iMaxAbs && c == 0 && iStart == now && armed == at
      ensures ok ==> ctCallback == OnFire && ctStart == now && iCur / 2 <= ctDelay < iCur
    {
      hide Pow2, Wrap, Draw, Pick, Delay;
      if !hasCallback {
        return false;
      }
      cb := true;
      iCur := Pick(iMin, iMaxAbs, size);
      NewInterval(now, r, at);
      ideal := Started(ideal, at, size, r);
      return true;
    }

    /** trickle_timer_consistency */
    method Consistency()
      requires Valid()
      modifies `c, `ideal
      ensures Valid() && ideal == Heard(old(ideal))
      ensures c == Min(old(c) + 1, 255)
    {
      hide Pow2, Wrap, Draw, Pick, Delay;
      if c < 0xFF {
        c := c + 1;
      }
      ideal := Heard(ideal);
    }

    /** trickle_timer_inconsistency */
    method Inconsistency(now: nat, r: nat, ghost at: nat)
      requires Valid() && now == Wrap(Pow2(w), at)
      modifies `iCur, `c, `iStart, `ctCallback, `ctStart, `ctDelay, `armed, `ideal
      ensures Valid() && iCur == iMin && ideal == Reset(old(ideal), at, r)
      ensures old(iCur) == iMin ==> unchanged(this)
      ensures old(iCur) != iMin ==> c == 0 && iStart == now && armed == at
      ensures old(iCur) != iMin ==> ctCallback == OnFire && ctStart == now && iMin / 2 <= ctDelay < iMin
    {
      hide Pow2, Wrap, Draw, Pick, Delay;
      if iCur != iMin {
        iCur := iMin;
        NewInterval(now, r, at);
        ideal := Reset(ideal, at, r);
      }
    }

    /** trickle_timer_stop */
    method StopTimer()
      requires Valid()
      modifies `iCur, `ctCallback, `ideal
      ensures Valid() && ideal == Stopped(old(ideal)) && iCur == 0 && ctCallback == Idle
    {
      hide Pow2, Wrap, Draw, Pick, Delay;
      ctCallback := Idle;
      iCur := 0;
      ideal := Stopped(ideal);
    }

    /** schedule_for_end */
    method ScheduleForEnd(now: nat, ghost at: nat)
      requires Valid() && iCur != 0 && now == Wrap(Pow2(w), at)
      requires 2 * (ideal.start + ideal.len) < 2 * at + Pow2(w)
      modifies `ctCallback, `ctStart, `ctDelay, `armed, `ideal
      ensures Valid() && Max(at, ideal.start + ideal.len) <= at + Until(Pow2(w), ideal.start + ideal.len, at)
      ensures ideal == old(ideal).(alarm := End(at + Until(Pow2(w), ideal.start + ideal.len, at)))
      ensures Timely(Pow2(w), ideal.start + ideal.len, at) <==> ideal.alarm == End(Max(at, ideal.start + ideal.len))
      ensures ctCallback == OnEnd && ctStart == now && armed == at
    {
      hide Pow2, Wrap, Draw, Pick, Delay, Min, Until, Timely;
      HalfClock(w);
      UntilAfter(Pow2(w), ideal.start, iCur, at);
      UntilExactIff(Pow2(w), ideal.start + iCur, at);
      var d := Delay(Pow2(w), Wrap(Pow2(w), iStart + iCur), now);
      ctCallback, ctStart, ctDelay, armed := OnEnd, now, d, at;
      ideal := ideal.(alarm := End(at + d));
    }

    /** What the protocol does to the timer in its callback. */
    method Act(now: nat, a: Action, ghost at: nat)
      requires Valid() && iCur != 0 && now == Wrap(Pow2(w), at)
      modifies `iCur, `c, `iStart, `ctCallback, `ctStart, `ctDelay, `armed, `ideal
      ensures Valid() && ideal == Acted(old(ideal), at, a)
      ensures a == Keep ==> unchanged(this)
      ensures if a == Stop then iCur == 0 && ctCallback == Idle && c == old(c) && iStart == old(iStart) else iCur != 0
      ensures a.ResetIt? ==> iCur == iMin
      ensures a.ResetIt? ==>
        if old(iCur) == iMin then c == old(c) && iStart == old(iStart) else c == 0 && iStart == now
    {
      hide Pow2, Wrap, Draw, Pick, Delay;
      match a
      case Keep =>
      case Stop => StopTimer();
      case ResetIt(r) => Inconsistency(now, r, at);
    }

    /** fire, called no earlier than the ctimer was set for. `a` is what the protocol does in its
        callback, which is told whether it may transmit. Called in time, the timer does as the
        ideal one; later it still waits for the end of the interval, but too long. */
    method FireNow(now: nat, a: Action, ghost at: nat) returns (allow: bool)
      requires Valid() && ctCallback == OnFire && now == Wrap(Pow2(w), at) && armed + ctDelay <= at
      modifies this
      ensures Valid()
      ensures var f := Fired(old(ideal), at, if old(cb) then a else Keep);
        && ideal == Postponed(f, at + Until(Pow2(w), f.start + f.len, at))
        && (f.len != 0 ==> (Timely(Pow2(w), f.start + f.len, at) <==> ideal.alarm == f.alarm))
      ensures cb == old(cb) && (allow <==> old(ideal).heard < old(ideal).k)
      ensures if cb && a == Stop then iCur == 0 && ctCallback == Idle
        else iCur == (if cb && a.ResetIt? then iMin else old(iCur)) && ctCallback == OnEnd && ctStart == now && armed == at
      ensures if cb && a.ResetIt? && old(iCur) != iMin then c == 0 && iStart == now
        else c == old(c) && iStart == old(iStart)
    {
      hide Pow2, Wrap, Draw, Pick, Delay, Until, Timely;
      HalfClock(w);
      allow := k == 0 || c < k;
      if cb {
        Act(now, a, at);
      }
      if iCur != 0 {
        ScheduleForEnd(now, at);
      }
    }

    /** The doubling proper of double_interval. */
    method Lengthen()
      requires iCur <= iMaxAbs
      modifies `iCur
      ensures iCur == Next(old(iCur), iMaxAbs)
    {
      if iCur <= iMaxAbs / 2 {
        iCur := 2 * iCur;
      } else {
        iCur := iMaxAbs;
      }
    }

    /** The drift compensation of double_interval: `fire` is due `t` after the end of the last
        interval, as the clock readings have it. */
    method ArmAfter(lastEnd: nat, t: nat, now: nat, ghost end: nat, ghost at: nat)
      requires Width(w) && lastEnd == Wrap(Pow2(w), end) && now == Wrap(Pow2(w), at)
      modifies `ctCallback, `ctStart, `ctDelay, `armed
      ensures ctCallback == OnFire && ctStart == now && armed == at
      ensures ctDelay == Until(Pow2(w), end + t, at)
    {
      hide Pow2, Wrap, Delay;
      UntilAfter(Pow2(w), end, t, at);
      var d := Delay(Pow2(w), Wrap(Pow2(w), lastEnd + t), now);
      ctCallback, ctStart, ctDelay, armed := OnFire, now, d, at;
    }

    /** The changes that double_interval makes to the fields. */
    method BeginNext(now: nat, r: nat, ghost start: nat, ghost at: nat) returns (t: nat)
      requires Width(w) && iCur <= iMaxAbs && 2 <= Next(iCur, iMaxAbs)
      requires iStart == Wrap(Pow2(w), start) && now == Wrap(Pow2(w), at)
      modifies `c, `iCur, `iStart, `ctCallback, `ctStart, `ctDelay, `armed
      ensures c == 0 && iCur == Next(old(iCur), iMaxAbs) && t == Draw(iCur, r)
      ensures iStart == Wrap(Pow2(w), start + old(iCur)) && ctCallback == OnFire && ctStart == now && armed == at
      ensures ctDelay == Until(Pow2(w), start + old(iCur) + t, at)
    {
      hide Pow2, Wrap, Draw, Until, Next;
      ghost var end := start + iCur;
      c := 0;
      WrapAdd(Pow2(w), start, iCur);
      var lastEnd := Wrap(Pow2(w), iStart + iCur);
      Lengthen();
      t := GetT(iCur, r);
      ArmAfter(lastEnd, t, now, end, at);
      iStart := lastEnd;
    }

    /** double_interval, with drift compensation; called under the same conditions. Length and
        start of the new interval are always those of the ideal timer, and so is its alarm if the
        call is timely. */
    method DoubleInterval(now: nat, r: nat, ghost at: nat)
      requires Valid() && ctCallback == OnEnd && now == Wrap(Pow2(w), at) && armed + ctDelay <= at
      modifies this
      ensures Valid()
      ensures var d := Doubled(old(ideal), at, r); var target := d.start + d.alarm.t;
        && ideal == Postponed(d, at + Until(Pow2(w), target, at))
        && (Timely(Pow2(w), target, at) <==> ideal.alarm == d.alarm)
    {
      hide Pow2, Wrap, Draw, Pick, Delay, Until, Timely;
      HalfClock(w);
      ghost var s, end := ideal, ideal.start + ideal.len;
      assert Min(0, 255) == 0;
      DoubledKeeps(s, at, r);
      hide Inv, Next, Max, Min, Doubled, Postponed;
      var t := BeginNext(now, r, s.start, at);
      UntilExactIff(Pow2(w), end + t, at);
      AlarmLater(s, at, r, at + ctDelay);
      ideal := Postponed(Doubled(s, at, r), at + ctDelay);
    }
  }

  // ---------------------------------------------------------------------------
  // Runs of the implementation

  /** What happens to a timer: calls of the protocol, and the ctimer, which runs its callback
      `wait` after the time it was set for. */
  datatype Input =
    | SetIt(hasCallback: bool, at: nat, size: nat, r: nat)
    | Due(wait: nat, r: nat, a: Action)
    | Hear
    | Disturb(at: nat, r: nat)
    | StopIt

  ghost predicate Quiet(inputs: seq<Input>) {
    forall i :: 0 <= i < |inputs| ==> inputs[i].Hear? || (inputs[i].Due? && inputs[i].a == Keep)
  }

  /** Whatever happens to the implementation, in time or not, is a run of the timer above; so
      without disturbance its interval is doubled and its intervals follow each other as there. */
  method PlayInputs(timer: Timer, inputs: seq<Input>) returns (ghost events: seq<Event>, allowed: seq<bool>)
    requires timer.Valid()
    modifies timer
    ensures timer.Valid() && Runs(old(timer.ideal), events, timer.ideal)
    ensures allowed == Answers(old(timer.ideal), events, old(timer.ideal).heard)
    ensures Quiet(inputs) && old(timer.iCur) > 0 ==>
      var n := Doublings(old(timer.ideal), events);
      && Undisturbed(events)
      && timer.iCur == Interval(old(timer.iCur), old(timer.iMaxAbs), n)
      && timer.iStart == Wrap(Pow2(timer.w), old(timer.ideal.start) + Elapsed(old(timer.iCur), old(timer.iMaxAbs), n))
      && Firings(old(timer.ideal), events) + Waiting(old(timer.ideal)) == n + Waiting(timer.ideal)
  {
    hide Pow2, Wrap, Inv, Apply, Interval, Elapsed, Doublings, Firings, Waiting, Runs, Answers;
    events, allowed := [], [];
    ghost var s := timer.ideal;
    NoEvents(s);
    for i := 0 to |inputs|
      invariant timer.Valid() && Runs(s, events, timer.ideal) && allowed == Answers(s, events, s.heard)
      invariant Quiet(inputs) ==> Undisturbed(events)
    {
      ghost var was := timer.ideal;
      ghost var more;
      var answer;
      more, answer := PlayInput(timer, inputs[i]);
      allowed := allowed + answer;
      if more != [] {
        AnswersAppend(s, events, was, more[0]);
        RunsAppend(s, events, was, more[0], timer.ideal);
        assert more == [more[0]];
        events := events + more;
      }
    }
    if Quiet(inputs) && s.len > 0 {
      UndisturbedRun(s, events, timer.ideal);
    }
  }

  lemma NoEvents(s: Ideal)
    requires Inv(s)
    ensures Runs(s, [], s) && Answers(s, [], s.heard) == []
  {
  }

  lemma {:induction false} RunsAppend(s: Ideal, events: seq<Event>, s1: Ideal, e: Event, s2: Ideal)
    requires Inv(s) && Runs(s, events, s1) && Inv(s1) && Enabled(s1, e) && s2 == Apply(s1, e)
    ensures Runs(s, events + [e], s2)
    decreases |events|
  {
    hide Inv, Apply, Enabled;
    if events == [] {
      StepKeeps(s1, e);
      NoEvents(s2);
    } else {
      StepKeeps(s, events[0]);
      RunsAppend(Apply(s, events[0]), events[1..], s1, e, s2);
      assert (events + [e])[1..] == events[1..] + [e];
    }
  }

  lemma LeastInterval(s: Ideal)
    requires Inv(s)
    ensures 2 <= s.iMin
  {
  }

  /** The ctimer runs its callback. */
  method PlayDue(timer: Timer, wait: nat, r: nat, a: Action) returns (ghost e: Event, answer: seq<bool>)
    requires timer.Valid() && timer.ctCallback != Idle
    modifies timer
    ensures timer.Valid() && e.Expire? && (a == Keep ==> e.a == Keep)
    ensures Enabled(old(timer.ideal), e) && timer.ideal == Apply(old(timer.ideal), e)
    ensures answer == if old(timer.ideal).alarm.Fire? then [old(timer.ideal).heard < old(timer.ideal).k] else []
  {
    hide Pow2, Wrap, Draw, Pick, Delay, Until, Timely, Fired, Doubled, Postponed, Inv;
    var m := Pow2(timer.w);
    ghost var s := timer.ideal;
    LeastInterval(s);
    ghost var at := timer.armed + timer.ctDelay + wait;
    WrapAdd(m, timer.armed, timer.ctDelay + wait);
    var now := Wrap(m, timer.ctStart + (timer.ctDelay + wait));
    if timer.ctCallback == OnFire {
      ghost var act := if timer.cb then a else Keep;
      ghost var f := Fired(s, at, act);
      var allow := timer.FireNow(now, a, at);
      answer := [allow];
      e := Expire(at, r, act, at + Until(m, f.start + f.len, at));
    } else {
      DoubledKeeps(s, at, r);
      ghost var d := Doubled(s, at, r);
      timer.DoubleInterval(now, r, at);
      answer := [];
      e := Expire(at, r, a, at + Until(m, d.start + d.alarm.t, at));
    }
  }

  /** One input is one event, or none. */
  method PlayInput(timer: Timer, input: Input) returns (ghost events: seq<Event>, answer: seq<bool>)
    requires timer.Valid()
    modifies timer
    ensures timer.Valid()
    ensures if events == [] then timer.ideal == old(timer.ideal)
      else |events| == 1 && Enabled(old(timer.ideal), events[0]) && timer.ideal == Apply(old(timer.ideal), events[0])
    ensures answer == if events != [] && events[0].Expire? && old(timer.ideal).alarm.Fire?
      then [old(timer.ideal).heard < old(timer.ideal).k] else []
    ensures input.Hear? || (input.Due? && input.a == Keep) ==> Undisturbed(events)
  {
    hide Pow2, Wrap, Draw, Pick, Delay, Until, Timely, Postponed;
    events, answer := [], [];
    var m := Pow2(timer.w);
    match input
    case SetIt(hasCallback, at, size, r) =>
      var ok := timer.Set(hasCallback, Wrap(m, at), size, r, at);
      if ok {
        events := [Start(at, size, r)];
      }
    case Due(wait, r, a) =>
      if timer.ctCallback != Idle {
        ghost var e;
        e, answer := PlayDue(timer, wait, r, a);
        events := [e];
      }
    case Hear =>
      timer.Consistency();
      events := [Consistent];
    case Disturb(at, r) =>
      timer.Inconsistency(Wrap(m, at), r, at);
      events := [Inconsistent(at, r)];
    case StopIt =>
      timer.StopTimer();
      events := [Halt];
  }

  lemma AlarmLater(s: Ideal, now: nat, r: nat, alarm: nat)
    requires Inv(s) && s.alarm.End? && s.alarm.at <= now && 2 <= Next(s.len, s.most)
    requires s.start + s.len + Draw(Next(s.len, s.most), r) <= alarm
    requires now <= alarm
    ensures var d := Doubled(s, now, r); var p := Postponed(d, alarm);
      && Inv(p) && d.alarm.Fire? && d.start + d.alarm.t == s.start + s.len + Draw(Next(s.len, s.most), r)
      && p == d.(alarm := Fire(alarm, d.alarm.t))
      && (alarm == Max(now, d.start + d.alarm.t) <==> p.alarm == d.alarm)
  {
  }

  lemma AtLeastOnce(a: nat, n: nat)
    ensures a <= a * Pow2(n)
  {
    MulMonotone(a, 1, Pow2(n));
  }

  lemma LargestBelow(w: nat, flavour: Flavour, value: nat, m: nat, n: nat)
    requires 0 < w && Largest(w, flavour, value, m) && value * Pow2(n) > Pow2(w - 1)
    ensures m < n && value * Pow2(m) <= Pow2(w - 1)
  {
    if n <= m {
      Pow2Monotone(n, m);
      MulMonotone(value, Pow2(n), Pow2(m));
    }
  }
}
