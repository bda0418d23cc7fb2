/** What RateStatistics promises, on plain lists of samples: a sliding window over everything accepted so far. */
module RateWindow {
  import opened Bytes

  datatype Sample = Sample(count: nat, time: int)

  /** `log` holds every sample accepted since the last reset; only those from `oldest` on are in the window.
      `oldest == -max` stands for a window no sample has started yet. */
  datatype Window = Window(max: nat, size: nat, oldest: int, log: seq<Sample>)

  function Empty(max: nat): Window {
    Window(max, max, 0 - max, [])
  }

  predicate Started(w: Window) {
    w.oldest != 0 - w.max
  }

  /** Every sample is less than `max` milliseconds from the start of the window, so each has a bucket of its time. */
  predicate Ok(w: Window) {
    && 0 < w.size <= w.max && 0 - w.max <= w.oldest
    && (!Started(w) ==> w.log == [])
    && forall k :: 0 <= k < |w.log| ==> w.log[k].time < w.oldest + w.max
  }

  /** Total and number of the samples at exactly `time`, and from `time` on. */
  function SumAt(log: seq<Sample>, time: int): nat {
    if log == [] then 0
    else SumAt(log[..|log| - 1], time) + (if log[|log| - 1].time == time then log[|log| - 1].count else 0)
  }

  function CountAt(log: seq<Sample>, time: int): nat {
    if log == [] then 0
    else CountAt(log[..|log| - 1], time) + (if log[|log| - 1].time == time then 1 else 0)
  }

  function SumFrom(log: seq<Sample>, time: int): nat {
    if log == [] then 0
    else SumFrom(log[..|log| - 1], time) + (if log[|log| - 1].time >= time then log[|log| - 1].count else 0)
  }

  function CountFrom(log: seq<Sample>, time: int): nat {
    if log == [] then 0
    else CountFrom(log[..|log| - 1], time) + (if log[|log| - 1].time >= time then 1 else 0)
  }

  // ----- the operations

  /** The window as seen at `now`: it never moves back. */
  function Advance(w: Window, now: int): Window {
    if Started(w) && now - w.size + 1 > w.oldest then w.(oldest := now - w.size + 1) else w
  }

  function Updated(w: Window, count: nat, now: int): Window {
    if now < w.oldest then w
    else
      var a := Advance(w, now);
      var b := if Started(a) then a else a.(oldest := now);
      b.(log := b.log + [Sample(count, now)])
  }

  /** What Rate computes before scaling: the total and the milliseconds it is spread over. */
  function RateOf(w: Window, now: int): Option<(nat, int)> {
    var a := Advance(w, now);
    var active := now - a.oldest + 1;
    var samples := CountFrom(a.log, a.oldest);
    if samples == 0 || active <= 1 || (samples <= 1 && active < a.size) then None
    else Some((SumFrom(a.log, a.oldest), active))
  }

  predicate Resizable(w: Window, size: int) {
    0 < size <= w.max
  }

  function Resized(w: Window, size: int, now: int): Window {
    if Resizable(w, size) then Advance(w.(size := size), now) else w
  }

  // ----- sums over the log

  lemma {:induction false} SplitFirst(log: seq<Sample>, time: int)
    ensures SumFrom(log, time) == SumAt(log, time) + SumFrom(log, time + 1)
    ensures CountFrom(log, time) == CountAt(log, time) + CountFrom(log, time + 1)
  {
    if log != [] {
      SplitFirst(log[..|log| - 1], time);
    }
  }

  lemma {:induction false} NoneLeft(log: seq<Sample>, time: int, later: int)
    requires CountFrom(log, time) == 0 && later >= time
    ensures SumFrom(log, time) == 0
    ensures SumAt(log, later) == 0 && CountAt(log, later) == 0
    ensures SumFrom(log, later) == 0 && CountFrom(log, later) == 0
  {
    if log != [] {
      NoneLeft(log[..|log| - 1], time, later);
    }
  }

  lemma {:induction false} NoneAt(log: seq<Sample>, time: int)
    requires forall k :: 0 <= k < |log| ==> log[k].time < time
    ensures SumAt(log, time) == 0 && CountAt(log, time) == 0
  {
    if log != [] {
      NoneAt(log[..|log| - 1], time);
    }
  }

  lemma {:induction false} OneMore(log: seq<Sample>, s: Sample, time: int)
    ensures SumAt(log + [s], time) == SumAt(log, time) + (if s.time == time then s.count else 0)
    ensures CountAt(log + [s], time) == CountAt(log, time) + (if s.time == time then 1 else 0)
    ensures SumFrom(log + [s], time) == SumFrom(log, time) + (if s.time >= time then s.count else 0)
    ensures CountFrom(log + [s], time) == CountFrom(log, time) + (if s.time >= time then 1 else 0)
  {
    assert (log + [s])[..|log|] == log;
  }

  lemma {:induction false} OperationsKeepOk(w: Window, count: nat, size: int, now: int)
    requires Ok(w) && 0 <= now
    ensures Ok(Advance(w, now)) && Ok(Updated(w, count, now)) && Ok(Resized(w, size, now))
    ensures Started(w) ==> Started(Advance(w, now)) && Started(Resized(w, size, now))
    ensures Started(Updated(w, count, now))
    ensures now < w.oldest ==> Updated(w, count, now) == w
  {
  }

  // ----- runs

  datatype Op = Update(count: nat, now: int) | Rate(now: int) | SetWindowSize(size: int, now: int) | Reset

  datatype Result = Nothing | Rated(rate: Option<(nat, int)>) | Accepted(ok: bool)

  function After(w: Window, op: Op): Window {
    match op
    case Update(count, now) => Updated(w, count, now)
    case Rate(now) => Advance(w, now)
    case SetWindowSize(size, now) => Resized(w, size, now)
    case Reset => Empty(w.max)
  }

  function ResultOf(w: Window, op: Op): Result {
    match op
    case Update(_, _) => Nothing
    case Rate(now) => Rated(RateOf(w, now))
    case SetWindowSize(size, _) => Accepted(Resizable(w, size))
    case Reset => Nothing
  }

  function Results(w: Window, ops: seq<Op>): (r: seq<Result>)
    ensures |r| == |ops|
    decreases |ops|
  {
    if ops == [] then [] else [ResultOf(w, ops[0])] + Results(After(w, ops[0]), ops[1..])
  }

  /** The size in force once `op` has been applied. */
  function SizeAfter(size: nat, max: nat, op: Op): nat {
    match op
    case SetWindowSize(s, _) => if 0 < s <= max then s else size
    case Reset => max
    case _ => size
  }

  /** Times are not negative. */
  predicate Clocked(op: Op) {
    !op.Reset? ==> op.now >= 0
  }

  /** Whether the operation looks at nothing before `start`. A refused SetWindowSize looks at nothing. */
  predicate LooksFrom(size: nat, max: nat, op: Op, start: int) {
    op.Reset? || (op.SetWindowSize? && !(0 < op.size <= max)) || op.now - SizeAfter(size, max, op) + 1 >= start
  }

  /** Two windows that agree on everything from `start` on. */
  predicate Agree(a: Window, b: Window, start: int) {
    && a.max == b.max && a.size == b.size && a.log == b.log
    && (a == b || (Started(a) && Started(b) && a.oldest <= start && b.oldest <= start))
  }

  /** Looking from `start` on makes agreeing windows the same. */
  lemma {:induction false} AgreeAdvance(a: Window, b: Window, now: int, start: int)
    requires Agree(a, b, start) && now - a.size + 1 >= start
    ensures Advance(a, now) == Advance(b, now)
  {
  }

  lemma {:induction false} AgreeResized(a: Window, b: Window, size: nat, start: int)
    requires Agree(a, b, start)
    ensures Agree(a.(size := size), b.(size := size), start)
  {
  }

  lemma {:induction false} AgreeUpdated(a: Window, b: Window, count: nat, now: int, start: int)
    requires Agree(a, b, start) && Ok(a) && now - a.size + 1 >= start
    ensures Updated(a, count, now) == Updated(b, count, now)
  {
  }

  lemma {:induction false} AgreeStep(a: Window, b: Window, op: Op, start: int)
    requires Agree(a, b, start) && Ok(a) && Ok(b) && Clocked(op)
    requires LooksFrom(a.size, a.max, op, start)
    ensures ResultOf(a, op) == ResultOf(b, op)
    ensures Agree(After(a, op), After(b, op), start)
  {
    match op
    case Update(count, now) =>
      AgreeUpdated(a, b, count, now, start);
      hide Updated;
    case Rate(now) =>
      AgreeAdvance(a, b, now, start);
      hide Advance;
    case SetWindowSize(size, now) =>
      if Resizable(a, size) {
        AgreeResized(a, b, size, start);
        AgreeAdvance(a.(size := size), b.(size := size), now, start);
      }
      hide Advance;
    case Reset =>
  }

  lemma {:induction false} StepKeepsOk(w: Window, op: Op)
    requires Ok(w) && Clocked(op)
    ensures Ok(After(w, op)) && After(w, op).max == w.max && After(w, op).size == SizeAfter(w.size, w.max, op)
  {
    match op
    case Update(count, now) => OperationsKeepOk(w, count, 0, now);
    case Rate(now) => OperationsKeepOk(w, 0, 0, now);
    case SetWindowSize(size, now) => OperationsKeepOk(w, 0, size, now);
    case Reset =>
  }

  /** Until the next reset, no operation looks at anything before `start`. */
  predicate NeverLooksBehind(size: nat, max: nat, ops: seq<Op>, start: int)
    decreases |ops|
  {
    ops == [] || ops[0].Reset?
    || (LooksFrom(size, max, ops[0], start) && NeverLooksBehind(SizeAfter(size, max, ops[0]), max, ops[1..], start))
  }

  predicate AllClocked(ops: seq<Op>) {
    forall i :: 0 <= i < |ops| ==> Clocked(ops[i])
  }

  lemma {:induction false} AgreeingRuns(a: Window, b: Window, ops: seq<Op>, start: int)
    requires Agree(a, b, start) && Ok(a) && Ok(b) && AllClocked(ops)
    requires NeverLooksBehind(a.size, a.max, ops, start)
    ensures Results(a, ops) == Results(b, ops)
    decreases |ops|
  {
    if ops != [] && a != b {
      AgreeStep(a, b, ops[0], start);
      StepKeepsOk(a, ops[0]);
      StepKeepsOk(b, ops[0]);
      if !ops[0].Reset? {
        AgreeingRuns(After(a, ops[0]), After(b, ops[0]), ops[1..], start);
      }
    }
  }

  /** A call of Rate is invisible to whatever never looks behind the window it looked at. */
  lemma {:induction false} RateInvisible(w: Window, now: int, ops: seq<Op>)
    requires Ok(w) && now >= 0 && AllClocked(ops)
    requires NeverLooksBehind(w.size, w.max, ops, now - w.size + 1)
    ensures Results(Advance(w, now), ops) == Results(w, ops)
  {
    AgreeingRuns(w, Advance(w, now), ops, now - w.size + 1);
  }

  // ----- probes inserted anywhere

  /** Timestamps never decrease, and no SetWindowSize enlarges the window (a reset may). */
  predicate Steady(size: nat, max: nat, ops: seq<Op>, now: int)
    decreases |ops|
  {
    ops == []
    || (ops[0].Reset? && Steady(max, max, ops[1..], now))
    || (&& !ops[0].Reset? && ops[0].now >= now && SizeAfter(size, max, ops[0]) <= size
        && Steady(SizeAfter(size, max, ops[0]), max, ops[1..], ops[0].now))
  }

  /** The elements whose flag is not set. */
  function Unmarked<T>(xs: seq<T>, marks: seq<bool>): seq<T>
    requires |xs| == |marks|
  {
    if xs == [] then []
    else (if marks[0] then [] else [xs[0]]) + Unmarked(xs[1..], marks[1..])
  }

  predicate ProbesAreRates(ops: seq<Op>, probes: seq<bool>)
    requires |ops| == |probes|
  {
    forall i :: 0 <= i < |ops| && probes[i] ==> ops[i].Rate?
  }

  lemma {:induction false} AgreeLater(a: Window, b: Window, start: int, later: int)
    requires Agree(a, b, start) && start <= later
    ensures Agree(a, b, later)
  {
  }

  lemma {:induction false} ProbeStep(a: Window, b: Window, op: Op, now: int)
    requires Agree(a, b, now - a.size + 1) && Ok(a) && Ok(b) && now >= 0
    requires op.Rate? && op.now >= now
    ensures Ok(After(a, op)) && After(a, op).size == a.size && After(a, op).max == a.max
    ensures Agree(After(a, op), b, op.now - a.size + 1)
  {
  }

  lemma {:induction false} UnmarkedFirst<T>(x: T, xs: seq<T>, m: bool, marks: seq<bool>)
    requires |xs| == |marks|
    ensures Unmarked([x] + xs, [m] + marks) == (if m then [] else [x]) + Unmarked(xs, marks)
  {
    assert ([x] + xs)[1..] == xs && ([m] + marks)[1..] == marks;
  }

  /** With a clock that never goes back and no enlargement, any number of Rate calls inserted anywhere changes no
      other result: dropping them from the run only drops their own results. */
  lemma {:induction false} ProbesInvisible(a: Window, b: Window, ops: seq<Op>, probes: seq<bool>, now: int)
    requires Agree(a, b, now - a.size + 1) && Ok(a) && Ok(b) && now >= 0
    requires |ops| == |probes| && ProbesAreRates(ops, probes) && Steady(a.size, a.max, ops, now)
    ensures Results(b, Unmarked(ops, probes)) == Unmarked(Results(a, ops), probes)
    decreases |ops|
  {
    hide Ok, Agree, After, ResultOf;
    if ops != [] {
      var op, rest, marks := ops[0], ops[1..], probes[1..];
      assert ops == [op] + rest && probes == [probes[0]] + marks;
      UnmarkedFirst(op, rest, probes[0], marks);
      UnmarkedFirst(ResultOf(a, op), Results(After(a, op), rest), probes[0], marks);
      assert ProbesAreRates(rest, marks) by {
        assert forall i :: 0 <= i < |rest| ==> rest[i] == ops[i + 1] && marks[i] == probes[i + 1];
      }
      if probes[0] {
        ProbeStep(a, b, op, now);
        ProbesInvisible(After(a, op), b, rest, marks, op.now);
        assert Unmarked(ops, probes) == Unmarked(rest, marks);
        assert Unmarked(Results(a, ops), probes) == Unmarked(Results(After(a, op), rest), marks);
      } else {
        AgreeStep(a, b, op, now - a.size + 1);
        StepKeepsOk(a, op);
        StepKeepsOk(b, op);
        var a', b' := After(a, op), After(b, op);
        var later := if op.Reset? then now else op.now;
        assert Agree(a', b', later - a'.size + 1) by {
          if op.Reset? { ResetAgrees(a, b, op, now - a.size + 1, later - a'.size + 1); }
          else { AgreeLater(a', b', now - a.size + 1, later - a'.size + 1); }
        }
        ProbesInvisible(a', b', rest, marks, later);
        assert Unmarked(ops, probes)[1..] == Unmarked(rest, marks);
      }
    }
  }

  lemma {:induction false} ResetAgrees(a: Window, b: Window, op: Op, start: int, later: int)
    requires Agree(a, b, start) && op.Reset?
    ensures Agree(After(a, op), After(b, op), later)
  {
  }

  // ----- exactly when a Rate call is unobservable

  /** Timestamps never decrease; the window may change size. */
  predicate Monotone(ops: seq<Op>, now: int)
    decreases |ops|
  {
    ops == []
    || (ops[0].Reset? && Monotone(ops[1..], now))
    || (!ops[0].Reset? && ops[0].now >= now && Monotone(ops[1..], ops[0].now))
  }

  lemma {:induction false} MonotoneLooksAhead(size: nat, max: nat, ops: seq<Op>, now: int, start: int)
    requires size <= max && Monotone(ops, now) && now - max + 1 >= start && now >= 0
    ensures NeverLooksBehind(size, max, ops, start) && AllClocked(ops)
    decreases |ops|
  {
    if ops != [] {
      var later := if ops[0].Reset? then now else ops[0].now;
      MonotoneLooksAhead(SizeAfter(size, max, ops[0]), max, ops[1..], later, start);
      assert forall i :: 0 < i < |ops| ==> ops[i] == ops[1..][i - 1];
    }
  }

  lemma {:induction false} ResultsCons(w: Window, op: Op, ops: seq<Op>)
    ensures Results(w, [op] + ops) == [ResultOf(w, op)] + Results(After(w, op), ops)
  {
    assert ([op] + ops)[1..] == ops;
  }

  /** The run that tells the difference: enlarge the window and look again. */
  function Telltale(w: Window, now: int): seq<Op> {
    [SetWindowSize(w.max, now), Update(1, now), Update(1, now), Rate(now)]
  }

  lemma {:induction false} TelltaleMonotone(w: Window, now: int)
    ensures Monotone(Telltale(w, now), now)
  {
    var ops := Telltale(w, now);
    assert ops[1..] == [Update(1, now), Update(1, now), Rate(now)];
    assert ops[1..][1..] == [Update(1, now), Rate(now)];
    assert ops[1..][1..][1..] == [Rate(now)];
    assert ops[1..][1..][1..][1..] == [];
    assert Monotone(ops[1..][1..], now);
  }

  /** Two samples just taken are rated unless the window is a single bucket. */
  lemma {:induction false} TwoSamplesRate(w: Window, now: int)
    requires Ok(w) && now >= 0 && Started(w) && w.oldest <= now && w.oldest >= now - w.size + 1
    ensures var u := Updated(w, 1, now);
            && u == w.(log := w.log + [Sample(1, now)])
            && var r := RateOf(Updated(u, 1, now), now);
            && (r.None? <==> w.oldest == now)
            && (r.Some? ==> r.value.1 == now - w.oldest + 1)
  {
    var s := Sample(1, now);
    var b := w.(log := w.log + [s]);
    OneMore(w.log, s, w.oldest);
    OneMore(b.log, s, w.oldest);
    hide CountFrom, SumFrom;
  }

  lemma {:induction false} TelltaleResults(w: Window, now: int)
    requires Ok(w) && now >= 0 && Started(w) && w.oldest <= now
    ensures |Results(w, Telltale(w, now))| == 4
    ensures var a := Advance(w.(size := w.max), now);
            var r := Results(w, Telltale(w, now))[3];
            r.Rated? && (r.rate.None? <==> a.oldest == now) && (r.rate.Some? ==> r.rate.value.1 == now - a.oldest + 1)
  {
    var a := Advance(w.(size := w.max), now);
    OperationsKeepOk(w, 0, w.max, now);
    assert a == Resized(w, w.max, now) && a.oldest >= now - a.size + 1 && a.oldest <= now;
    TwoSamplesRate(a, now);
    hide Updated, RateOf, Advance, Results;
    var b := Updated(a, 1, now);
    var c := Updated(b, 1, now);
    var op0, op1, op2 := SetWindowSize(w.max, now), Update(1, now), Rate(now);
    var ops1, ops2, ops3 := [op1, op1, op2], [op1, op2], [op2];
    assert Telltale(w, now) == [op0] + ops1 && ops1 == [op1] + ops2 && ops2 == [op1] + ops3 && ops3 == [op2] + [];
    ResultsCons(w, op0, ops1);
    ResultsCons(a, op1, ops2);
    ResultsCons(b, op1, ops3);
    ResultsCons(c, op2, []);
  }

  /** The interface promises that Rate alters nothing a monotonic clock could observe. That holds exactly when the
      window is empty or not overtaken, or already has its maximum size and cannot be enlarged later. */
  lemma {:induction false} RateInvisibleIff(w: Window, now: int)
    requires Ok(w) && now >= 0
    ensures (forall ops :: Monotone(ops, now) ==> Results(Advance(w, now), ops) == Results(w, ops))
       <==> !Started(w) || now - w.size + 1 <= w.oldest || w.size == w.max
  {
    if w.size == w.max {
      forall ops | Monotone(ops, now) ensures Results(Advance(w, now), ops) == Results(w, ops) {
        MonotoneLooksAhead(w.size, w.max, ops, now, now - w.size + 1);
        RateInvisible(w, now, ops);
      }
    } else if Advance(w, now) != w {
      var v := Advance(w, now);
      OperationsKeepOk(w, 0, 0, now);
      TelltaleMonotone(w, now);
      TelltaleResults(w, now);
      TelltaleResults(v, now);
      assert Telltale(v, now) == Telltale(w, now);
      assert Results(v, Telltale(w, now))[3] != Results(w, Telltale(w, now))[3];
    }
  }

  // ----- what Rate reports, from the calls alone

  function AfterAll(w: Window, ops: seq<Op>): Window {
    if ops == [] then w else After(AfterAll(w, ops[..|ops| - 1]), ops[|ops| - 1])
  }

  /** Total of the counts of the Update calls made since the last reset, in the time after `low` and up to `high`. */
  function TotalIn(ops: seq<Op>, low: int, high: int): nat {
    if ops == [] then 0
    else
      match ops[|ops| - 1]
      case Reset => 0
      case Update(count, t) => TotalIn(ops[..|ops| - 1], low, high) + (if low < t <= high then count else 0)
      case _ => TotalIn(ops[..|ops| - 1], low, high)
  }

  /** How many there are. */
  function NumberIn(ops: seq<Op>, low: int, high: int): nat {
    if ops == [] then 0
    else
      match ops[|ops| - 1]
      case Reset => 0
      case Update(_, t) => NumberIn(ops[..|ops| - 1], low, high) + (if low < t <= high then 1 else 0)
      case _ => NumberIn(ops[..|ops| - 1], low, high)
  }

  /** The window size the calls leave in force. */
  function SizeOf(ops: seq<Op>, max: nat): nat {
    if ops == [] then max else SizeAfter(SizeOf(ops[..|ops| - 1], max), max, ops[|ops| - 1])
  }

  function Max(a: int, b: int): int {
    if a >= b then a else b
  }

  /** Where the window starts: at the first Update since the last reset, or behind it where a later call looked no
      further back; a refused SetWindowSize looks at nothing. None before that Update. */
  function EdgeOf(ops: seq<Op>, max: nat): Option<int> {
    if ops == [] then None
    else
      var before := EdgeOf(ops[..|ops| - 1], max);
      match ops[|ops| - 1]
      case Reset => None
      case SetWindowSize(size, t) =>
        if before.None? || !(0 < size <= max) then before else Some(Max(before.value, t - size + 1))
      case Rate(t) =>
        if before.None? then None else Some(Max(before.value, t - SizeOf(ops, max) + 1))
      case Update(_, t) =>
        if before.None? then Some(t) else Some(Max(before.value, t - SizeOf(ops, max) + 1))
  }

  /** The clock never goes back; it is at `now` at last. */
  predicate Ascends(ops: seq<Op>, now: int) {
    && (forall i :: 0 <= i < |ops| && !ops[i].Reset? ==> 0 <= ops[i].now <= now)
    && (forall i, j :: 0 <= i < j < |ops| && !ops[i].Reset? && !ops[j].Reset? ==> ops[i].now <= ops[j].now)
  }

  lemma {:induction false} AscendsFront(ops: seq<Op>, now: int)
    requires Ascends(ops, now) && ops != []
    ensures var last := ops[|ops| - 1];
            Ascends(ops[..|ops| - 1], if last.Reset? then now else last.now)
  {
  }

  /** The window a list of calls leaves behind: its size, and where it starts. */
  predicate Stands(w: Window, ops: seq<Op>, max: nat, now: int) {
    && w.max == max && w.size == SizeOf(ops, max) && 0 < w.size <= max
    && match EdgeOf(ops, max)
       case None => w.oldest == 0 - max && w.log == []
       case Some(edge) => w.oldest == edge && 0 <= now - edge && 0 - max < edge
  }

  lemma {:induction false} RunStands(ops: seq<Op>, max: nat, now: int)
    requires 0 < max && Ascends(ops, now)
    ensures Stands(AfterAll(Empty(max), ops), ops, max, now)
  {
    if ops != [] {
      var init, last := ops[..|ops| - 1], ops[|ops| - 1];
      var t := if last.Reset? then now else last.now;
      AscendsFront(ops, now);
      RunStands(init, max, t);
      assert last.Reset? || 0 <= t <= now;
      hide AfterAll, Ascends;
      StandsAfter(AfterAll(Empty(max), init), init, last, max, t, now);
      assert init + [last] == ops;
      AfterAllSnoc(Empty(max), init, last);
    }
  }

  lemma {:induction false} AfterAllSnoc(w: Window, ops: seq<Op>, op: Op)
    ensures AfterAll(w, ops + [op]) == After(AfterAll(w, ops), op)
  {
    assert (ops + [op])[..|ops|] == ops;
  }

  lemma {:induction false} StandsAfter(w: Window, ops: seq<Op>, op: Op, max: nat, t: int, now: int)
    requires Stands(w, ops, max, t) && (op.Reset? || (t == op.now && 0 <= t <= now))
    ensures Stands(After(w, op), ops + [op], max, now)
  {
    assert (ops + [op])[..|ops|] == ops;
    assert SizeOf(ops + [op], max) == SizeAfter(SizeOf(ops, max), max, op);
  }

  /** The totals over the log are those over the calls. */
  lemma {:induction false} RunTotals(ops: seq<Op>, max: nat, now: int, low: int)
    requires 0 < max && Ascends(ops, now)
    ensures SumFrom(AfterAll(Empty(max), ops).log, low + 1) == TotalIn(ops, low, now)
    ensures CountFrom(AfterAll(Empty(max), ops).log, low + 1) == NumberIn(ops, low, now)
  {
    if ops != [] {
      var init, last := ops[..|ops| - 1], ops[|ops| - 1];
      var t := if last.Reset? then now else last.now;
      AscendsFront(ops, now);
      assert t <= now;
      hide Ascends, SumFrom, CountFrom, After;
      RunTotals(init, max, t, low);
      NothingLater(init, low, t, now);
      RunStands(init, max, t);
      LogAfter(AfterAll(Empty(max), init), init, last, max, t, low);
    }
  }

  /** What a call does to the log. */
  lemma {:induction false} LogAfter(w: Window, ops: seq<Op>, op: Op, max: nat, t: int, low: int)
    requires Stands(w, ops, max, t) && (op.Reset? || t == op.now >= 0)
    ensures op.Reset? ==> SumFrom(After(w, op).log, low + 1) == CountFrom(After(w, op).log, low + 1) == 0
    ensures op.Update? ==>
              && SumFrom(After(w, op).log, low + 1) == SumFrom(w.log, low + 1) + (if low < t then op.count else 0)
              && CountFrom(After(w, op).log, low + 1) == CountFrom(w.log, low + 1) + (if low < t then 1 else 0)
    ensures op.Rate? || op.SetWindowSize? ==> After(w, op).log == w.log
  {
    if op.Update? {
      OneMore(w.log, Sample(op.count, t), low + 1);
      hide SumFrom, CountFrom;
    }
  }

  /** Nothing was updated after the clock had last been read. */
  lemma {:induction false} NothingLater(ops: seq<Op>, low: int, now: int, later: int)
    requires Ascends(ops, now) && now <= later
    ensures TotalIn(ops, low, now) == TotalIn(ops, low, later) && NumberIn(ops, low, now) == NumberIn(ops, low, later)
  {
    if ops != [] {
      NothingLater(ops[..|ops| - 1], low, now, later);
    }
  }

  /** The total of `n` updates over `span` milliseconds: reported if there are two of them, or one and the span is a
      full window, and if the span is more than one millisecond. */
  function Spread(n: nat, total: nat, span: int, size: nat): Option<(nat, int)> {
    if (n >= 2 || (n == 1 && span >= size)) && span > 1 then Some((total, span)) else None
  }

  /** What Rate(now) reports after any calls with a clock that never goes back, resizes and resets included: the
      total of the Update calls from the start of the window on, spread over the time since. */
  lemma {:induction false} RateReports(ops: seq<Op>, max: nat, now: int)
    requires 0 < max && Ascends(ops, now)
    ensures var rate := RateOf(AfterAll(Empty(max), ops), now);
            match EdgeOf(ops, max)
            case None => rate == None
            case Some(edge) =>
              var size := SizeOf(ops, max);
              var from := Max(edge, now - size + 1);
              var n := NumberIn(ops, from - 1, now);
              rate == Spread(n, TotalIn(ops, from - 1, now), now - from + 1, size)
  {
    hide AfterAll, Ascends, TotalIn, NumberIn, SumFrom, CountFrom, EdgeOf, SizeOf, SizeAfter, RateOf, Spread;
    var w := AfterAll(Empty(max), ops);
    RunStands(ops, max, now);
    match EdgeOf(ops, max)
    case None => NoSamples(w, now);
    case Some(edge) =>
      var from := Max(edge, now - SizeOf(ops, max) + 1);
      RunTotals(ops, max, now, from - 1);
      RateFrom(w, now, from, NumberIn(ops, from - 1, now), TotalIn(ops, from - 1, now));
  }

  lemma {:induction false} RateFrom(w: Window, now: int, from: int, n: nat, total: nat)
    requires Started(w) && from == Max(w.oldest, now - w.size + 1)
    requires CountFrom(w.log, from) == n && SumFrom(w.log, from) == total
    ensures RateOf(w, now) == Spread(n, total, now - from + 1, w.size)
  {
    hide CountFrom, SumFrom;
  }

  lemma {:induction false} NoSamples(w: Window, now: int)
    ensures w.log == [] ==> RateOf(w, now) == None
  {
  }

  // ----- runs of Update and Rate alone

  predicate Plain(ops: seq<Op>) {
    forall i :: 0 <= i < |ops| ==> ops[i].Update? || ops[i].Rate?
  }

  predicate FirstUpdate(ops: seq<Op>, first: nat) {
    first < |ops| && ops[first].Update? && forall i :: 0 <= i < first ==> !ops[i].Update?
  }

  lemma {:induction false} PlainEdge(ops: seq<Op>, max: nat, now: int, first: nat)
    requires Plain(ops) && Ascends(ops, now) && FirstUpdate(ops, first) && 0 < max
    ensures SizeOf(ops, max) == max
    ensures EdgeOf(ops, max) == Some(Max(ops[first].now, ops[|ops| - 1].now - max + 1))
  {
    var n := |ops| - 1;
    PlainSize(ops, max);
    PlainSize(ops[..n], max);
    if first == n {
      NoEdge(ops[..n], max);
    } else {
      assert ops[..n][first] == ops[first] && ops[..n][n - 1] == ops[n - 1];
      PlainEdge(ops[..n], max, ops[n - 1].now, first);
    }
  }

  lemma {:induction false} PlainSize(ops: seq<Op>, max: nat)
    requires Plain(ops)
    ensures SizeOf(ops, max) == max
  {
    if ops != [] { PlainSize(ops[..|ops| - 1], max); }
  }

  lemma {:induction false} NoEdge(ops: seq<Op>, max: nat)
    requires forall i :: 0 <= i < |ops| ==> !ops[i].Update?
    ensures EdgeOf(ops, max) == None
  {
    if ops != [] { NoEdge(ops[..|ops| - 1], max); }
  }

  /** No call updates anything before the first one that does. */
  lemma {:induction false} NothingBefore(ops: seq<Op>, now: int, first: nat, low: int)
    requires Plain(ops) && Ascends(ops, now) && FirstUpdate(ops, first) && low < ops[first].now
    ensures TotalIn(ops, low, now) == TotalIn(ops, ops[first].now - 1, now)
    ensures NumberIn(ops, low, now) == NumberIn(ops, ops[first].now - 1, now)
  {
    var n := |ops| - 1;
    if first == n {
      NoneCounted(ops[..n], low, now);
      NoneCounted(ops[..n], ops[first].now - 1, now);
    } else {
      assert ops[..n][first] == ops[first];
      NothingBefore(ops[..n], now, first, low);
    }
  }

  lemma {:induction false} NoneCounted(ops: seq<Op>, low: int, high: int)
    requires forall i :: 0 <= i < |ops| ==> !ops[i].Update?
    ensures TotalIn(ops, low, high) == 0 && NumberIn(ops, low, high) == 0
  {
    if ops != [] { NoneCounted(ops[..|ops| - 1], low, high); }
  }

  /** The result of the last call of a run. */
  lemma {:induction false} LastResult(w: Window, ops: seq<Op>, op: Op)
    ensures Results(w, ops + [op])[|ops|] == ResultOf(AfterAll(w, ops), op)
    decreases |ops|
  {
    hide ResultOf, After;
    if ops == [] {
      ResultsCons(w, op, []);
      assert [] + [op] == [op] + [];
    } else {
      var x, rest := ops[0], ops[1..];
      assert ops + [op] == [x] + (rest + [op]);
      ResultsCons(w, x, rest + [op]);
      LastResult(After(w, x), rest, op);
      AfterAllCons(w, x, rest);
      assert [x] + rest == ops;
    }
  }

  lemma {:induction false} LastRate(w: Window, ops: seq<Op>, now: int)
    ensures Results(w, ops + [Rate(now)])[|ops|] == Rated(RateOf(AfterAll(w, ops), now))
  {
    LastResult(w, ops, Rate(now));
    hide Results, AfterAll, RateOf;
  }

  lemma {:induction false} AfterAllCons(w: Window, op: Op, ops: seq<Op>)
    ensures AfterAll(w, [op] + ops) == AfterAll(After(w, op), ops)
    decreases |ops|
  {
    hide After;
    if ops == [] {
      assert [op] + ops == [op] && [op][..0] == [];
      assert AfterAll(w, []) == w;
    } else {
      var init, last := ops[..|ops| - 1], ops[|ops| - 1];
      assert ([op] + ops)[..|ops|] == [op] + init;
      AfterAllCons(w, op, init);
    }
  }

  lemma {:induction false} PlainWindow(ops: seq<Op>, max: nat, now: int, first: nat)
    requires 0 < max && Plain(ops) && Ascends(ops, now) && FirstUpdate(ops, first)
    ensures EdgeOf(ops, max).Some? && SizeOf(ops, max) == max
    ensures var from := Max(EdgeOf(ops, max).value, now - max + 1);
            && now - from + 1 == Min(now - ops[first].now + 1, max)
            && NumberIn(ops, from - 1, now) == NumberIn(ops, now - max, now)
            && TotalIn(ops, from - 1, now) == TotalIn(ops, now - max, now)
  {
    PlainEdge(ops, max, now, first);
    assert ops[|ops| - 1].now <= now;
    hide EdgeOf, SizeOf, TotalIn, NumberIn, Ascends, Plain;
    if now - max < ops[first].now {
      NothingBefore(ops, now, first, now - max);
    }
  }

  /** The rate at the end of any run of Update and Rate calls with a clock that never goes back: the total of the
      updates made after `now - max`, spread over the time since the first update of all or over `max`, whichever is
      less. */
  lemma {:induction false} RateOfPlainRun(ops: seq<Op>, max: nat, now: int, first: nat)
    requires 0 < max && Plain(ops) && Ascends(ops, now) && FirstUpdate(ops, first)
    ensures var n, span := NumberIn(ops, now - max, now), Min(now - ops[first].now + 1, max);
            Results(Empty(max), ops + [Rate(now)])[|ops|] == Rated(Spread(n, TotalIn(ops, now - max, now), span, max))
  {
    hide *;
    LastRate(Empty(max), ops, now);
    RateReports(ops, max, now);
    PlainWindow(ops, max, now, first);
  }
}
