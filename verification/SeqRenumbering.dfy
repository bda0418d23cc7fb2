/** SeqManager<T>: renumbering a stream with dropped inputs in 8-bit, 16-bit or 32-bit arithmetic, against the same
    renumbering on unbounded integers. */
module SeqRenumbering {
  import opened Bytes
  import opened SeqOrder

  datatype Width = Bits8 | Bits16 | Bits32

  /** Which of the three instances of the template this is; no proof here knows. */
  const WIDTH: Width

  /** How many numbers there are. */
  const CIRCLE: int :=
    match WIDTH
    case Bits8 => 0x100
    case Bits16 => 0x1_0000
    case Bits32 => 0x1_0000_0000

  /** std::numeric_limits<T>::max() / 2. */
  const HALF: int :=
    match WIDTH
    case Bits8 => 0x7F
    case Bits16 => 0x7FFF
    case Bits32 => 0x7FFF_FFFF

  type Num = x: int | 0 <= x < CIRCLE

  /** Conversion to T. */
  function Cut(x: int): Num {
    match WIDTH
    case Bits8 => x % 0x100
    case Bits16 => x % 0x1_0000
    case Bits32 => x % 0x1_0000_0000
  }

  predicate SeqLower(lhs: Num, rhs: Num) {
    LowerThan(lhs, rhs, HALF)
  }

  predicate SeqHigher(lhs: Num, rhs: Num) {
    HigherThan(lhs, rhs, HALF)
  }

  /** `dropped` lists the elements of the ordered set from its begin() to its end(). */
  datatype Manager = Manager(base: Num, maxOutput: Num, maxInput: Num, dropped: seq<Num>)

  const NEW_MANAGER := Manager(0, 0, 0, [])

  /** What a search of the tree for lower_bound(key) can end on: the element before, if any, compares lower than the
      key, and the element found does not. One place if the elements are ordered around the key, else any such place. */
  predicate Boundary(ds: seq<Num>, key: Num, i: nat) {
    && i <= |ds|
    && (i > 0 ==> SeqLower(ds[i - 1], key))
    && (i < |ds| ==> !SeqLower(ds[i], key))
  }

  function Sync(m: Manager, input: Num): Manager {
    Manager(Cut(m.maxOutput - input), m.maxOutput, input, [])
  }

  function Offset(m: Manager, offset: Num): Manager {
    m.(base := Cut(m.base + offset))
  }

  /** std::set::insert once the search has ended on `i`: nothing is added next to an equivalent element. */
  function DropAt(m: Manager, input: Num, i: nat): Manager
    requires i <= |m.dropped|
  {
    if !SeqHigher(input, m.maxInput) then m
    else if i < |m.dropped| && !SeqLower(input, m.dropped[i]) then m
    else m.(dropped := m.dropped[..i] + [input] + m.dropped[i..])
  }

  /** Where the search for dropped inputs older than `input` starts. */
  function PruneKey(input: Num): Num {
    Cut(input - HALF)
  }

  /** Output and maxima once the base is settled. */
  function Accept(m: Manager, input: Num, base: Num): (Option<Num>, Manager) {
    var output := Cut(input + base);
    (Some(output),
     m.(maxInput := if Cut(input - m.maxInput) < HALF then input else m.maxInput,
        maxOutput := if Cut(output - m.maxOutput) < HALF then output else m.maxOutput))
  }

  /** Forget the first `i` dropped inputs. */
  function Prune(m: Manager, i: nat): Manager
    requires i <= |m.dropped|
  {
    m.(base := Cut(m.base - i), dropped := m.dropped[i..])
  }

  /** Input, when its two searches end on `i` and then `j`; None where the source returns false. */
  function InputAt(m: Manager, input: Num, i: nat, j: nat): (Option<Num>, Manager)
    requires i <= |m.dropped| && j <= |m.dropped| - i
  {
    if m.dropped == [] then Accept(m, input, m.base)
    else
      var n := Prune(m, i);
      if j < |n.dropped| && n.dropped[j] == input then (None, n)
      else Accept(n, input, Cut(n.base - j))
  }

  /** Both searches end where a search can end. */
  predicate Searched(m: Manager, input: Num, i: nat, j: nat) {
    Boundary(m.dropped, PruneKey(input), i) && Boundary(m.dropped[i..], input, j)
  }

  // ----- the same on unbounded integers

  /** All inputs dropped since the last Sync, in ascending order, the first `pruned` of which are forgotten; the highest
      input seen; the highest one presented, dropped or not; the highest output. */
  datatype Stream = Stream(offset: int, drops: seq<int>, pruned: nat, top: int, high: int, maxOut: int)

  predicate Ascending(s: seq<int>) {
    forall i, j :: 0 <= i < j < |s| ==> s[i] < s[j]
  }

  function CountBelow(s: seq<int>, x: int): (n: nat)
    ensures n <= |s|
  {
    if s == [] then 0 else CountBelow(s[..|s| - 1], x) + (if s[|s| - 1] < x then 1 else 0)
  }

  /** The number an input gets: shifted, and closed up over the dropped inputs below it. */
  function Renumber(s: Stream, input: int): int {
    input + s.offset - CountBelow(s.drops, input)
  }

  function Live(s: Stream): seq<int>
    requires s.pruned <= |s.drops|
  {
    s.drops[s.pruned..]
  }

  predicate CutsTo(xs: seq<int>, ws: seq<Num>) {
    |xs| == |ws| && forall i :: 0 <= i < |xs| ==> ws[i] == Cut(xs[i])
  }

  /** The first n elements, and only they, lie below the limit. */
  predicate Placed(s: seq<int>, n: nat, limit: int)
    requires n <= |s|
  {
    && (forall i :: 0 <= i < n ==> s[i] < limit)
    && (forall i :: n <= i < |s| ==> limit <= s[i])
  }

  /** Drops ascend, only forgotten ones lie outside the window of the highest input, and the others fit half the
      number circle. */
  predicate StreamOk(s: Stream) {
    && s.pruned <= |s.drops| && Ascending(s.drops)
    && Placed(s.drops, s.pruned, s.high - HALF)
    && s.top <= s.high <= s.top + HALF
    && (s.pruned < |s.drops| ==> s.drops[|s.drops| - 1] - s.drops[s.pruned] <= HALF)
    && (s.drops != [] ==> s.drops[|s.drops| - 1] <= s.top + HALF)
  }

  /** The fields are those of the stream, cut to their width. */
  predicate Encodes(m: Manager, s: Stream)
    requires s.pruned <= |s.drops|
  {
    && m.base == Cut(s.offset - s.pruned)
    && m.maxInput == Cut(s.top)
    && m.maxOutput == Cut(s.maxOut)
    && CutsTo(Live(s), m.dropped)
  }

  predicate StandsFor(m: Manager, s: Stream) {
    StreamOk(s) && Encodes(m, s)
  }

  /** An input within half the number circle of the highest inputs and of the last dropped one. */
  predicate InWindow(s: Stream, input: int) {
    && s.high - HALF <= input <= s.top + HALF
    && (s.drops != [] ==> s.drops[|s.drops| - 1] - HALF <= input)
  }

  /** No dropped input is waiting above the one presented; one right above it does no harm in the lower half of the
      number range. */
  predicate NoneAbove(s: Stream, input: int)
    requires s.pruned <= |s.drops|
  {
    Live(s) == [] ||
    var last := s.drops[|s.drops| - 1];
    last <= input || (last == input + 1 && Cut(last) <= HALF)
  }

  function Max(a: int, b: int): int {
    if a >= b then a else b
  }

  /** The highest output moves on by less than half the number circle, or not at all. */
  function RaiseOutput(maxOut: int, output: int): int {
    var ahead := Cut(output - maxOut);
    if ahead < HALF then maxOut + ahead else maxOut
  }

  /** The stream once the drops older than `input` are forgotten. */
  function Forget(s: Stream, input: int): Stream {
    s.(pruned := Max(s.pruned, CountBelow(s.drops, input - HALF)), high := Max(s.high, input))
  }

  function StreamInput(s: Stream, input: int): Stream {
    var seen := Forget(s, input);
    if input in s.drops then seen
    else seen.(top := if 0 <= input - s.top < HALF then input else s.top,
               maxOut := RaiseOutput(s.maxOut, Renumber(s, input)))
  }

  /** What the caller of Input must get. */
  function StreamOutput(s: Stream, input: int): Option<Num> {
    if input in s.drops then None else Some(Cut(Renumber(s, input)))
  }

  // ----- order on the number circle

  lemma {:induction false} Add8(a: int, b: int)
    ensures (a % 0x100 + b) % 0x100 == (a + b) % 0x100
  {
  }

  lemma {:induction false} Add16(a: int, b: int)
    ensures (a % 0x1_0000 + b) % 0x1_0000 == (a + b) % 0x1_0000
  {
  }

  lemma {:induction false} Add32(a: int, b: int)
    ensures (a % 0x1_0000_0000 + b) % 0x1_0000_0000 == (a + b) % 0x1_0000_0000
  {
  }

  /** Cutting a sum early or late makes no difference. */
  lemma {:induction false} CutAdd(a: int, b: int)
    ensures Cut(Cut(a) + b) == Cut(a + b)
  {
    match WIDTH
    case Bits8 => Add8(a, b);
    case Bits16 => Add16(a, b);
    case Bits32 => Add32(a, b);
  }

  lemma {:induction false} Apart8(a: int, b: int)
    requires -0x100 < b - a < 0x100
    ensures var d := b % 0x100 - a % 0x100;
            d == b - a || d == b - a + 0x100 || d == b - a - 0x100
  {
    var qa, qb := a / 0x100, b / 0x100;
    assert a == qa * 0x100 + a % 0x100 && b == qb * 0x100 + b % 0x100;
    assert -1 <= qb - qa <= 1;
  }

  lemma {:induction false} Apart16(a: int, b: int)
    requires -0x1_0000 < b - a < 0x1_0000
    ensures var d := b % 0x1_0000 - a % 0x1_0000;
            d == b - a || d == b - a + 0x1_0000 || d == b - a - 0x1_0000
  {
    var qa, qb := a / 0x1_0000, b / 0x1_0000;
    assert a == qa * 0x1_0000 + a % 0x1_0000 && b == qb * 0x1_0000 + b % 0x1_0000;
    assert -1 <= qb - qa <= 1;
  }

  lemma {:induction false} Apart32(a: int, b: int)
    requires -0x1_0000_0000 < b - a < 0x1_0000_0000
    ensures var d := b % 0x1_0000_0000 - a % 0x1_0000_0000;
            d == b - a || d == b - a + 0x1_0000_0000 || d == b - a - 0x1_0000_0000
  {
    var qa, qb := a / 0x1_0000_0000, b / 0x1_0000_0000;
    assert a == qa * 0x1_0000_0000 + a % 0x1_0000_0000 && b == qb * 0x1_0000_0000 + b % 0x1_0000_0000;
    assert -1 <= qb - qa <= 1;
  }

  lemma {:induction false} CutApart(a: int, b: int)
    requires -CIRCLE < b - a < CIRCLE
    ensures Cut(b) - Cut(a) == b - a || Cut(b) - Cut(a) == b - a + CIRCLE || Cut(b) - Cut(a) == b - a - CIRCLE
  {
    match WIDTH
    case Bits8 => Apart8(a, b);
    case Bits16 => Apart16(a, b);
    case Bits32 => Apart32(a, b);
  }

  lemma {:induction false} LowerIsBelow(a: int, b: int)
    requires -HALF <= b - a <= HALF
    ensures SeqLower(Cut(a), Cut(b)) <==> a < b
    ensures Cut(a) == Cut(b) <==> a == b
  {
    CutApart(a, b);
    hide Cut;
  }

  /** The key the pruning search uses, against every number it can meet: it also compares lower for numbers above the
      input, from the second one on. */
  lemma {:induction false} PruneKeyOrder(d: int, input: int)
    requires input - 2 * HALF <= d <= input + HALF
    ensures SeqLower(Cut(d), PruneKey(Cut(input))) <==>
            d < input - HALF || d >= input + 2 || (d == input + 1 && Cut(d) > HALF)
  {
    var key := input - HALF;
    CutAdd(input, -HALF);
    assert PruneKey(Cut(input)) == Cut(key);
    CutApart(d, key);
    CutAround(d);
    if d <= input {
      LowerIsBelow(d, key);
    } else if d >= input + 2 {
      LowerIsBelow(d - CIRCLE, key);
    } else {
      HalfCircle(key);
    }
  }

  lemma {:induction false} CutCircle()
    ensures Cut(0 - CIRCLE) == 0
  {
  }

  lemma {:induction false} CutAround(d: int)
    ensures Cut(d - CIRCLE) == Cut(d)
  {
    CutCircle();
    hide Cut;
    CutAdd(0 - CIRCLE, d);
  }

  lemma {:induction false} HalfCircle(key: int)
    ensures SeqLower(Cut(key + (HALF + 1)), Cut(key)) <==> Cut(key + (HALF + 1)) > HALF
  {
    CutApart(key, key + (HALF + 1));
    hide Cut;
  }

  // ----- counting

  lemma {:induction false} CountAll(s: seq<int>, x: int)
    requires forall i :: 0 <= i < |s| ==> s[i] < x
    ensures CountBelow(s, x) == |s|
  {
    if s != [] { CountAll(s[..|s| - 1], x); }
  }

  lemma {:induction false} CountAppend(a: seq<int>, b: seq<int>, x: int)
    ensures CountBelow(a + b, x) == CountBelow(a, x) + CountBelow(b, x)
  {
    if b == [] {
      assert a + b == a;
    } else {
      assert (a + b)[..|a + b| - 1] == a + b[..|b| - 1];
      CountAppend(a, b[..|b| - 1], x);
    }
  }

  /** In ascending order, the elements below x come first. */
  lemma {:induction false} CountSplits(s: seq<int>, x: int)
    requires Ascending(s)
    ensures forall i :: 0 <= i < |s| ==> (s[i] < x <==> i < CountBelow(s, x))
  {
    if s != [] {
      CountSplits(s[..|s| - 1], x);
    }
  }

  lemma {:induction false} CountSuffix(s: seq<int>, n: nat, x: int)
    requires n <= |s| && forall i :: 0 <= i < n ==> s[i] < x
    ensures CountBelow(s, x) == n + CountBelow(s[n..], x)
  {
    assert s == s[..n] + s[n..];
    CountAppend(s[..n], s[n..], x);
    CountAll(s[..n], x);
  }

  // ----- Input

  /** If exactly the first n elements compare lower, the search ends on n. */
  lemma {:induction false} BoundaryUnique(ds: seq<Num>, key: Num, n: nat, i: nat)
    requires n <= |ds| && forall k :: 0 <= k < |ds| ==> (SeqLower(ds[k], key) <==> k < n)
    ensures Boundary(ds, key, i) <==> i == n
  {
    hide SeqLower;
  }

  lemma {:induction false} LiveAscends(s: Stream)
    requires s.pruned <= |s.drops| && Ascending(s.drops)
    ensures Ascending(Live(s))
  {
  }

  /** The pruning search stops behind the drops older than the window. */
  lemma {:induction false} PruneSearch(m: Manager, s: Stream, input: int, i: nat)
    requires StandsFor(m, s) && InWindow(s, input) && NoneAbove(s, input)
    ensures Boundary(m.dropped, PruneKey(Cut(input)), i) <==> i == CountBelow(Live(s), input - HALF)
  {
    hide Cut, PruneKey, SeqLower, Boundary, CountBelow;
    var live := Live(s);
    LiveAscends(s);
    CountSplits(live, input - HALF);
    var n := CountBelow(live, input - HALF);
    forall k | 0 <= k < |live| ensures SeqLower(m.dropped[k], PruneKey(Cut(input))) <==> k < n {
      assert live[k] == s.drops[s.pruned + k];
      PruneKeyOrder(live[k], input);
    }
    BoundaryUnique(m.dropped, PruneKey(Cut(input)), n, i);
  }

  /** The counting search stops at the drops from `input` on, and finds `input` itself exactly when it was dropped. */
  lemma {:induction false} CountSearch(live: seq<int>, ds: seq<Num>, input: int, j: nat)
    requires Ascending(live) && CutsTo(live, ds)
    requires forall k :: 0 <= k < |live| ==> input - HALF <= live[k] <= input + HALF
    ensures Boundary(ds, Cut(input), j) <==> j == CountBelow(live, input)
    ensures Boundary(ds, Cut(input), j) ==> (j < |ds| && ds[j] == Cut(input) <==> input in live)
  {
    hide Cut, SeqLower, Boundary, CountBelow;
    CountSplits(live, input);
    var n := CountBelow(live, input);
    forall k | 0 <= k < |live|
      ensures (SeqLower(ds[k], Cut(input)) <==> k < n) && (ds[k] == Cut(input) <==> live[k] == input)
    {
      LowerIsBelow(live[k], input);
    }
    BoundaryUnique(ds, Cut(input), n, j);
    if n < |live| {
      assert live[n] >= input;
      assert forall k :: n < k < |live| ==> live[k] > live[n];
    }
  }

  /** Forgetting old drops only ever forgets more. */
  lemma {:induction false} PrunedCount(s: Stream, input: int)
    requires s.pruned <= |s.drops| && Ascending(s.drops)
    ensures s.pruned + CountBelow(Live(s), input - HALF) == Max(s.pruned, CountBelow(s.drops, input - HALF))
  {
    hide CountBelow;
    var x := input - HALF;
    LiveAscends(s);
    CountSplits(s.drops, x);
    CountSplits(Live(s), x);
    assert forall i :: 0 <= i < |Live(s)| ==> Live(s)[i] == s.drops[s.pruned + i];
    if CountBelow(Live(s), x) > 0 {
      assert Live(s)[0] < x;
      CountSuffix(s.drops, s.pruned, x);
    } else if Live(s) != [] {
      assert Live(s)[0] >= x;
    }
  }

  /** Forgetting keeps the stream in order, and what is left lies in the window of the input. */
  lemma {:induction false} ForgetOk(s: Stream, input: int)
    requires StreamOk(s) && InWindow(s, input)
    ensures var t := Forget(s, input);
            && StreamOk(t) && t.pruned <= |t.drops|
            && forall k :: t.pruned <= k < |t.drops| ==> input - HALF <= t.drops[k] <= input + HALF
  {
    CountSplits(s.drops, input - HALF);
    hide CountBelow;
  }

  lemma {:induction false} ForgetEncodes(m: Manager, s: Stream, t: Stream, i: nat)
    requires s.pruned <= |s.drops| && Encodes(m, s) && i <= |m.dropped|
    requires t.drops == s.drops && t.pruned == s.pruned + i
    requires t.offset == s.offset && t.top == s.top && t.maxOut == s.maxOut
    ensures Encodes(Prune(m, i), t)
    ensures m.dropped == [] ==> Prune(m, i) == m
  {
    CutAdd(s.offset - s.pruned, 0 - i);
    BaseIsCut(m.base);
    hide Cut;
    assert Live(t) == Live(s)[i..];
  }

  lemma {:induction false} ForgetKeeps(m: Manager, s: Stream, input: int, i: nat)
    requires StandsFor(m, s) && InWindow(s, input) && i == CountBelow(Live(s), input - HALF)
    ensures i <= |m.dropped| && StandsFor(Prune(m, i), Forget(s, input))
    ensures forall k :: 0 <= k < |Live(Forget(s, input))| ==>
              input - HALF <= Live(Forget(s, input))[k] <= input + HALF
    ensures m.dropped == [] ==> Prune(m, i) == m
  {
    hide CountBelow, Encodes, InWindow, StreamOk, CutsTo, Ascending;
    LiveOf(m, s);
    PrunedCount(s, input);
    ForgetOk(s, input);
    var t := Forget(s, input);
    LiveSize(m, s);
    ForgetEncodes(m, s, t, i);
    LiveWithin(t, input - HALF, input + HALF);
    hide Forget;
  }

  lemma {:induction false} LiveSize(m: Manager, s: Stream)
    requires StandsFor(m, s)
    ensures |m.dropped| == |Live(s)|
  {
  }

  lemma {:induction false} LiveWithin(s: Stream, low: int, high: int)
    requires s.pruned <= |s.drops| && forall k :: s.pruned <= k < |s.drops| ==> low <= s.drops[k] <= high
    ensures forall k :: 0 <= k < |Live(s)| ==> low <= Live(s)[k] <= high
  {
  }

  lemma {:induction false} BaseIsCut(w: Num)
    ensures Cut(w) == w && Cut(w - 0) == w
  {
    match WIDTH
    case Bits8 =>
    case Bits16 =>
    case Bits32 =>
  }

  /** Which part of Renumber the manager's base already accounts for. */
  lemma {:induction false} OutputOf(m: Manager, s: Stream, input: int, j: nat)
    requires StandsFor(m, s) && (forall k :: 0 <= k < s.pruned ==> s.drops[k] < input)
    requires j == CountBelow(Live(s), input)
    ensures Cut(Cut(input) + Cut(m.base - j)) == Cut(Renumber(s, input))
  {
    hide CountBelow, Cut;
    CountSuffix(s.drops, s.pruned, input);
    var b: int := s.offset - s.pruned;
    CutAdd(b, 0 - j);
    CutSum(input, b - j);
  }

  lemma {:induction false} CutSum(a: int, b: int)
    ensures Cut(Cut(a) + Cut(b)) == Cut(a + b)
  {
    hide Cut;
    CutAdd(a, Cut(b));
    CutAdd(b, a);
  }

  lemma {:induction false} CutDifference(a: int, b: int)
    ensures Cut(Cut(a) - Cut(b)) == Cut(a - b)
  {
    hide Cut;
    CutAdd(a, 0 - Cut(b));
    CutAdd(b, a - b - Cut(b));
  }

  lemma {:induction false} AcceptKeeps(m: Manager, s: Stream, input: int, base: Num)
    requires StandsFor(m, s) && s.top - HALF <= input <= s.top + HALF && s.high >= input >= s.high - HALF
    requires Cut(Cut(input) + base) == Cut(Renumber(s, input))
    ensures Accept(m, Cut(input), base).0 == Some(Cut(Renumber(s, input)))
    ensures StandsFor(Accept(m, Cut(input), base).1,
                      s.(top := if 0 <= input - s.top < HALF then input else s.top,
                         maxOut := RaiseOutput(s.maxOut, Renumber(s, input))))
  {
    CutDifference(input, s.top);
    CutDifference(Renumber(s, input), s.maxOut);
    CutAhead(input - s.top);
    RaisedOutput(s.maxOut, Renumber(s, input));
    hide Cut, RaiseOutput, CountBelow, Renumber;
  }

  lemma {:induction false} CutAhead(d: int)
    requires -HALF <= d <= HALF
    ensures Cut(d) < HALF <==> 0 <= d < HALF
  {
    match WIDTH
    case Bits8 =>
    case Bits16 =>
    case Bits32 =>
  }

  lemma {:induction false} RaisedOutput(maxOut: int, output: int)
    ensures Cut(RaiseOutput(maxOut, output)) ==
            (if Cut(output - maxOut) < HALF then Cut(output) else Cut(maxOut))
  {
    CutAdd(output - maxOut, maxOut);
    hide Cut;
  }

  /** While no drop waits above the input, every way the two searches can end gives the unbounded answer: false exactly
      for a dropped input, otherwise the input renumbered over all drops below it, forgotten ones included. */
  lemma {:induction false} InputRight(m: Manager, s: Stream, input: int, i: nat, j: nat)
    requires StandsFor(m, s) && InWindow(s, input) && NoneAbove(s, input)
    requires Searched(m, Cut(input), i, j)
    ensures InputAt(m, Cut(input), i, j).0 == StreamOutput(s, input)
    ensures StandsFor(InputAt(m, Cut(input), i, j).1, StreamInput(s, input))
  {
    hide Cut, PruneKey, CountBelow, StandsFor, Forget, RaiseOutput, Renumber, Accept, Boundary;
    LiveOf(m, s);
    InputReach(m, s, input);
    PruneSearch(m, s, input, i);
    ForgetKeeps(m, s, input, i);
    var n, t := Prune(m, i), Forget(s, input);
    LiveOf(n, t);
    CountSearch(Live(t), n.dropped, input, j);
    ForgottenBelow(s, input);
    OutputOf(n, t, input, j);
    SameRenumber(s, input);
    if input !in s.drops {
      BaseIsCut(m.base);
      AcceptKeeps(n, t, input, if m.dropped == [] then m.base else Cut(n.base - j));
    }
  }

  lemma {:induction false} LiveOf(m: Manager, s: Stream)
    requires StandsFor(m, s)
    ensures s.pruned <= |s.drops| && Ascending(s.drops) && Ascending(Live(s)) && CutsTo(Live(s), m.dropped)
  {
  }

  lemma {:induction false} SameRenumber(s: Stream, input: int)
    ensures Renumber(Forget(s, input), input) == Renumber(s, input)
    ensures Forget(s, input).drops == s.drops && Forget(s, input).top == s.top
    ensures Forget(s, input).maxOut == s.maxOut && Forget(s, input).high == Max(s.high, input)
  {
  }

  lemma {:induction false} InputReach(m: Manager, s: Stream, input: int)
    requires StandsFor(m, s) && InWindow(s, input)
    ensures s.top - HALF <= input <= s.top + HALF && Max(s.high, input) - HALF <= input
    ensures forall k :: 0 <= k < s.pruned ==> s.drops[k] < s.high - HALF
    ensures s.high - HALF <= input
  {
  }

  /** What is forgotten lies below the input; so the input was dropped exactly when it is among the rest. */
  lemma {:induction false} ForgottenBelow(s: Stream, input: int)
    requires s.pruned <= |s.drops| && Ascending(s.drops) && s.high - HALF <= input
    requires forall k :: 0 <= k < s.pruned ==> s.drops[k] < s.high - HALF
    ensures var t := Forget(s, input);
            && t.pruned <= |t.drops|
            && (forall k :: 0 <= k < t.pruned ==> t.drops[k] < input)
            && (input in Live(t) <==> input in s.drops)
  {
    CountSplits(s.drops, input - HALF);
    hide CountBelow;
    var t := Forget(s, input);
    if input in s.drops {
      var k :| 0 <= k < |s.drops| && s.drops[k] == input;
      assert Live(t)[k - t.pruned] == input;
    }
  }

  /** The last live drop compares lower than the pruning key when it lies above the input. */
  lemma {:induction false} AllForgotten(m: Manager, s: Stream, input: int)
    requires StandsFor(m, s) && InWindow(s, input) && !NoneAbove(s, input)
    ensures Searched(m, Cut(input), |m.dropped|, 0)
    ensures m.dropped != []
  {
    hide Cut, PruneKey, SeqLower;
    var live := Live(s);
    assert live[|live| - 1] == s.drops[|s.drops| - 1];
    PruneKeyOrder(live[|live| - 1], input);
  }

  /** With every drop forgotten, the answer counts them all. */
  lemma {:induction false} ForgottenOutput(m: Manager, s: Stream, input: int)
    requires m.dropped != [] && m.base == Cut(s.offset - s.pruned)
    ensures InputAt(m, Cut(input), |m.dropped|, 0).0 == Some(Cut(input + s.offset - s.pruned - |m.dropped|))
  {
    hide Cut;
    var n := |m.dropped|;
    CutAdd(s.offset - s.pruned, 0 - n);
    BaseIsCut(Cut(m.base - n));
    CutSum(input, s.offset - s.pruned - n);
  }

  /** What is right counts the live drops below the input, not all of them. */
  lemma {:induction false} RightOutput(m: Manager, s: Stream, input: int)
    requires StandsFor(m, s) && InWindow(s, input) && !NoneAbove(s, input)
    ensures var c := CountBelow(Live(s), input);
            && StreamOutput(s, input) in {None, Some(Cut(input + s.offset - s.pruned - c))}
            && c < |Live(s)| <= HALF + 1
  {
    hide Cut;
    var live := Live(s);
    LiveOf(m, s);
    InputReach(m, s, input);
    CountSuffix(s.drops, s.pruned, input);
    CountSplits(live, input);
    hide CountBelow;
    assert live[|live| - 1] == s.drops[|s.drops| - 1] > input;
    AscendingSpan(live, |live| - 1);
  }

  /** Forgetting a drop above the input takes the output down with it. */
  lemma {:induction false} WrongWhenForgotten(m: Manager, s: Stream, input: int)
    requires StandsFor(m, s) && InWindow(s, input) && !NoneAbove(s, input)
    ensures m.dropped != []
    ensures InputAt(m, Cut(input), |m.dropped|, 0).0 != StreamOutput(s, input)
  {
    LiveSize(m, s);
    RightOutput(m, s, input);
    BaseOf(m, s);
    hide Cut, InputAt, StreamOutput, CountBelow, StandsFor, InWindow, NoneAbove, Live;
    ForgottenOutput(m, s, input);
    var c := CountBelow(Live(s), input);
    CutsDiffer(input + s.offset - s.pruned - c, |m.dropped| - c);
  }

  lemma {:induction false} BaseOf(m: Manager, s: Stream)
    requires StandsFor(m, s)
    ensures m.base == Cut(s.offset - s.pruned)
  {
  }

  lemma {:induction false} CutsDiffer(x: int, d: int)
    requires 0 < d < CIRCLE
    ensures Cut(x - d) != Cut(x)
  {
    CutApart(x - d, x);
    hide Cut;
  }

  /** Ascending integers grow at least as fast as their index. */
  lemma {:induction false} AscendingSpan(s: seq<int>, k: nat)
    requires Ascending(s) && k < |s|
    ensures s[k] - s[0] >= k
  {
    if k > 0 { AscendingSpan(s, k - 1); }
  }

  lemma {:induction false} SearchesEndInside(m: Manager, input: Num)
    ensures forall i: nat, j: nat :: Searched(m, input, i, j) ==> i <= |m.dropped| && j <= |m.dropped| - i
  {
  }

  /** Input is right, however its searches end, exactly when no drop waits above the input presented. Otherwise the
      pruning search may forget that drop too, because the comparison it uses wraps around. */
  lemma {:induction false} InputRightIff(m: Manager, s: Stream, input: int)
    requires StandsFor(m, s) && InWindow(s, input)
    ensures (forall i: nat, j: nat :: Searched(m, Cut(input), i, j) ==>
               InputAt(m, Cut(input), i, j).0 == StreamOutput(s, input))
       <==> NoneAbove(s, input)
  {
    MaxInputOf(m, s);
    hide StandsFor, InWindow, Boundary, InputAt, StreamOutput, StreamInput, Cut, PruneKey;
    assert forall i: nat, j: nat :: Searched(m, Cut(input), i, j) ==> i <= |m.dropped| && j <= |m.dropped| - i by {
      SearchesEndInside(m, Cut(input));
    }
    if NoneAbove(s, input) {
      forall i: nat, j: nat | Searched(m, Cut(input), i, j)
        ensures InputAt(m, Cut(input), i, j).0 == StreamOutput(s, input)
      {
        InputRight(m, s, input, i, j);
      }
    } else {
      AllForgotten(m, s, input);
      WrongWhenForgotten(m, s, input);
    }
  }

  /** 10 arrives, 13 is dropped, 11 arrives late: it is given the number of 10 again. */
  lemma {:induction false} LateInputRepeatsNumber()
    ensures var m := DropAt(Manager(0, 10, 10, []), 13, 0);
            && m.dropped == [13]
            && (forall i: nat, j: nat :: Searched(m, 11, i, j) ==> InputAt(m, 11, i, j).0 == Some(10))
            && Searched(m, 11, 1, 0)
  {
    var m := DropAt(Manager(0, 10, 10, []), 13, 0);
    BaseIsCut(10);
    BaseIsCut(11);
    BaseIsCut(13);
    hide Cut, PruneKey;
    PruneKeyOrder(13, 11);
    CutAdd(0 - 1, 0 - 0);
    CutAdd(0 - 1, 11);
    assert m.dropped == [13];
    assert forall i: nat :: Boundary([13], PruneKey(11), i) <==> i == 1;
  }

  // ----- Drop, Offset and Sync

  /** The stream after Drop: numbers that were already passed, or dropped before, are left alone. */
  function StreamDrop(s: Stream, input: int): Stream {
    if input <= s.top || input in s.drops then s else s.(drops := Insert(s.drops, input))
  }

  /** Put x behind the elements below it. */
  function Insert(s: seq<int>, x: int): (r: seq<int>)
    ensures |r| == |s| + 1
  {
    var n := CountBelow(s, x);
    s[..n] + [x] + s[n..]
  }

  /** A number to drop, within half the number circle of the highest input and of the oldest live drop. */
  predicate DropInWindow(s: Stream, input: int)
    requires s.pruned <= |s.drops|
  {
    && s.top - HALF <= input <= s.top + HALF
    && (input > s.top && Live(s) != [] ==> input - Live(s)[0] <= HALF)
  }

  lemma {:induction false} HigherIsAbove(a: int, b: int)
    requires -HALF <= a - b <= HALF
    ensures SeqHigher(Cut(a), Cut(b)) <==> a > b
  {
    LowerIsBelow(b, a);
    OrderTrichotomy(Cut(a), Cut(b), HALF);
  }

  lemma {:induction false} InsertAscending(s: seq<int>, x: int)
    requires Ascending(s) && x !in s
    ensures Ascending(Insert(s, x))
  {
    CountSplits(s, x);
    hide CountBelow;
  }

  lemma {:induction false} InsertPlaced(s: seq<int>, x: int, pruned: nat, limit: int)
    requires pruned <= CountBelow(s, x) && limit <= x && Placed(s, pruned, limit)
    ensures var t, n := Insert(s, x), CountBelow(s, x);
            && Placed(t, pruned, limit)
            && t[pruned] == (if n == pruned then x else s[pruned])
            && t[|t| - 1] == (if n == |s| then x else s[|s| - 1])
  {
    hide CountBelow;
  }

  /** What StreamOk asks of the ends of the list, once `input` has been put into it. */
  lemma {:induction false} EndsAfterDrop(s: Stream, input: int)
    requires StreamOk(s) && DropInWindow(s, input) && input > s.top
    ensures input >= s.high - HALF
    ensures s.drops != [] ==> s.drops[|s.drops| - 1] <= s.top + HALF && s.drops[|s.drops| - 1] - input <= HALF
    ensures input <= s.top + HALF
    ensures s.pruned < |s.drops| ==> input - s.drops[s.pruned] <= HALF
    ensures forall i :: 0 <= i < s.pruned ==> s.drops[i] < input
  {
    hide Ascending;
  }

  /** Dropping keeps the stream in order. */
  lemma {:induction false} DropOk(s: Stream, input: int)
    requires StreamOk(s) && DropInWindow(s, input) && input > s.top && input !in s.drops
    ensures StreamOk(StreamDrop(s, input))
    ensures CountBelow(s.drops, input) == s.pruned + CountBelow(Live(s), input)
  {
    EndsAfterDrop(s, input);
    CountSuffix(s.drops, s.pruned, input);
    StreamParts(s);
    hide CountBelow, Ascending, Placed, Insert, DropInWindow, HALF, StreamOk;
    InsertAscending(s.drops, input);
    InsertPlaced(s.drops, input, s.pruned, s.high - HALF);
    StreamWhole(s, input);
  }

  lemma {:induction false} StreamParts(s: Stream)
    requires StreamOk(s)
    ensures s.pruned <= |s.drops| && Ascending(s.drops) && Placed(s.drops, s.pruned, s.high - HALF)
    ensures s.top <= s.high <= s.top + HALF
    ensures s.pruned < |s.drops| ==> s.drops[|s.drops| - 1] - s.drops[s.pruned] <= HALF
  {
  }

  lemma {:induction false} StreamWhole(s: Stream, input: int)
    requires s.pruned <= |s.drops| && s.top <= s.high <= s.top + HALF && s.top < input <= s.top + HALF
    requires s.drops != [] ==> s.drops[|s.drops| - 1] <= s.top + HALF && s.drops[|s.drops| - 1] - input <= HALF
    requires s.pruned < |s.drops| ==> s.drops[|s.drops| - 1] - s.drops[s.pruned] <= HALF
    requires s.pruned < |s.drops| ==> input - s.drops[s.pruned] <= HALF
    requires input !in s.drops && Ascending(Insert(s.drops, input))
    requires var t, n := Insert(s.drops, input), CountBelow(s.drops, input);
             && s.pruned <= n <= |s.drops|
             && Placed(t, s.pruned, s.high - HALF)
             && t[s.pruned] == (if n == s.pruned then input else s.drops[s.pruned])
             && t[|t| - 1] == (if n == |s.drops| then input else s.drops[|s.drops| - 1])
    ensures StreamOk(StreamDrop(s, input))
  {
    hide CountBelow, Ascending, Placed, Insert, HALF;
  }

  lemma {:induction false} DropSearch(m: Manager, s: Stream, input: int, i: nat)
    requires StandsFor(m, s) && DropInWindow(s, input) && input > s.top
    ensures Boundary(m.dropped, Cut(input), i) <==> i == CountBelow(Live(s), input)
    ensures Boundary(m.dropped, Cut(input), i) && i < |m.dropped| ==>
              (SeqLower(Cut(input), m.dropped[i]) <==> input !in Live(s))
    ensures Boundary(m.dropped, Cut(input), i) && i == |m.dropped| ==> input !in Live(s)
  {
    hide Cut, SeqLower, Boundary, CountBelow;
    var live := Live(s);
    LiveAscends(s);
    forall k | 0 <= k < |live| ensures input - HALF <= live[k] <= input + HALF {
      assert live[k] == s.drops[s.pruned + k];
      assert live[0] == s.drops[s.pruned];
    }
    CountSearch(live, m.dropped, input, i);
    CountSplits(live, input);
    if Boundary(m.dropped, Cut(input), i) && i < |m.dropped| {
      LowerIsBelow(input, live[i]);
    }
  }

  lemma {:induction false} DropEncodes(m: Manager, s: Stream, input: int, i: nat)
    requires StreamOk(s) && Encodes(m, s) && input > s.top && input !in s.drops
    requires i <= |m.dropped| && CountBelow(s.drops, input) == s.pruned + i
    ensures var t := StreamDrop(s, input);
            && t.pruned <= |t.drops|
            && Encodes(m.(dropped := m.dropped[..i] + [Cut(input)] + m.dropped[i..]), t)
  {
    hide Cut, CountBelow, StreamOk;
    PrunedFits(s);
    var t := StreamDrop(s, input);
    assert Live(t) == Live(s)[..i] + [input] + Live(s)[i..];
  }

  lemma {:induction false} PrunedFits(s: Stream)
    requires StreamOk(s)
    ensures s.pruned <= |s.drops|
  {
  }

  lemma {:induction false} ForgottenPassed(s: Stream, input: int)
    requires StreamOk(s) && input > s.top
    ensures input in s.drops <==> input in Live(s)
  {
    if input in s.drops {
      var k :| 0 <= k < |s.drops| && s.drops[k] == input;
      assert Live(s)[k - s.pruned] == input;
    }
  }

  /** Drop marks exactly the numbers higher than any processed one, each once, in order. */
  lemma {:induction false} DropRight(m: Manager, s: Stream, input: int, i: nat)
    requires StandsFor(m, s) && DropInWindow(s, input) && Boundary(m.dropped, Cut(input), i)
    ensures StandsFor(DropAt(m, Cut(input), i), StreamDrop(s, input))
  {
    hide Cut, SeqLower, SeqHigher, Boundary, CountBelow, Encodes, StreamOk, DropInWindow;
    MaxInputOf(m, s);
    DropReach(s, input);
    HigherIsAbove(input, s.top);
    if input > s.top {
      LiveOf(m, s);
      LiveSize(m, s);
      DropSearch(m, s, input, i);
      ForgottenPassed(s, input);
      if input !in s.drops {
        DropOk(s, input);
        DropEncodes(m, s, input, i);
      }
    }
  }

  lemma {:induction false} DropReach(s: Stream, input: int)
    requires s.pruned <= |s.drops| && DropInWindow(s, input)
    ensures -HALF <= input - s.top <= HALF
  {
  }

  lemma {:induction false} MaxInputOf(m: Manager, s: Stream)
    requires StandsFor(m, s)
    ensures m.maxInput == Cut(s.top) && s.pruned <= |s.drops|
  {
  }

  function StreamOffset(s: Stream, offset: int): Stream {
    s.(offset := s.offset + offset)
  }

  lemma {:induction false} OffsetRight(m: Manager, s: Stream, offset: int)
    requires StandsFor(m, s)
    ensures StandsFor(Offset(m, Cut(offset)), StreamOffset(s, offset))
  {
    CutSum(s.offset - s.pruned, offset);
    hide Cut;
  }

  /** After Sync the given input gets the highest output so far. */
  function StreamSync(s: Stream, input: int): Stream {
    Stream(s.maxOut - input, [], 0, input, input, s.maxOut)
  }

  lemma {:induction false} SyncRight(m: Manager, s: Stream, input: int)
    requires StandsFor(m, s)
    ensures StandsFor(Sync(m, Cut(input)), StreamSync(s, input))
    ensures StreamOutput(StreamSync(s, input), input) == Some(m.maxOutput)
    ensures StreamSync(s, input).drops == [] && StreamSync(s, input).top == StreamSync(s, input).high == input
    ensures forall x :: Renumber(StreamSync(s, input), x) == s.maxOut + (x - input)
  {
    CutDifference(s.maxOut, input);
    hide Cut;
  }

  // ----- the maxima

  /** What an input that was not dropped leaves behind: the highest input and the highest output so far, except that a
      step ahead of exactly half the circle or more does not count. Dropped ones leave both as they were. */
  lemma {:induction false} MaximaKept(s: Stream, input: int)
    ensures CIRCLE == 2 * HALF + 2 && CIRCLE in {0x100, 0x1_0000, 0x1_0000_0000}
    ensures input in s.drops ==> StreamInput(s, input).top == s.top && StreamInput(s, input).maxOut == s.maxOut
    ensures input !in s.drops && input - s.top < HALF ==> StreamInput(s, input).top == Max(s.top, input)
    ensures input !in s.drops && input - s.top >= HALF ==> StreamInput(s, input).top == s.top
    ensures var out := Renumber(s, input);
            && (input !in s.drops && HALF - CIRCLE <= out - s.maxOut < HALF ==>
                  StreamInput(s, input).maxOut == Max(s.maxOut, out))
            && (input !in s.drops && HALF <= out - s.maxOut < CIRCLE ==> StreamInput(s, input).maxOut == s.maxOut)
    ensures StreamInput(s, input).drops == s.drops && StreamInput(s, input).offset == s.offset
  {
    var out := Renumber(s, input);
    hide Renumber, Cut;
    RaiseExactly(s.maxOut, out);
  }

  lemma {:induction false} RaiseExactly(maxOut: int, out: int)
    ensures HALF - CIRCLE <= out - maxOut < HALF ==> RaiseOutput(maxOut, out) == Max(maxOut, out)
    ensures HALF <= out - maxOut < CIRCLE ==> RaiseOutput(maxOut, out) == maxOut
  {
  }

  // ----- runs

  datatype Op = Input(number: int) | Drop(number: int) | Shift(amount: int) | Resync(number: int)

  /** Whether the two searches of the operation can end on `c`. */
  predicate Legal(m: Manager, op: Op, c: (nat, nat)) {
    match op
    case Input(n) => Searched(m, Cut(n), c.0, c.1)
    case Drop(n) => Boundary(m.dropped, Cut(n), c.0)
    case _ => true
  }

  function Step(m: Manager, op: Op, c: (nat, nat)): Manager
    requires Legal(m, op, c)
  {
    match op
    case Input(n) => InputAt(m, Cut(n), c.0, c.1).1
    case Drop(n) => DropAt(m, Cut(n), c.0)
    case Shift(k) => Offset(m, Cut(k))
    case Resync(n) => Sync(m, Cut(n))
  }

  /** The answers to the calls of Input. */
  function StepOutput(m: Manager, op: Op, c: (nat, nat)): seq<Option<Num>>
    requires Legal(m, op, c)
  {
    if op.Input? then [InputAt(m, Cut(op.number), c.0, c.1).0] else []
  }

  predicate AllLegal(m: Manager, ops: seq<Op>, cs: seq<(nat, nat)>)
    decreases |ops|
  {
    |cs| == |ops| && (ops == [] || (Legal(m, ops[0], cs[0]) && AllLegal(Step(m, ops[0], cs[0]), ops[1..], cs[1..])))
  }

  function Outputs(m: Manager, ops: seq<Op>, cs: seq<(nat, nat)>): seq<Option<Num>>
    requires AllLegal(m, ops, cs)
    decreases |ops|
  {
    if ops == [] then []
    else StepOutput(m, ops[0], cs[0]) + Outputs(Step(m, ops[0], cs[0]), ops[1..], cs[1..])
  }

  function StreamStep(s: Stream, op: Op): Stream {
    match op
    case Input(n) => StreamInput(s, n)
    case Drop(n) => StreamDrop(s, n)
    case Shift(k) => StreamOffset(s, k)
    case Resync(n) => StreamSync(s, n)
  }

  function StreamOutputs(s: Stream, ops: seq<Op>): seq<Option<Num>>
    decreases |ops|
  {
    if ops == [] then []
    else
      (if ops[0].Input? then [StreamOutput(s, ops[0].number)] else []) + StreamOutputs(StreamStep(s, ops[0]), ops[1..])
  }

  /** Numbers stay within half the number circle. */
  predicate Windowed(s: Stream, op: Op) {
    s.pruned <= |s.drops| &&
    match op
    case Input(n) => InWindow(s, n)
    case Drop(n) => DropInWindow(s, n)
    case _ => true
  }

  predicate AllWindowed(s: Stream, ops: seq<Op>)
    decreases |ops|
  {
    ops == [] || (Windowed(s, ops[0]) && AllWindowed(StreamStep(s, ops[0]), ops[1..]))
  }

  /** And no drop waits above an input. */
  predicate OpOk(s: Stream, op: Op) {
    Windowed(s, op) && (op.Input? ==> NoneAbove(s, op.number))
  }

  predicate OpsOk(s: Stream, ops: seq<Op>)
    decreases |ops|
  {
    ops == [] || (OpOk(s, ops[0]) && OpsOk(StreamStep(s, ops[0]), ops[1..]))
  }

  lemma {:induction false} StepRight(m: Manager, s: Stream, op: Op, c: (nat, nat))
    requires StandsFor(m, s) && OpOk(s, op) && Legal(m, op, c)
    ensures StandsFor(Step(m, op, c), StreamStep(s, op))
    ensures op.Input? ==> StepOutput(m, op, c) == [StreamOutput(s, op.number)]
  {
    hide StandsFor, InWindow, NoneAbove, DropInWindow, InputAt, DropAt, Searched, Boundary, StreamInput, StreamDrop;
    match op
    case Input(n) => InputRight(m, s, n, c.0, c.1);
    case Drop(n) => DropRight(m, s, n, c.0);
    case Shift(k) => OffsetRight(m, s, k);
    case Resync(n) => SyncRight(m, s, n);
  }

  /** Over every run, however each tree search ends, the manager answers what unbounded renumbering answers. */
  lemma {:induction false} RunsRight(m: Manager, s: Stream, ops: seq<Op>, cs: seq<(nat, nat)>)
    requires StandsFor(m, s) && OpsOk(s, ops) && AllLegal(m, ops, cs)
    ensures Outputs(m, ops, cs) == StreamOutputs(s, ops)
    decreases |ops|
  {
    hide StandsFor, OpOk, Step, StreamStep, StreamOutput, Legal;
    if ops != [] {
      StepRight(m, s, ops[0], cs[0]);
      RunsRight(Step(m, ops[0], cs[0]), StreamStep(s, ops[0]), ops[1..], cs[1..]);
    }
  }

  // ----- what the numbering is for

  lemma {:induction false} CountNext(s: seq<int>, x: int)
    requires Ascending(s)
    ensures CountBelow(s, x + 1) == CountBelow(s, x) + (if x in s then 1 else 0)
  {
    if s != [] {
      var init, last := s[..|s| - 1], s[|s| - 1];
      CountNext(init, x);
      assert x in s <==> x in init || x == last by { assert s == init + [last]; }
      assert last == x ==> x !in init;
    }
  }

  lemma {:induction false} RenumberNext(s: Stream, x: int)
    requires Ascending(s.drops)
    ensures Renumber(s, x + 1) == Renumber(s, x) + (if x in s.drops then 0 else 1)
  {
    CountNext(s.drops, x);
    hide CountBelow;
  }

  /** Inputs keep their order under renumbering, and two of them become neighbours exactly when everything in between
      was dropped. */
  lemma {:induction false} RenumberClosesUp(s: Stream, a: int, b: int)
    requires Ascending(s.drops) && a < b && a !in s.drops
    ensures Renumber(s, a) < Renumber(s, b)
    ensures Renumber(s, b) == Renumber(s, a) + 1 <==> forall d :: a < d < b ==> d in s.drops
    decreases b - a
  {
    hide Renumber, Ascending;
    RenumberNext(s, b - 1);
    if a < b - 1 {
      RenumberClosesUp(s, a, b - 1);
    }
  }

  /** A stream in which every number from `next` on is either passed on or dropped, in order. */
  predicate InOrder(ops: seq<Op>, next: int)
    decreases |ops|
  {
    ops == [] || ((ops[0].Input? || ops[0].Drop?) && ops[0].number == next && InOrder(ops[1..], next + 1))
  }

  /** One step of an in-order stream. */
  lemma {:induction false} InOrderStep(s: Stream, op: Op, next: int)
    requires (op.Input? || op.Drop?) && op.number == next && Ascending(s.drops)
    requires s.top < next && forall i :: 0 <= i < |s.drops| ==> s.drops[i] < next
    ensures var t := StreamStep(s, op);
            && t.offset == s.offset && t.top <= next
            && t.drops == (if op.Drop? then s.drops + [next] else s.drops)
    ensures op.Input? ==> StreamOutput(s, next) == Some(Cut(next + s.offset - |s.drops|))
  {
    CountAll(s.drops, next);
    hide CountBelow, Cut, RaiseOutput;
    assert Insert(s.drops, next) == s.drops + [next];
  }

  /** Consecutive answers, none of them a refusal. */
  predicate ConsecutiveFrom(outs: seq<Option<Num>>, first: int) {
    forall r :: 0 <= r < |outs| ==> outs[r] == Some(Cut(first + r))
  }

  lemma {:induction false} ConsecutiveCons(out: Option<Num>, outs: seq<Option<Num>>, first: int)
    requires out == Some(Cut(first)) && ConsecutiveFrom(outs, first + 1)
    ensures ConsecutiveFrom([out] + outs, first)
  {
    hide Cut;
    forall r | 0 <= r < |outs| + 1 ensures ([out] + outs)[r] == Some(Cut(first + r)) {
      if r > 0 { assert outs[r - 1] == Some(Cut(first + 1 + (r - 1))); }
    }
  }

  /** An in-order stream comes out with consecutive numbers, whatever is dropped from it. */
  lemma {:induction false} InOrderIsConsecutive(s: Stream, ops: seq<Op>, next: int)
    requires InOrder(ops, next) && Ascending(s.drops)
    requires s.top < next && forall i :: 0 <= i < |s.drops| ==> s.drops[i] < next
    ensures ConsecutiveFrom(StreamOutputs(s, ops), next + s.offset - |s.drops|)
    decreases |ops|
  {
    hide Cut, StreamStep, StreamOutput, ConsecutiveFrom;
    if ops == [] {
      NothingConsecutive(next + s.offset - |s.drops|);
    } else {
      var op, t := ops[0], StreamStep(s, ops[0]);
      InOrderStep(s, op, next);
      InOrderIsConsecutive(t, ops[1..], next + 1);
      var rest := StreamOutputs(t, ops[1..]);
      if op.Input? {
        assert StreamOutputs(s, ops) == [StreamOutput(s, next)] + rest;
        ConsecutiveCons(StreamOutput(s, next), rest, next + s.offset - |s.drops|);
      } else {
        assert StreamOutputs(s, ops) == rest;
      }
    }
  }

  lemma {:induction false} NothingConsecutive(first: int)
    ensures ConsecutiveFrom([], first)
  {
  }

  lemma {:induction false} InOrderNoneAbove(s: Stream, ops: seq<Op>, next: int)
    requires InOrder(ops, next) && AllWindowed(s, ops) && Ascending(s.drops)
    requires s.top < next && forall i :: 0 <= i < |s.drops| ==> s.drops[i] < next
    ensures OpsOk(s, ops)
    decreases |ops|
  {
    hide Windowed, StreamStep;
    if ops != [] {
      InOrderStep(s, ops[0], next);
      WindowedPruned(s, ops[0]);
      InOrderNoneAbove(StreamStep(s, ops[0]), ops[1..], next + 1);
    }
  }

  lemma {:induction false} WindowedPruned(s: Stream, op: Op)
    requires Windowed(s, op)
    ensures s.pruned <= |s.drops|
  {
  }

  /** The manager, fed an in-order stream whose drops fit half the number circle, numbers what is left
      consecutively. */
  lemma {:induction false} InOrderStream(m: Manager, s: Stream, ops: seq<Op>, cs: seq<(nat, nat)>, next: int)
    requires StandsFor(m, s) && AllLegal(m, ops, cs) && InOrder(ops, next) && AllWindowed(s, ops)
    requires s.top < next && forall i :: 0 <= i < |s.drops| ==> s.drops[i] < next
    ensures ConsecutiveFrom(Outputs(m, ops, cs), next + s.offset - |s.drops|)
  {
    hide Cut, AllLegal, AllWindowed, InOrder, ConsecutiveFrom, Outputs, StreamOutputs, OpsOk;
    LiveOf(m, s);
    InOrderNoneAbove(s, ops, next);
    RunsRight(m, s, ops, cs);
    InOrderIsConsecutive(s, ops, next);
  }
}
