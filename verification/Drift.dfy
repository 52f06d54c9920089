/** Template-rate drift detection, ulpf/ml/drift.py, over exact reals. The z-score's square root
    is avoided by comparing squares. */
module Drift {
  import opened Core

  datatype Key = Key(sourceId: string, templateId: string)

  datatype Config = Config(zThreshold: real, alpha: real, warmupWindows: int, freezeOnSignal: bool)

  /** What the constructor accepts; warm-up is raised to at least one window. */
  predicate ValidConfig(c: Config) {
    0.0 < c.alpha <= 1.0 && c.zThreshold > 0.0 && c.warmupWindows >= 1
  }

  datatype Direction = Spike | Drop

  datatype Signal = Signal(key: Key, template: string, baselineRate: real, currentRate: real, zSquared: real,
                           direction: Direction, observed: int, expected: real, windowMinutes: real,
                           sampleLines: seq<string>)

  datatype DriftError = BadWindow

  /** The four dictionaries. */
  datatype State = State(baseline: map<Key, real>, windows: map<Key, int>,
                         templates: map<Key, string>, samples: map<Key, seq<string>>)

  datatype Input = Input(window: real, counts: map<Key, int>, templates: map<Key, string>, samples: map<Key, seq<string>>)

  // ----- scoring -----

  /** Windows are positive wherever this is used; the code refuses others. */
  function Rate(observed: int, window: real): real {
    if window == 0.0 then 0.0 else observed as real / window
  }

  function Expected(baseline: real, window: real): real {
    baseline * window
  }

  /** The squared Poisson z-score. */
  function ZSquared(observed: int, expected: real): real {
    if expected == 0.0 then 0.0 else (observed as real - expected) * (observed as real - expected) / expected
  }

  function Blend(alpha: real, rate: real, baseline: real): real {
    alpha * rate + (1.0 - alpha) * baseline
  }

  /** Does `|observed - expected| / sqrt(expected)` reach the threshold? */
  function Deviates(c: Config, observed: int, expected: real): Option<Direction> {
    if expected <= 0.0 then None
    else if ZSquared(observed, expected) < c.zThreshold * c.zThreshold then None
    else Some(if observed as real > expected then Spike else Drop)
  }

  datatype KeyState = KeyState(baseline: real, windows: int)

  function Verdict(c: Config, k: Option<KeyState>, window: real, observed: int): Option<Direction> {
    if k.Some? && k.value.windows >= c.warmupWindows
    then Deviates(c, observed, Expected(k.value.baseline, window)) else None
  }

  function NextKey(c: Config, k: Option<KeyState>, window: real, observed: int): KeyState {
    if k.None? then KeyState(Rate(observed, window), 1)
    else if Verdict(c, k, window, observed).Some? && c.freezeOnSignal then k.value
    else KeyState(Blend(c.alpha, Rate(observed, window), k.value.baseline), k.value.windows + 1)
  }

  // ----- specification, one key of the dictionaries at a time -----

  /** Everything the detector holds about one template. */
  datatype Data = Data(state: Option<KeyState>, template: Option<string>, samples: Option<seq<string>>)

  function Lookup<V>(m: map<Key, V>, k: Key): Option<V> {
    if k in m then Some(m[k]) else None
  }

  function Get<V>(m: map<Key, V>, k: Key, default: V): V {
    if k in m then m[k] else default
  }

  function OrElse<V>(o: Option<V>, default: V): V {
    if o.Some? then o.value else default
  }

  function DataOf(s: State, k: Key): Data {
    Data(if k in s.baseline then Some(KeyState(s.baseline[k], Get(s.windows, k, 0))) else None,
         Lookup(s.templates, k), Lookup(s.samples, k))
  }

  /** The keys a window evaluates: every template seen so far and every one that occurs. */
  predicate Evaluated(s: State, i: Input, k: Key) {
    k in s.baseline || k in i.counts
  }

  function Count(i: Input, k: Key): int {
    Get(i.counts, k, 0)
  }

  function Refreshed(d: Data, i: Input, k: Key): Data {
    d.(template := if k in i.templates then Some(i.templates[k]) else d.template,
       samples := if Get(i.samples, k, []) != [] then Some(i.samples[k]) else d.samples)
  }

  function NextData(c: Config, d: Data, i: Input, k: Key): Data {
    Refreshed(d, i, k).(state := Some(NextKey(c, d.state, i.window, Count(i, k))))
  }

  function MakeSignal(k: Key, d: Data, baseline: real, window: real, observed: int, direction: Direction): Signal {
    var expected := Expected(baseline, window);
    Signal(k, OrElse(d.template, ""), baseline, Rate(observed, window), ZSquared(observed, expected), direction,
           observed, expected, window, OrElse(d.samples, []))
  }

  function SignalFor(c: Config, d: Data, i: Input, k: Key): Option<Signal> {
    var direction := Verdict(c, d.state, i.window, Count(i, k));
    if direction.None? then None
    else Some(MakeSignal(k, Refreshed(d, i, k), d.state.value.baseline, i.window, Count(i, k), direction.value))
  }

  /** t is s after the keys of `all` that are not `left` have been updated. */
  ghost predicate IsPartial(c: Config, s: State, i: Input, all: set<Key>, left: set<Key>, t: State) {
    forall k :: DataOf(t, k) == if k in all && k !in left then NextData(c, DataOf(s, k), i, k) else DataOf(s, k)
  }

  ghost predicate IsUpdate(c: Config, s: State, i: Input, t: State) {
    forall k :: DataOf(t, k) == if Evaluated(s, i, k) then NextData(c, DataOf(s, k), i, k) else DataOf(s, k)
  }

  ghost predicate AreSignals(c: Config, s: State, i: Input, all: set<Key>, left: set<Key>, signals: map<Key, Signal>) {
    forall k :: Lookup(signals, k) == if k in all && k !in left then SignalFor(c, DataOf(s, k), i, k) else None
  }

  lemma PartialStep(c: Config, s: State, i: Input, all: set<Key>, left: set<Key>, k: Key, before: State, after: State)
    requires IsPartial(c, s, i, all, left, before) && k in left && k in all
    requires DataOf(after, k) == NextData(c, DataOf(before, k), i, k)
    requires forall x :: x != k ==> DataOf(after, x) == DataOf(before, x)
    ensures IsPartial(c, s, i, all, left - {k}, after)
  {
    forall x
      ensures DataOf(after, x) == if x in all && x !in left - {k} then NextData(c, DataOf(s, x), i, x) else DataOf(s, x)
    {
      assert DataOf(before, x) == if x in all && x !in left then NextData(c, DataOf(s, x), i, x) else DataOf(s, x);
    }
  }

  lemma UpdateComplete(c: Config, s: State, i: Input, all: set<Key>, t: State)
    requires IsPartial(c, s, i, all, {}, t) && all == s.baseline.Keys + i.counts.Keys
    ensures IsUpdate(c, s, i, t)
  {
    forall k
      ensures DataOf(t, k) == if Evaluated(s, i, k) then NextData(c, DataOf(s, k), i, k) else DataOf(s, k)
    {
      assert k in all <==> Evaluated(s, i, k);
      assert DataOf(t, k) == if k in all then NextData(c, DataOf(s, k), i, k) else DataOf(s, k);
    }
  }

  lemma SignalsStep(c: Config, s: State, i: Input, all: set<Key>, left: set<Key>, k: Key,
                    signals: map<Key, Signal>, signal: Option<Signal>)
    requires AreSignals(c, s, i, all, left, signals) && k in left && k in all
    requires signal == SignalFor(c, DataOf(s, k), i, k)
    ensures AreSignals(c, s, i, all, left - {k}, if signal.Some? then signals[k := signal.value] else signals)
  {
    var more := if signal.Some? then signals[k := signal.value] else signals;
    forall x
      ensures Lookup(more, x) == if x in all && x !in left - {k} then SignalFor(c, DataOf(s, x), i, x) else None
    {
      assert Lookup(signals, x) == if x in all && x !in left then SignalFor(c, DataOf(s, x), i, x) else None;
    }
  }

  // ----- the detector -----

  class TemplateDriftDetector {
    const config: Config
    var baseline: map<Key, real>
    var windows: map<Key, int>
    var templates: map<Key, string>
    var samples: map<Key, seq<string>>

    ghost function Dictionaries(): State
      reads this
    {
      State(baseline, windows, templates, samples)
    }

    constructor (zThreshold: real, alpha: real, warmupWindows: int, freezeOnSignal: bool)
      requires 0.0 < alpha <= 1.0 && zThreshold > 0.0
      ensures ValidConfig(config) && Dictionaries() == EMPTY
      ensures config == Config(zThreshold, alpha, if warmupWindows > 1 then warmupWindows else 1, freezeOnSignal)
    {
      config := Config(zThreshold, alpha, if warmupWindows > 1 then warmupWindows else 1, freezeOnSignal);
      baseline, windows, templates, samples := map[], map[], map[], map[];
    }

    /** Rebuilds a detector from persisted state, which it would persist again unchanged. */
    constructor FromSnapshot(saved: Snapshot)
      requires 0.0 < saved.params.alpha <= 1.0 && saved.params.zThreshold > 0.0
      ensures ValidConfig(config) && Dictionaries() == Restore(saved)
      ensures ValidConfig(saved.params) ==> config == saved.params && SnapshotOf(config, Dictionaries()) == saved
    {
      SnapshotOfRestored(saved);
      config := saved.params.(warmupWindows := if saved.params.warmupWindows > 1 then saved.params.warmupWindows else 1);
      baseline := map k | k in saved.templates :: saved.templates[k].baselineRate;
      windows := map k | k in saved.templates :: saved.templates[k].windows;
      templates := map k | k in saved.templates && saved.templates[k].template != "" :: saved.templates[k].template;
      samples := map k | k in saved.templates && saved.templates[k].sampleLines != [] :: saved.templates[k].sampleLines;
    }

    /** Scores one window and folds it into the baselines; signals are keyed by template. */
    method UpdateWindow(i: Input) returns (r: Result<map<Key, Signal>, DriftError>)
      modifies this
      ensures i.window <= 0.0 ==> r == Err(BadWindow) && Dictionaries() == old(Dictionaries())
      ensures i.window > 0.0 ==>
        && IsUpdate(config, old(Dictionaries()), i, Dictionaries())
        && r.Ok?
        && AreSignals(config, old(Dictionaries()), i, old(baseline.Keys) + i.counts.Keys, {}, r.value)
    {
      if i.window <= 0.0 {
        return Err(BadWindow);
      }
      ghost var s := Dictionaries();
      var keys := baseline.Keys + i.counts.Keys;
      var signals := EvaluateAll(i, keys);
      UpdateComplete(config, s, i, keys, Dictionaries());
      return Ok(signals);
    }

    method EvaluateAll(i: Input, all: set<Key>) returns (signals: map<Key, Signal>)
      modifies this
      ensures IsPartial(config, old(Dictionaries()), i, all, {}, Dictionaries())
      ensures AreSignals(config, old(Dictionaries()), i, all, {}, signals)
    {
      ghost var s := Dictionaries();
      var left := all;
      signals := map[];
      while left != {}
        invariant left <= all
        invariant IsPartial(config, s, i, all, left, Dictionaries())
        invariant AreSignals(config, s, i, all, left, signals)
        decreases |left|
      {
        var key :| key in left;
        signals := EvaluateNext(i, key, signals, s, all, left);
        left := left - {key};
      }
    }

    method EvaluateNext(i: Input, key: Key, signals: map<Key, Signal>, ghost s: State, ghost all: set<Key>, ghost left: set<Key>)
      returns (more: map<Key, Signal>)
      requires key in left && key in all
      requires IsPartial(config, s, i, all, left, Dictionaries()) && AreSignals(config, s, i, all, left, signals)
      modifies this
      ensures IsPartial(config, s, i, all, left - {key}, Dictionaries())
      ensures AreSignals(config, s, i, all, left - {key}, more)
    {
      ghost var before := Dictionaries();
      assert DataOf(before, key) == DataOf(s, key);
      var signal := Evaluate(i, key);
      PartialStep(config, s, i, all, left, key, before, Dictionaries());
      SignalsStep(config, s, i, all, left, key, signals, signal);
      more := if signal.Some? then signals[key := signal.value] else signals;
    }

    /** One key of the loop. */
    method Evaluate(i: Input, key: Key) returns (signal: Option<Signal>)
      modifies this
      ensures signal == SignalFor(config, old(DataOf(Dictionaries(), key)), i, key)
      ensures DataOf(Dictionaries(), key) == NextData(config, old(DataOf(Dictionaries(), key)), i, key)
      ensures forall k :: k != key ==> DataOf(Dictionaries(), k) == old(DataOf(Dictionaries(), k))
    {
      if key in i.templates {
        templates := templates[key := i.templates[key]];
      }
      if Get(i.samples, key, []) != [] {
        samples := samples[key := i.samples[key]];
      }
      ghost var d := DataOf(Dictionaries(), key);
      assert d == Refreshed(old(DataOf(Dictionaries(), key)), i, key);
      signal := Fold(i, key);
    }

    method Fold(i: Input, key: Key) returns (signal: Option<Signal>)
      modifies this`baseline, this`windows
      ensures var d := old(DataOf(Dictionaries(), key));
        && DataOf(Dictionaries(), key) == d.(state := Some(NextKey(config, d.state, i.window, Count(i, key))))
        && var direction := Verdict(config, d.state, i.window, Count(i, key));
        signal == if direction.None? then None
          else Some(MakeSignal(key, d, d.state.value.baseline, i.window, Count(i, key), direction.value))
      ensures forall k :: k != key ==>
        && (k in baseline <==> k in old(baseline)) && (k in baseline ==> baseline[k] == old(baseline)[k])
        && Get(windows, k, 0) == Get(old(windows), k, 0)
    {
      var observed := Count(i, key);
      var rate := Rate(observed, i.window);
      if key !in baseline {
        baseline := baseline[key := rate];
        windows := windows[key := 1];
        return None;
      }
      var before := baseline[key];
      var seen := Get(windows, key, 0);
      signal := None;
      if seen >= config.warmupWindows {
        signal := Score(key, i.window, observed, before);
      }
      if !(signal.Some? && config.freezeOnSignal) {
        baseline := baseline[key := Blend(config.alpha, rate, before)];
        windows := windows[key := seen + 1];
      }
    }

    method Score(key: Key, window: real, observed: int, before: real) returns (signal: Option<Signal>)
      ensures var direction := Deviates(config, observed, Expected(before, window));
        signal == if direction.None? then None
          else Some(MakeSignal(key, DataOf(Dictionaries(), key), before, window, observed, direction.value))
    {
      var expected := Expected(before, window);
      if expected <= 0.0 {
        return None;
      }
      if ZSquared(observed, expected) < config.zThreshold * config.zThreshold {
        return None;
      }
      return Some(Signal(key, Get(templates, key, ""), before, Rate(observed, window), ZSquared(observed, expected),
                         if observed as real > expected then Spike else Drop, observed, expected, window,
                         Get(samples, key, [])));
    }

    /** State to persist: restored, it holds the same data for every template with a baseline. */
    method TakeSnapshot() returns (saved: Snapshot)
      ensures saved == SnapshotOf(config, Dictionaries())
      ensures forall k :: k in baseline <==> k in Restore(saved).baseline
      ensures forall k :: k in baseline ==> SameData(DataOf(Dictionaries(), k), DataOf(Restore(saved), k))
    {
      forall k | k in baseline
        ensures SameData(DataOf(Dictionaries(), k), DataOf(Restore(SnapshotOf(config, Dictionaries())), k))
      {
        RestoreAt(config, Dictionaries(), k);
      }
      saved := Snapshot(config, map k | k in baseline ::
        Saved(baseline[k], Get(windows, k, 0), Get(templates, k, ""), Get(samples, k, [])));
    }
  }

  // ----- runs -----

  const EMPTY := State(map[], map[], map[], map[])

  ghost predicate IsRun(c: Config, states: seq<State>, inputs: seq<Input>) {
    && |states| == |inputs| + 1
    && forall j :: 0 <= j < |inputs| ==> inputs[j].window > 0.0 && IsUpdate(c, states[j], inputs[j], states[j + 1])
  }

  // ----- baselines stay among the rates seen -----

  /** Has the template occurred in one of the first n windows? */
  ghost predicate Seen(inputs: seq<Input>, n: nat, k: Key) {
    exists j :: 0 <= j < n && j < |inputs| && k in inputs[j].counts
  }

  lemma BlendBetween(alpha: real, rate: real, baseline: real, lo: real, hi: real)
    requires 0.0 < alpha <= 1.0 && lo <= rate <= hi && lo <= baseline <= hi
    ensures lo <= Blend(alpha, rate, baseline) <= hi
  {
    var beta := 1.0 - alpha;
    Scale(alpha, rate - lo);
    Scale(alpha, hi - rate);
    Scale(beta, baseline - lo);
    Scale(beta, hi - baseline);
    assert Blend(alpha, rate, baseline) - lo == alpha * (rate - lo) + beta * (baseline - lo);
    assert hi - Blend(alpha, rate, baseline) == alpha * (hi - rate) + beta * (hi - baseline);
  }

  lemma Scale(a: real, x: real)
    requires a >= 0.0 && x >= 0.0
    ensures a * x >= 0.0
  {}

  /** Every baseline lies between the least and the greatest rate seen since the template's first
      occurrence, signals and freezing included. */
  lemma {:induction false} BaselineBetweenRates(c: Config, states: seq<State>, inputs: seq<Input>, n: nat, k: Key, lo: real, hi: real)
    requires ValidConfig(c) && IsRun(c, states, inputs) && states[0] == EMPTY && n <= |inputs|
    requires forall j :: 0 <= j < n && Seen(inputs, j + 1, k) ==> lo <= Rate(Count(inputs[j], k), inputs[j].window) <= hi
    ensures k in states[n].baseline <==> Seen(inputs, n, k)
    ensures k in states[n].baseline ==> lo <= states[n].baseline[k] <= hi
  {
    if n > 0 {
      BaselineBetweenRates(c, states, inputs, n - 1, k, lo, hi);
      var s, i := states[n - 1], inputs[n - 1];
      assert DataOf(states[n], k) == if Evaluated(s, i, k) then NextData(c, DataOf(s, k), i, k) else DataOf(s, k);
      SeenStep(inputs, n, k);
      if k in s.baseline {
        assert Seen(inputs, n - 1 + 1, k);
        BlendBetween(c.alpha, Rate(Count(i, k), i.window), s.baseline[k], lo, hi);
      } else if k in i.counts {
        assert Seen(inputs, n - 1 + 1, k);
      }
    }
  }

  lemma SeenStep(inputs: seq<Input>, n: nat, k: Key)
    requires 0 < n <= |inputs|
    ensures Seen(inputs, n, k) <==> Seen(inputs, n - 1, k) || k in inputs[n - 1].counts
  {}

  // ----- the z-score -----

  function Abs(x: real): real {
    if x < 0.0 then -x else x
  }

  lemma Squares(x: real, y: real)
    requires x >= 0.0 && y > 0.0
    ensures x >= y <==> x * x >= y * y
  {
    if x >= y {
      assert x * x - y * y == (x - y) * (x + y);
      assert (x - y) * (x + y) >= 0.0;
    } else {
      assert y * y - x * x == (y - x) * (y + x);
      PositiveProduct(y - x, y + x);
    }
  }

  function Square(x: real): real {
    x * x
  }

  lemma SquarePositive(x: real)
    requires x > 0.0
    ensures Square(x) > 0.0
  {
    assert Square(x) / x == x;
  }

  lemma SquareOfProduct(a: real, b: real)
    ensures Square(a * b) == Square(a) * Square(b)
  {
    var p := a * b;
    assert p * p == (p * a) * b;
    assert p * a == a * a * b;
    assert (a * a * b) * b == (a * a) * (b * b);
  }

  lemma QuotientSquared(diff: real, root: real, square: real)
    requires root > 0.0 && square > 0.0 && square == Square(root)
    ensures Square(diff / root) == Square(diff) / square
  {
    hide Square;
    var z := diff / root;
    assert z * root == diff;
    SquareOfProduct(z, root);
    assert Square(z * root) == Square(diff);
    Divided(Square(z), square, Square(diff));
  }

  lemma Divided(a: real, b: real, c: real)
    requires b != 0.0 && a * b == c
    ensures c / b == a
  {}

  /** The test of the code, with the square root it takes: a count deviates exactly when the expected
      count is positive and |observed - expected| / sqrt(expected) reaches the threshold; it is a
      spike exactly when that z is positive. */
  lemma ScoreIsZTest(c: Config, observed: int, expected: real, root: real)
    requires c.zThreshold > 0.0 && root > 0.0 && Square(root) == expected
    ensures var z := (observed as real - expected) / root;
      && (Deviates(c, observed, expected).Some? <==> Abs(z) >= c.zThreshold)
      && (Deviates(c, observed, expected).Some? ==> (Deviates(c, observed, expected).value == Spike <==> z > 0.0))
  {
    var diff := observed as real - expected;
    var z := diff / root;
    SquarePositive(root);
    QuotientSquared(diff, root, expected);
    assert Square(z) == ZSquared(observed, expected);
    assert Abs(z) * Abs(z) == Square(z);
    Squares(Abs(z), c.zThreshold);
    assert z * root == diff;
    assert z > 0.0 <==> diff > 0.0;
  }

  /** When a signal is raised and what it reports. */
  lemma SignalSays(c: Config, d: Data, i: Input, k: Key)
    requires ValidConfig(c) && i.window > 0.0
    ensures var r, observed := SignalFor(c, d, i, k), Count(i, k) as real;
      && (r.Some? <==>
           && d.state.Some? && d.state.value.windows >= c.warmupWindows
           && var expected := d.state.value.baseline * i.window;
           expected > 0.0 && (observed - expected) * (observed - expected) / expected >= c.zThreshold * c.zThreshold)
      && (r.Some? ==>
           var s, expected := r.value, d.state.value.baseline * i.window;
           && s.key == k && s.windowMinutes == i.window && s.observed == Count(i, k)
           && s.baselineRate == d.state.value.baseline && s.expected == expected
           && s.currentRate == observed / i.window
           && s.zSquared == (observed - expected) * (observed - expected) / expected
           && (s.direction == Spike <==> observed > expected)
           && s.template == (if k in i.templates then i.templates[k] else OrElse(d.template, ""))
           && s.sampleLines == (if k in i.samples && i.samples[k] != [] then i.samples[k] else OrElse(d.samples, [])))
  {}

  /** What a window leaves behind: the first rate, the frozen baseline, or the moving average. */
  lemma WindowFolds(c: Config, d: Data, i: Input, k: Key, rate: real)
    requires i.window > 0.0 && rate * i.window == Count(i, k) as real
    ensures var next, fired := NextData(c, d, i, k).state, SignalFor(c, d, i, k).Some?;
      && next.Some?
      && (d.state.None? ==> next.value.baseline == rate && next.value.windows == 1)
      && (d.state.Some? && c.freezeOnSignal && fired ==> next == d.state)
      && (d.state.Some? && !(c.freezeOnSignal && fired) ==>
           && next.value.windows == d.state.value.windows + 1
           && next.value.baseline == c.alpha * rate + (1.0 - c.alpha) * d.state.value.baseline)
  {
    hide Blend, Rate;
    RateIs(Count(i, k), i.window, rate);
    if d.state.Some? {
      BlendIs(c.alpha, rate, d.state.value.baseline);
    }
  }

  lemma RateIs(observed: int, window: real, rate: real)
    requires window > 0.0 && rate * window == observed as real
    ensures Rate(observed, window) == rate
  {}

  lemma BlendIs(alpha: real, rate: real, baseline: real)
    ensures Blend(alpha, rate, baseline) == alpha * rate + (1.0 - alpha) * baseline
  {}

  /** A template that first occurs in window f is not judged before it has been seen for the warm-up windows,
      and is from then on. */
  lemma {:induction false} WarmsUp(c: Config, states: seq<State>, inputs: seq<Input>, k: Key, f: nat, m: nat)
    requires ValidConfig(c) && IsRun(c, states, inputs) && states[0] == EMPTY
    requires f + m < |states| && m <= c.warmupWindows && f < |inputs|
    requires k in inputs[f].counts && forall j :: 0 <= j < f ==> k !in inputs[j].counts
    ensures if m == 0 then DataOf(states[f], k).state.None?
            else DataOf(states[f + m], k).state.Some? && DataOf(states[f + m], k).state.value.windows == m
    ensures f + m < |inputs| && m < c.warmupWindows ==> SignalFor(c, DataOf(states[f + m], k), inputs[f + m], k).None?
  {
    if m == 0 {
      NotYetSeen(c, states, inputs, k, f);
    } else {
      WarmsUp(c, states, inputs, k, f, m - 1);
      var s, i := states[f + m - 1], inputs[f + m - 1];
      assert DataOf(states[f + m], k) == if Evaluated(s, i, k) then NextData(c, DataOf(s, k), i, k) else DataOf(s, k);
    }
  }

  lemma {:induction false} NotYetSeen(c: Config, states: seq<State>, inputs: seq<Input>, k: Key, n: nat)
    requires IsRun(c, states, inputs) && states[0] == EMPTY && n <= |inputs|
    requires forall j :: 0 <= j < n ==> k !in inputs[j].counts
    ensures DataOf(states[n], k).state.None?
  {
    if n > 0 {
      NotYetSeen(c, states, inputs, k, n - 1);
      var s, i := states[n - 1], inputs[n - 1];
      assert DataOf(states[n], k) == if Evaluated(s, i, k) then NextData(c, DataOf(s, k), i, k) else DataOf(s, k);
    }
  }

  // ----- silence -----

  predicate Silent(i: Input, k: Key) {
    Count(i, k) == 0
  }

  /** One silent window fires exactly when the expected count is positive and at least the squared
      threshold, and it then fires as a drop. */
  lemma SilenceFires(c: Config, d: Data, i: Input, k: Key)
    requires ValidConfig(c) && Silent(i, k) && d.state.Some? && d.state.value.windows >= c.warmupWindows
    ensures SignalFor(c, d, i, k).Some?
      <==> d.state.value.baseline * i.window > 0.0 && d.state.value.baseline * i.window >= c.zThreshold * c.zThreshold
    ensures SignalFor(c, d, i, k).Some? ==> SignalFor(c, d, i, k).value.direction == Drop
  {
    var expected := Expected(d.state.value.baseline, i.window);
    if expected > 0.0 {
      SquareOverSelf(expected);
    }
  }

  lemma SquareOverSelf(x: real)
    requires x > 0.0
    ensures ZSquared(0, x) == x
  {
    assert (0.0 - x) * (0.0 - x) == x * x;
    assert x * x / x == x;
  }

  lemma PositiveProduct(a: real, b: real)
    requires a > 0.0 && b > 0.0
    ensures a * b > 0.0
  {}

  /** Window j of a run reports the template as gone silent. */
  ghost predicate DropsAt(c: Config, states: seq<State>, inputs: seq<Input>, j: nat, k: Key)
    requires j < |inputs| && j < |states|
  {
    var signal := SignalFor(c, DataOf(states[j], k), inputs[j], k);
    signal.Some? && signal.value.direction == Drop
  }

  /** A silent window of this length would fire at this baseline. */
  predicate Reaches(c: Config, baseline: real, window: real) {
    baseline * window >= c.zThreshold * c.zThreshold
  }

  lemma SilentDrop(c: Config, states: seq<State>, inputs: seq<Input>, j: nat, k: Key)
    requires ValidConfig(c) && IsRun(c, states, inputs) && j < |inputs| && Silent(inputs[j], k)
    requires k in states[j].baseline && Get(states[j].windows, k, 0) >= c.warmupWindows
    ensures DropsAt(c, states, inputs, j, k) <==> Reaches(c, states[j].baseline[k], inputs[j].window)
    ensures SignalFor(c, DataOf(states[j], k), inputs[j], k).Some? ==> DropsAt(c, states, inputs, j, k)
    ensures !Reaches(c, states[j].baseline[k], inputs[j].window) ==> SignalFor(c, DataOf(states[j], k), inputs[j], k).None?
  {
    SquarePositive(c.zThreshold);
    assert Square(c.zThreshold) == c.zThreshold * c.zThreshold;
    var d := DataOf(states[j], k);
    assert d.state == Some(KeyState(states[j].baseline[k], Get(states[j].windows, k, 0)));
    SilenceFires(c, d, inputs[j], k);
    var reached := d.state.value.baseline * inputs[j].window >= c.zThreshold * c.zThreshold;
    assert reached ==> d.state.value.baseline * inputs[j].window > 0.0;
    assert reached <==> SignalFor(c, d, inputs[j], k).Some?;
  }

  /** With freezing on, an outage is flagged in each of its windows if and only if the count expected
      before it began reaches the squared threshold in each, and as long as it is, the baseline does
      not move. */
  lemma {:induction false} OutageStaysFlagged(c: Config, states: seq<State>, inputs: seq<Input>, n: nat, k: Key)
    requires ValidConfig(c) && c.freezeOnSignal && IsRun(c, states, inputs) && n <= |inputs|
    requires k in states[0].baseline && Get(states[0].windows, k, 0) >= c.warmupWindows
    requires forall j :: 0 <= j < n ==> Silent(inputs[j], k)
    ensures (forall j :: 0 <= j < n ==> DropsAt(c, states, inputs, j, k))
       <==> (forall j :: 0 <= j < n ==> Reaches(c, states[0].baseline[k], inputs[j].window))
    ensures (forall j :: 0 <= j < n ==> DropsAt(c, states, inputs, j, k)) ==> DataOf(states[n], k).state == DataOf(states[0], k).state
  {
    hide Reaches;
    if n > 0 {
      OutageStaysFlagged(c, states, inputs, n - 1, k);
      var s, i := states[n - 1], inputs[n - 1];
      if DataOf(s, k).state == DataOf(states[0], k).state {
        SilentDrop(c, states, inputs, n - 1, k);
        assert DataOf(states[n], k) == if Evaluated(s, i, k) then NextData(c, DataOf(s, k), i, k) else DataOf(s, k);
      }
    }
  }

  /** An outage whose expected count is below the squared threshold in every window is never flagged,
      freezing or not: the silence is learned, and each window scales the baseline by 1 - alpha. */
  lemma {:induction false} QuietOutageUnnoticed(c: Config, states: seq<State>, inputs: seq<Input>, n: nat, k: Key)
    requires ValidConfig(c) && IsRun(c, states, inputs) && n <= |inputs|
    requires k in states[0].baseline && Get(states[0].windows, k, 0) >= c.warmupWindows
    requires forall j :: 0 <= j < n ==> Silent(inputs[j], k) && !Reaches(c, states[0].baseline[k], inputs[j].window)
    ensures forall j :: 0 <= j < n ==> SignalFor(c, DataOf(states[j], k), inputs[j], k).None?
    ensures k in states[n].baseline && Get(states[n].windows, k, 0) == Get(states[0].windows, k, 0) + n
    ensures states[n].baseline[k] == Decayed(c, states[0].baseline[k], n)
  {
    if n > 0 {
      QuietOutageUnnoticed(c, states, inputs, n - 1, k);
      var s, i := states[n - 1], inputs[n - 1];
      hide SignalFor, NextData, Reaches, Blend, DropsAt, Power;
      DecayedBelow(c, states[0].baseline[k], n - 1, i.window);
      SilentDrop(c, states, inputs, n - 1, k);
      assert DataOf(states[n], k) == if Evaluated(s, i, k) then NextData(c, DataOf(s, k), i, k) else DataOf(s, k);
      UnflaggedSilence(c, DataOf(s, k), i, k);
      DecayStep(c.alpha, 1.0 - c.alpha, n - 1, states[0].baseline[k], s.baseline[k], Decayed(c, states[0].baseline[k], n));
    }
  }

  lemma UnflaggedSilence(c: Config, d: Data, i: Input, k: Key)
    requires i.window > 0.0 && d.state.Some? && Silent(i, k) && SignalFor(c, d, i, k).None?
    ensures NextData(c, d, i, k).state == Some(KeyState(Blend(c.alpha, 0.0, d.state.value.baseline), d.state.value.windows + 1))
  {
    assert Rate(0, i.window) == 0.0;
  }

  lemma DecayedBelow(c: Config, start: real, n: nat, window: real)
    requires ValidConfig(c) && window > 0.0 && !Reaches(c, start, window)
    ensures !Reaches(c, Decayed(c, start, n), window)
  {
    var p := Power(1.0 - c.alpha, n);
    PowerInUnit(1.0 - c.alpha, n);
    SquarePositive(c.zThreshold);
    assert Square(c.zThreshold) == c.zThreshold * c.zThreshold;
    ShrinkBelow(p, start * window, c.zThreshold * c.zThreshold);
    assert p * start * window == p * (start * window);
  }

  lemma {:induction false} PowerInUnit(x: real, n: nat)
    requires 0.0 <= x <= 1.0
    ensures 0.0 <= Power(x, n) <= 1.0
  {
    if n > 0 {
      PowerInUnit(x, n - 1);
      Scale(x, Power(x, n - 1));
      Scale(x, 1.0 - Power(x, n - 1));
    }
  }

  lemma ShrinkBelow(p: real, y: real, z: real)
    requires 0.0 <= p <= 1.0 && y < z && z > 0.0
    ensures p * y < z
  {
    if y >= 0.0 {
      Scale(1.0 - p, y);
    } else {
      Scale(p, 0.0 - y);
    }
  }

  function Power(x: real, n: nat): real {
    if n == 0 then 1.0 else x * Power(x, n - 1)
  }

  /** `(1 - alpha)^n * start`. */
  function Decayed(c: Config, start: real, n: nat): real {
    Power(1.0 - c.alpha, n) * start
  }

  /** With freezing off, n silent windows scale the baseline by (1 - alpha)^n, so an outage talks
      itself down. */
  lemma {:induction false} WithoutFreezingDecays(c: Config, states: seq<State>, inputs: seq<Input>, n: nat, k: Key)
    requires ValidConfig(c) && !c.freezeOnSignal && IsRun(c, states, inputs) && n <= |inputs|
    requires k in states[0].baseline && forall j :: 0 <= j < |inputs| ==> Silent(inputs[j], k)
    ensures DataOf(states[n], k).state
      == Some(KeyState(Decayed(c, states[0].baseline[k], n), Get(states[0].windows, k, 0) + n))
  {
    if n > 0 {
      WithoutFreezingDecays(c, states, inputs, n - 1, k);
      var s, i := states[n - 1], inputs[n - 1];
      assert DataOf(states[n], k) == if Evaluated(s, i, k) then NextData(c, DataOf(s, k), i, k) else DataOf(s, k);
      assert Silent(i, k) && Rate(0, i.window) == 0.0;
      var b := Decayed(c, states[0].baseline[k], n - 1);
      assert k in s.baseline && Evaluated(s, i, k) && Count(i, k) == 0;
      assert s.baseline[k] == b;
      SilentNext(c, DataOf(s, k).state, i.window);
      assert DataOf(states[n], k).state == Some(NextKey(c, DataOf(s, k).state, i.window, 0));
      assert DataOf(states[n], k).state == Some(KeyState(Blend(c.alpha, 0.0, b), Get(states[0].windows, k, 0) + n));
      var z := Decayed(c, states[0].baseline[k], n);
      DecayStep(c.alpha, 1.0 - c.alpha, n - 1, states[0].baseline[k], b, z);
      assert DataOf(states[n], k).state == Some(KeyState(z, Get(states[0].windows, k, 0) + n));
    }
  }

  lemma SilentNext(c: Config, state: Option<KeyState>, window: real)
    requires state.Some? && !c.freezeOnSignal && window > 0.0
    ensures NextKey(c, state, window, 0) == KeyState(Blend(c.alpha, 0.0, state.value.baseline), state.value.windows + 1)
  {
    assert Rate(0, window) == 0.0;
  }

  lemma DecayStep(alpha: real, beta: real, n: nat, b: real, y: real, z: real)
    requires beta == 1.0 - alpha && y == Power(beta, n) * b && z == Power(beta, n + 1) * b
    ensures Blend(alpha, 0.0, y) == z
  {
    BlendZero(alpha, beta, y);
    PowerStep(beta, n, b);
    assert z == beta * (Power(beta, n) * b);
    assert z == beta * y;
  }

  lemma BlendZero(alpha: real, beta: real, y: real)
    requires beta == 1.0 - alpha
    ensures Blend(alpha, 0.0, y) == beta * y
  {}

  lemma PowerStep(x: real, n: nat, b: real)
    ensures Power(x, n + 1) * b == x * (Power(x, n) * b)
  {
    var p, q := Power(x, n), Power(x, n + 1);
    assert q == x * p;
    assert (x * p) * b == x * (p * b);
  }

  // ----- persistence -----

  /** One row of the snapshot's template list. */
  datatype Saved = Saved(baselineRate: real, windows: int, template: string, sampleLines: seq<string>)

  datatype Snapshot = Snapshot(params: Config, templates: map<Key, Saved>)

  function SnapshotOf(c: Config, s: State): Snapshot {
    Snapshot(c, map k | k in s.baseline ::
      Saved(s.baseline[k], Get(s.windows, k, 0), Get(s.templates, k, ""), Get(s.samples, k, [])))
  }

  function Restore(saved: Snapshot): State {
    State(
      map k | k in saved.templates :: saved.templates[k].baselineRate,
      map k | k in saved.templates :: saved.templates[k].windows,
      map k | k in saved.templates && saved.templates[k].template != "" :: saved.templates[k].template,
      map k | k in saved.templates && saved.templates[k].sampleLines != [] :: saved.templates[k].sampleLines)
  }

  /** Equal but for an empty text or no samples, which read like absent ones. */
  ghost predicate SameData(d: Data, e: Data) {
    d.state == e.state && OrElse(d.template, "") == OrElse(e.template, "") && OrElse(d.samples, []) == OrElse(e.samples, [])
  }

  ghost predicate Alike(s: State, t: State) {
    forall k :: SameData(DataOf(s, k), DataOf(t, k))
  }

  /** Only templates with a baseline have a text or samples. */
  ghost predicate TextNeedsBaseline(s: State) {
    forall k :: k !in s.baseline ==> DataOf(s, k) == Data(None, None, None)
  }

  lemma {:induction false} RunTextNeedsBaseline(c: Config, states: seq<State>, inputs: seq<Input>, n: nat)
    requires IsRun(c, states, inputs) && states[0] == EMPTY && n <= |inputs|
    ensures TextNeedsBaseline(states[n])
  {
    if n > 0 {
      RunTextNeedsBaseline(c, states, inputs, n - 1);
      var s, i := states[n - 1], inputs[n - 1];
      forall k | k !in states[n].baseline
        ensures DataOf(states[n], k) == Data(None, None, None)
      {
        assert DataOf(states[n], k) == if Evaluated(s, i, k) then NextData(c, DataOf(s, k), i, k) else DataOf(s, k);
      }
    }
  }

  lemma RestoreAt(c: Config, s: State, k: Key)
    requires k in s.baseline || DataOf(s, k) == Data(None, None, None)
    ensures SameData(DataOf(s, k), DataOf(Restore(SnapshotOf(c, s)), k))
  {
    var saved := SnapshotOf(c, s);
    assert k in saved.templates <==> k in s.baseline;
    if k in s.baseline {
      assert saved.templates[k] == Saved(s.baseline[k], Get(s.windows, k, 0), Get(s.templates, k, ""), Get(s.samples, k, []));
    }
    RestoredRow(saved, k);
  }

  lemma RestoredRow(saved: Snapshot, k: Key)
    ensures DataOf(Restore(saved), k) == if k !in saved.templates then Data(None, None, None)
      else
        var row := saved.templates[k];
        Data(Some(KeyState(row.baselineRate, row.windows)), if row.template != "" then Some(row.template) else None,
             if row.sampleLines != [] then Some(row.sampleLines) else None)
  {}

  lemma SnapshotOfRestored(saved: Snapshot)
    ensures SnapshotOf(saved.params, Restore(saved)) == saved
  {
    var again := SnapshotOf(saved.params, Restore(saved));
    forall k | k in saved.templates
      ensures k in again.templates && again.templates[k] == saved.templates[k]
    {
      assert again.templates[k] == Saved(saved.templates[k].baselineRate, saved.templates[k].windows,
                                         saved.templates[k].template, saved.templates[k].sampleLines);
    }
    assert again.templates.Keys == saved.templates.Keys;
  }

  lemma RestoreAlike(c: Config, s: State)
    requires TextNeedsBaseline(s)
    ensures Alike(s, Restore(SnapshotOf(c, s)))
  {
    forall k
      ensures SameData(DataOf(s, k), DataOf(Restore(SnapshotOf(c, s)), k))
    {
      RestoreAt(c, s, k);
    }
  }

  lemma SameDataStep(c: Config, d: Data, e: Data, i: Input, k: Key)
    requires SameData(d, e)
    ensures SignalFor(c, d, i, k) == SignalFor(c, e, i, k)
    ensures SameData(NextData(c, d, i, k), NextData(c, e, i, k))
  {}

  lemma {:induction false} AlikeRuns(c: Config, states: seq<State>, others: seq<State>, inputs: seq<Input>, n: nat, k: Key)
    requires IsRun(c, states, inputs) && IsRun(c, others, inputs) && Alike(states[0], others[0]) && n <= |inputs|
    ensures SameData(DataOf(states[n], k), DataOf(others[n], k))
  {
    if n == 0 {
      assert SameData(DataOf(states[0], k), DataOf(others[0], k));
    } else {
      AlikeRuns(c, states, others, inputs, n - 1, k);
      var s, t, i := states[n - 1], others[n - 1], inputs[n - 1];
      assert DataOf(states[n], k) == if Evaluated(s, i, k) then NextData(c, DataOf(s, k), i, k) else DataOf(s, k);
      assert DataOf(others[n], k) == if Evaluated(t, i, k) then NextData(c, DataOf(t, k), i, k) else DataOf(t, k);
      SameDataStep(c, DataOf(s, k), DataOf(t, k), i, k);
    }
  }

  /** A restored detector reports the same signals as the original in every future window. */
  lemma RestoredBehavesAlike(c: Config, past: seq<State>, pastInputs: seq<Input>,
                             future: seq<State>, restored: seq<State>, inputs: seq<Input>, n: nat, k: Key)
    requires IsRun(c, past, pastInputs) && past[0] == EMPTY
    requires IsRun(c, future, inputs) && future[0] == past[|pastInputs|]
    requires IsRun(c, restored, inputs) && restored[0] == Restore(SnapshotOf(c, past[|pastInputs|]))
    requires n < |inputs|
    ensures SignalFor(c, DataOf(future[n], k), inputs[n], k) == SignalFor(c, DataOf(restored[n], k), inputs[n], k)
    ensures Evaluated(future[n], inputs[n], k) == Evaluated(restored[n], inputs[n], k)
  {
    RunTextNeedsBaseline(c, past, pastInputs, |pastInputs|);
    RestoreAlike(c, past[|pastInputs|]);
    AlikeRuns(c, future, restored, inputs, n, k);
    SameDataStep(c, DataOf(future[n], k), DataOf(restored[n], k), inputs[n], k);
  }
}
