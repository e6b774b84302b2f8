/** The validation ladder's three ways to a verdict: the fail-fast run and the measuring run
    of `src/fiboki/validation/ladder.py` (with `src/fiboki/validation/report.py`), and the
    closed form `judge_rows` of `scripts/gate_power_study.py`. Rungs are numbered by their
    position, as the ladder declares them. */
module Ladder {
  import opened Sequences

  datatype Comparison = GT | GTE | LT | LTE

  datatype Gate = Gate(name: string, metric: string, comparison: Comparison, threshold: real, rung: int)

  datatype Status = Passes | Fails | NotApplicable | NotEvaluated

  predicate Blocks(s: Status) {
    s == Fails || s == NotEvaluated
  }

  /** Measured values by metric; `None` also stands for a value that is not finite. */
  type Values = map<string, Option<real>>

  predicate Holds(c: Comparison, v: real, t: real) {
    match c
    case GT => v > t
    case GTE => v >= t
    case LT => v < t
    case LTE => v <= t
  }

  function Evaluate(g: Gate, values: Values, na: set<string>): Status {
    if g.name in na then NotApplicable
    else if g.metric !in values || values[g.metric].None? then NotEvaluated
    else if Holds(g.comparison, values[g.metric].value, g.threshold) then Passes
    else Fails
  }

  /** A gate that does not stand in the way, in arithmetic: it does not apply, or it has a value
      on its side of the threshold, the threshold itself included or not as it compares. */
  ghost predicate Clears(g: Gate, values: Values, na: set<string>) {
    || g.name in na
    || (&& g.metric in values && values[g.metric].Some?
        && var v, t := values[g.metric].value, g.threshold;
           && (g.comparison == GT ==> t < v) && (g.comparison == GTE ==> !(v < t))
           && (g.comparison == LT ==> v < t) && (g.comparison == LTE ==> !(t < v)))
  }

  lemma {:induction false} BlocksUnlessClears(g: Gate, values: Values, na: set<string>)
    ensures Blocks(Evaluate(g, values, na)) <==> !Clears(g, values, na)
    ensures Evaluate(g, values, na) == NotEvaluated <==>
            g.name !in na && !(g.metric in values && values[g.metric].Some?)
  {
  }

  /** Gate i is the first declared of rung k that does not clear. */
  ghost predicate FirstAt(gates: seq<Gate>, k: int, values: Values, na: set<string>, i: int) {
    && 0 <= i < |gates| && gates[i].rung == k && !Clears(gates[i], values, na)
    && forall j :: 0 <= j < i && gates[j].rung == k ==> Clears(gates[j], values, na)
  }

  /** Gate i is the first by rung, then by declaration, that does not clear. */
  ghost predicate FirstOf(gates: seq<Gate>, values: Values, na: set<string>, i: int) {
    && 0 <= i < |gates| && !Clears(gates[i], values, na)
    && forall j :: 0 <= j < |gates| && !Clears(gates[j], values, na) ==>
         gates[i].rung < gates[j].rung || (gates[i].rung == gates[j].rung && i <= j)
  }

  /** The first gate of a rung, in declaration order, that blocks. */
  function BlockingAt(gates: seq<Gate>, k: int, values: Values, na: set<string>): Option<Gate> {
    if gates == [] then None
    else if gates[0].rung == k && Blocks(Evaluate(gates[0], values, na)) then Some(gates[0])
    else BlockingAt(gates[1..], k, values, na)
  }

  /** `GateSet.binding_constraint`: the first blocking gate by rung, then by declaration. */
  function BindingGate(gates: seq<Gate>, values: Values, na: set<string>): Option<Gate> {
    if gates == [] then None
    else
      var rest := BindingGate(gates[1..], values, na);
      if Blocks(Evaluate(gates[0], values, na)) && (rest.None? || gates[0].rung <= rest.value.rung) then Some(gates[0])
      else rest
  }

  // ---------------------------------------------------------------- the report

  datatype Outcome = Pass | Fail | Error | NotReached

  datatype Verdict = Promote | Reject | Incomplete

  datatype Binding = NoBinding | ByGate(name: string) | ByRung(rung: string)

  datatype Judgement = Judgement(verdict: Verdict, binding: Binding)

  function FirstFailing(outcomes: seq<Outcome>): (f: Option<nat>)
    ensures f.Some? ==> f.value < |outcomes|
  {
    if outcomes == [] then None
    else if outcomes[0] == Fail || outcomes[0] == Error then Some(0)
    else
      var rest := FirstFailing(outcomes[1..]);
      if rest.None? then None else Some(rest.value + 1)
  }

  function FirstNotReached(outcomes: seq<Outcome>): (f: Option<nat>)
    ensures f.Some? ==> f.value < |outcomes|
  {
    if outcomes == [] then None
    else if outcomes[0] == NotReached then Some(0)
    else
      var rest := FirstNotReached(outcomes[1..]);
      if rest.None? then None else Some(rest.value + 1)
  }

  /** `ValidationReport.build`: the verdict is derived from the rungs and the gates. */
  function Build(
    outcomes: seq<Outcome>, labels: seq<string>, gates: seq<Gate>, values: Values, na: set<string>): Judgement
    requires |labels| == |outcomes|
  {
    var failing, blocking, missed := FirstFailing(outcomes), BindingGate(gates, values, na), FirstNotReached(outcomes);
    if failing.Some? then
      var g := BlockingAt(gates, failing.value, values, na);
      Judgement(Reject, if g.Some? then ByGate(g.value.name) else ByRung(labels[failing.value]))
    else if blocking.Some? then
      Judgement(
        if Evaluate(blocking.value, values, na) == NotEvaluated then Incomplete else Reject,
        ByGate(blocking.value.name))
    else if missed.Some? then Judgement(Incomplete, ByRung(labels[missed.value]))
    else Judgement(Promote, NoBinding)
  }

  // ---------------------------------------------------------------- running the rungs

  /** A rung as it runs on a candidate: its own outcome, what it measures, and the gates it
      declares not applicable. */
  datatype Rung = Rung(title: string, own: Outcome, writes: Values, na: set<string>)

  predicate Ran(rungs: seq<Rung>) {
    forall i :: 0 <= i < |rungs| ==> rungs[i].own != NotReached
  }

  function ValuesAfter(rungs: seq<Rung>, k: nat): Values
    requires k <= |rungs|
  {
    if k == 0 then map[] else ValuesAfter(rungs, k - 1) + rungs[k - 1].writes
  }

  function NaAfter(rungs: seq<Rung>, k: nat): set<string>
    requires k <= |rungs|
  {
    if k == 0 then {} else NaAfter(rungs, k - 1) + rungs[k - 1].na
  }

  function Labels(rungs: seq<Rung>): (ls: seq<string>)
    ensures |ls| == |rungs|
  {
    seq(|rungs|, i requires 0 <= i < |rungs| => rungs[i].title)
  }

  predicate Stops(rungs: seq<Rung>, gates: seq<Gate>, k: nat)
    requires k < |rungs|
  {
    rungs[k].own != Pass || BlockingAt(gates, k, ValuesAfter(rungs, k + 1), NaAfter(rungs, k + 1)).Some?
  }

  /** The rung the fail-fast ladder stops at, from rung k on. */
  function StopFrom(rungs: seq<Rung>, gates: seq<Gate>, k: nat): (s: nat)
    requires k <= |rungs|
    ensures k <= s <= |rungs|
    decreases |rungs| - k
  {
    if k == |rungs| || Stops(rungs, gates, k) then k else StopFrom(rungs, gates, k + 1)
  }

  /** Outcomes of a run that stopped at rung s. */
  function OutcomesAt(rungs: seq<Rung>, s: nat): (os: seq<Outcome>)
    ensures |os| == |rungs|
  {
    seq(|rungs|, i requires 0 <= i < |rungs| =>
      if i < s then Pass else if i > s then NotReached else if rungs[i].own == Pass then Fail else rungs[i].own)
  }

  function Seen(rungs: seq<Rung>, s: nat): (k: nat)
    ensures k <= |rungs|
  {
    if s < |rungs| then s + 1 else |rungs|
  }

  /** The judgement of the fail-fast ladder. */
  function FailFast(rungs: seq<Rung>, gates: seq<Gate>): Judgement {
    var s := StopFrom(rungs, gates, 0);
    var k := Seen(rungs, s);
    Build(OutcomesAt(rungs, s), Labels(rungs), gates, ValuesAfter(rungs, k), NaAfter(rungs, k))
  }

  /** Every gate of rung k clears on what is measured by then. */
  ghost predicate RungClears(rungs: seq<Rung>, gates: seq<Gate>, k: nat)
    requires k < |rungs|
  {
    forall i :: 0 <= i < |gates| && gates[i].rung == k ==>
      Clears(gates[i], ValuesAfter(rungs, k + 1), NaAfter(rungs, k + 1))
  }

  /** Rung s is the first that fails by itself or by a gate. */
  ghost predicate StopsFirstAt(rungs: seq<Rung>, gates: seq<Gate>, s: nat) {
    && s <= |rungs|
    && (forall k :: 0 <= k < s ==> rungs[k].own == Pass && RungClears(rungs, gates, k))
    && (s < |rungs| ==> rungs[s].own != Pass || !RungClears(rungs, gates, s))
  }

  /** The judgement of a ladder that stopped at rung s: rejected by the first gate of that rung
      that does not clear, or by the rung itself if all clear; and if no rung stopped it, by the
      first gate of all that does not clear, incomplete if that one has no value. */
  ghost predicate Judged(rungs: seq<Rung>, gates: seq<Gate>, s: nat, j: Judgement)
    requires s <= |rungs|
  {
    if s < |rungs| then
      && j.verdict == Reject
      && (RungClears(rungs, gates, s) ==> j.binding == ByRung(rungs[s].title))
      && (!RungClears(rungs, gates, s) ==>
            exists i :: FirstAt(gates, s, ValuesAfter(rungs, s + 1), NaAfter(rungs, s + 1), i)
                        && j.binding == ByGate(gates[i].name))
    else
      var values, na := ValuesAfter(rungs, s), NaAfter(rungs, s);
      if forall i :: 0 <= i < |gates| ==> Clears(gates[i], values, na) then j == Judgement(Promote, NoBinding)
      else
        exists i ::
          && FirstOf(gates, values, na, i) && j.binding == ByGate(gates[i].name)
          && j.verdict == if gates[i].metric in values && values[gates[i].metric].Some? then Reject else Incomplete
  }

  lemma {:induction false} BlockingAtFirst(gates: seq<Gate>, k: int, values: Values, na: set<string>)
    ensures var b := BlockingAt(gates, k, values, na);
            && (b.None? <==> forall i :: 0 <= i < |gates| && gates[i].rung == k ==> Clears(gates[i], values, na))
            && (b.Some? ==> exists i :: FirstAt(gates, k, values, na, i) && gates[i] == b.value)
  {
    if gates != [] {
      BlocksUnlessClears(gates[0], values, na);
      if gates[0].rung == k && Blocks(Evaluate(gates[0], values, na)) {
        assert FirstAt(gates, k, values, na, 0);
      } else {
        var rest := gates[1..];
        BlockingAtFirst(rest, k, values, na);
        assert forall j :: 0 < j < |gates| ==> gates[j] == rest[j - 1];
        if BlockingAt(gates, k, values, na).Some? {
          var i :| FirstAt(rest, k, values, na, i) && rest[i] == BlockingAt(gates, k, values, na).value;
          assert FirstAt(gates, k, values, na, i + 1);
        }
      }
    }
  }

  /** What is left to check after the first gate. */
  lemma {:induction false} FirstOfTail(gates: seq<Gate>, values: Values, na: set<string>, i: int)
    requires gates != [] && FirstOf(gates[1..], values, na, i)
    requires Clears(gates[0], values, na) || gates[1..][i].rung < gates[0].rung
    ensures FirstOf(gates, values, na, i + 1)
  {
    assert forall j :: 0 < j < |gates| ==> gates[j] == gates[1..][j - 1];
  }

  /** The binding gate does not clear, and it is the first such by rung and by declaration;
      there is none exactly when every gate clears. */
  lemma {:induction false} BindingIsFirst(gates: seq<Gate>, values: Values, na: set<string>)
    ensures var b := BindingGate(gates, values, na);
            && (b.None? <==> forall i :: 0 <= i < |gates| ==> Clears(gates[i], values, na))
            && (b.Some? ==> exists i :: FirstOf(gates, values, na, i) && gates[i] == b.value)
  {
    if gates != [] {
      var rest := gates[1..];
      BlocksUnlessClears(gates[0], values, na);
      BindingIsFirst(rest, values, na);
      assert forall j :: 0 < j < |gates| ==> gates[j] == rest[j - 1];
      var b, c := BindingGate(gates, values, na), BindingGate(rest, values, na);
      if c.Some? {
        var i :| FirstOf(rest, values, na, i) && rest[i] == c.value;
        if b == c && (Clears(gates[0], values, na) || c.value.rung < gates[0].rung) {
          FirstOfTail(gates, values, na, i);
        } else {
          assert FirstOf(gates, values, na, 0);
        }
      } else if b.Some? {
        assert FirstOf(gates, values, na, 0);
      }
    }
  }

  lemma {:induction false} StopsAtFirst(rungs: seq<Rung>, gates: seq<Gate>)
    ensures StopsFirstAt(rungs, gates, StopFrom(rungs, gates, 0))
  {
    var s := StopFrom(rungs, gates, 0);
    StopBefore(rungs, gates, 0);
    forall k | 0 <= k < s ensures rungs[k].own == Pass && RungClears(rungs, gates, k) {
      assert !Stops(rungs, gates, k);
      BlockingAtFirst(gates, k, ValuesAfter(rungs, k + 1), NaAfter(rungs, k + 1));
    }
    if s < |rungs| {
      BlockingAtFirst(gates, s, ValuesAfter(rungs, s + 1), NaAfter(rungs, s + 1));
    }
  }

  lemma {:induction false} FailFastJudged(rungs: seq<Rung>, gates: seq<Gate>)
    requires Ran(rungs)
    ensures Judged(rungs, gates, StopFrom(rungs, gates, 0), FailFast(rungs, gates))
  {
    var s := StopFrom(rungs, gates, 0);
    StopBefore(rungs, gates, 0);
    if s < |rungs| {
      FailsFirstAt(OutcomesAt(rungs, s), s);
      BlockingAtFirst(gates, s, ValuesAfter(rungs, s + 1), NaAfter(rungs, s + 1));
    } else {
      AllReached(OutcomesAt(rungs, s));
      var values, na := ValuesAfter(rungs, s), NaAfter(rungs, s);
      BindingIsFirst(gates, values, na);
      var b := BindingGate(gates, values, na);
      if b.Some? {
        BlocksUnlessClears(b.value, values, na);
      }
    }
  }

  /** `ValidationLadder.run`: it stops at the first rung that fails or has a gate that does not
      clear, and judges accordingly. */
  method RunLadder(rungs: seq<Rung>, gates: seq<Gate>) returns (j: Judgement, ghost stop: nat)
    ensures j == FailFast(rungs, gates)
    ensures StopsFirstAt(rungs, gates, stop)
    ensures Ran(rungs) ==> Judged(rungs, gates, stop, j)
  {
    stop := StopFrom(rungs, gates, 0);
    j := RunRungs(rungs, gates);
    StopsAtFirst(rungs, gates);
    if Ran(rungs) {
      FailFastJudged(rungs, gates);
    }
  }

  /** The loop over the rungs. */
  method RunRungs(rungs: seq<Rung>, gates: seq<Gate>) returns (j: Judgement)
    ensures j == FailFast(rungs, gates)
  {
    var outcomes: seq<Outcome>, stopped := [], false;
    var values: Values, na: set<string> := map[], {};
    ghost var s := StopFrom(rungs, gates, 0);
    for i := 0 to |rungs|
      invariant |outcomes| == i && outcomes == OutcomesAt(rungs, s)[..i]
      invariant stopped <==> s < i
      invariant !stopped ==>
        StopFrom(rungs, gates, i) == s && values == ValuesAfter(rungs, i) && na == NaAfter(rungs, i)
      invariant stopped ==> values == ValuesAfter(rungs, s + 1) && na == NaAfter(rungs, s + 1)
    {
      if stopped {
        outcomes := outcomes + [NotReached];
      } else {
        values, na := values + rungs[i].writes, na + rungs[i].na;
        var result := rungs[i].own;
        if result == Pass && BlockingAt(gates, i, values, na).Some? {
          result := Fail;
        }
        outcomes := outcomes + [result];
        stopped := result != Pass;
      }
    }
    assert OutcomesAt(rungs, s)[..|rungs|] == OutcomesAt(rungs, s);
    j := Build(outcomes, Labels(rungs), gates, values, na);
  }

  // ---------------------------------------------------------------- measuring

  /** The rungs' own outcomes when no gate stops them. */
  function OwnStop(rungs: seq<Rung>, k: nat): (s: nat)
    requires k <= |rungs|
    ensures k <= s <= |rungs|
    ensures forall i :: k <= i < s ==> rungs[i].own == Pass
    ensures s < |rungs| ==> rungs[s].own != Pass
    decreases |rungs| - k
  {
    if k == |rungs| || rungs[k].own != Pass then k else OwnStop(rungs, k + 1)
  }

  /** What a measuring run records: every rung's own outcome and everything measured. */
  datatype Measurement = Measurement(outcomes: seq<Outcome>, labels: seq<string>, values: Values, na: set<string>)

  function Measure(rungs: seq<Rung>): (m: Measurement)
    ensures |m.outcomes| == |m.labels| == |rungs|
  {
    var s := OwnStop(rungs, 0);
    var k := Seen(rungs, s);
    Measurement(
      OutcomesAt(rungs, s), Labels(rungs), ValuesAfter(rungs, k), NaAfter(rungs, k))
  }

  /** The first passed rung whose gates block is marked as failed. */
  function Mark(outcomes: seq<Outcome>, k: nat, gates: seq<Gate>, values: Values, na: set<string>): (os: seq<Outcome>)
    requires k <= |outcomes|
    ensures |os| == |outcomes|
    decreases |outcomes| - k
  {
    if k == |outcomes| then outcomes
    else if outcomes[k] == Pass && BlockingAt(gates, k, values, na).Some? then outcomes[k := Fail]
    else Mark(outcomes, k + 1, gates, values, na)
  }

  /** The report `run_measuring` builds for one gate set. */
  function Measured(m: Measurement, gates: seq<Gate>): Judgement
    requires |m.labels| == |m.outcomes|
  {
    Build(Mark(m.outcomes, 0, gates, m.values, m.na), m.labels, gates, m.values, m.na)
  }

  /** No rung after a gate's own rewrites what the gate reads. A gate may belong to a rung
      this ladder does not have. */
  ghost predicate Settled(rungs: seq<Rung>, gates: seq<Gate>) {
    forall j :: 0 <= j < |gates| ==>
      && 0 <= gates[j].rung
      && forall i :: gates[j].rung < i < |rungs| ==>
           gates[j].metric !in rungs[i].writes && gates[j].name !in rungs[i].na
  }

  lemma {:induction false} StatusSettled(rungs: seq<Rung>, g: Gate, k: nat)
    requires 0 <= g.rung < k <= |rungs|
    requires forall i :: g.rung < i < |rungs| ==> g.metric !in rungs[i].writes && g.name !in rungs[i].na
    ensures Evaluate(g, ValuesAfter(rungs, k), NaAfter(rungs, k))
            == Evaluate(g, ValuesAfter(rungs, g.rung + 1), NaAfter(rungs, g.rung + 1))
    decreases k
  {
    if g.rung + 1 < k {
      StatusSettled(rungs, g, k - 1);
    }
  }

  lemma {:induction false} BlockingSettled(rungs: seq<Rung>, gates: seq<Gate>, f: nat, k: nat)
    requires Settled(rungs, gates) && f < k <= |rungs|
    ensures BlockingAt(gates, f, ValuesAfter(rungs, k), NaAfter(rungs, k))
            == BlockingAt(gates, f, ValuesAfter(rungs, f + 1), NaAfter(rungs, f + 1))
  {
    if gates != [] {
      if gates[0].rung == f {
        StatusSettled(rungs, gates[0], k);
      }
      BlockingSettled(rungs, gates[1..], f, k);
    }
  }

  lemma {:induction false} StopBefore(rungs: seq<Rung>, gates: seq<Gate>, k: nat)
    requires k <= |rungs|
    ensures var s := StopFrom(rungs, gates, k);
            (forall i :: k <= i < s ==> !Stops(rungs, gates, i)) && (s < |rungs| ==> Stops(rungs, gates, s))
    decreases |rungs| - k
  {
    if k < |rungs| && !Stops(rungs, gates, k) {
      StopBefore(rungs, gates, k + 1);
    }
  }

  lemma {:induction false} FailsFirstAt(outcomes: seq<Outcome>, s: nat)
    requires s <= |outcomes|
    requires forall i :: 0 <= i < s ==> outcomes[i] != Fail && outcomes[i] != Error
    requires s < |outcomes| ==> outcomes[s] == Fail || outcomes[s] == Error
    ensures FirstFailing(outcomes) == if s < |outcomes| then Some(s) else None
  {
    if outcomes != [] && s > 0 {
      FailsFirstAt(outcomes[1..], s - 1);
    }
  }

  lemma {:induction false} MarkAt(
    outcomes: seq<Outcome>, k: nat, b: nat, gates: seq<Gate>, values: Values, na: set<string>)
    requires k <= b <= |outcomes|
    requires forall i :: k <= i < b ==> outcomes[i] != Pass || BlockingAt(gates, i, values, na).None?
    requires b < |outcomes| ==> outcomes[b] == Pass && BlockingAt(gates, b, values, na).Some?
    ensures Mark(outcomes, k, gates, values, na) == if b < |outcomes| then outcomes[b := Fail] else outcomes
    decreases b - k
  {
    if k < b {
      MarkAt(outcomes, k + 1, b, gates, values, na);
    }
  }

  lemma {:induction false} AllReached(outcomes: seq<Outcome>)
    requires forall i :: 0 <= i < |outcomes| ==> outcomes[i] == Pass
    ensures FirstFailing(outcomes).None? && FirstNotReached(outcomes).None?
  {
    if outcomes != [] {
      AllReached(outcomes[1..]);
    }
  }

  /** The fail-fast ladder stops no later than the rungs themselves do, and what blocks up to
      its stop is the same in the whole measurement. */
  lemma {:induction false} StopMeasured(rungs: seq<Rung>, gates: seq<Gate>)
    requires Settled(rungs, gates)
    ensures var m, s := Measure(rungs), StopFrom(rungs, gates, 0);
            && s <= OwnStop(rungs, 0)
            && (forall i :: 0 <= i < s ==> BlockingAt(gates, i, m.values, m.na).None?)
            && (s < |rungs| ==>
                  && BlockingAt(gates, s, m.values, m.na)
                     == BlockingAt(gates, s, ValuesAfter(rungs, s + 1), NaAfter(rungs, s + 1))
                  && (rungs[s].own != Pass || BlockingAt(gates, s, m.values, m.na).Some?))
  {
    var m, s, o := Measure(rungs), StopFrom(rungs, gates, 0), OwnStop(rungs, 0);
    var k := Seen(rungs, o);
    StopBefore(rungs, gates, 0);
    assert o < |rungs| ==> Stops(rungs, gates, o);
    assert s <= o;
    forall i | 0 <= i < s ensures BlockingAt(gates, i, m.values, m.na).None? {
      assert !Stops(rungs, gates, i);
      BlockingSettled(rungs, gates, i, k);
    }
    if s < |rungs| {
      assert Stops(rungs, gates, s);
      BlockingSettled(rungs, gates, s, k);
    }
  }

  /** Where the fail-fast ladder stops, the measured report fails first, for the same reason. */
  lemma {:induction false} MarkedFailsAtStop(rungs: seq<Rung>, gates: seq<Gate>)
    requires Ran(rungs) && Settled(rungs, gates)
    ensures StopFrom(rungs, gates, 0) <= OwnStop(rungs, 0)
    ensures var m, s := Measure(rungs), StopFrom(rungs, gates, 0);
            && FirstFailing(Mark(m.outcomes, 0, gates, m.values, m.na)) == (if s < |rungs| then Some(s) else None)
            && (s < |rungs| ==>
                  BlockingAt(gates, s, m.values, m.na)
                  == BlockingAt(gates, s, ValuesAfter(rungs, s + 1), NaAfter(rungs, s + 1)))
            && (s == |rungs| ==>
                  && (forall k :: 0 <= k < |rungs| ==> BlockingAt(gates, k, m.values, m.na).None?)
                  && Mark(m.outcomes, 0, gates, m.values, m.na) == m.outcomes == OutcomesAt(rungs, s))
  {
    var m, s := Measure(rungs), StopFrom(rungs, gates, 0);
    StopMeasured(rungs, gates);
    if s < |rungs| {
      if rungs[s].own == Pass {
        MarkAt(m.outcomes, 0, s, gates, m.values, m.na);
        FailsFirstAt(m.outcomes[s := Fail], s);
      } else {
        MarkAt(m.outcomes, 0, |rungs|, gates, m.values, m.na);
        FailsFirstAt(m.outcomes, s);
      }
    } else {
      MarkAt(m.outcomes, 0, |rungs|, gates, m.values, m.na);
      FailsFirstAt(m.outcomes, |rungs|);
    }
  }

  /** One measurement judged under any gate set says what the fail-fast ladder would have
      said under it: the same verdict, bound by the same gate or rung. */
  lemma {:induction false} MeasuringIsFailFast(rungs: seq<Rung>, gates: seq<Gate>)
    requires Ran(rungs) && Settled(rungs, gates)
    ensures Measured(Measure(rungs), gates) == FailFast(rungs, gates)
  {
    var m, s := Measure(rungs), StopFrom(rungs, gates, 0);
    var marked := Mark(m.outcomes, 0, gates, m.values, m.na);
    MarkedFailsAtStop(rungs, gates);
    StopBefore(rungs, gates, 0);
    if s < |rungs| {
      FailsFirstAt(OutcomesAt(rungs, s), s);
    } else {
      assert OwnStop(rungs, 0) == |rungs|;
      assert marked == OutcomesAt(rungs, s);
    }
  }

  // ---------------------------------------------------------------- judging recorded rows

  /** The per-row verdict of `judge_rows`, from the recorded outcomes, metrics and names. */
  function Judge(row: Measurement, gates: seq<Gate>): Judgement
    requires |row.labels| == |row.outcomes|
  {
    var failed, blocking := FirstFailing(row.outcomes), BindingGate(gates, row.values, row.na);
    if failed.Some? && (blocking.None? || blocking.value.rung >= failed.value) then
      var g := BlockingAt(gates, failed.value, row.values, row.na);
      Judgement(Reject, if g.Some? then ByGate(g.value.name) else ByRung(row.labels[failed.value]))
    else if blocking.Some? then Judgement(Reject, ByGate(blocking.value.name))
    else Judgement(Promote, NoBinding)
  }

  /** The binding gate blocks, no blocking gate has an earlier rung, and it is the first of
      its own rung. */
  lemma {:induction false} BindingByRung(gates: seq<Gate>, values: Values, na: set<string>)
    ensures var b := BindingGate(gates, values, na);
            && (b.None? ==> forall k :: BlockingAt(gates, k, values, na).None?)
            && (b.Some? ==> && b.value in gates
                            && BlockingAt(gates, b.value.rung, values, na) == b
                            && forall k :: k < b.value.rung ==> BlockingAt(gates, k, values, na).None?)
  {
    if gates != [] {
      BindingByRung(gates[1..], values, na);
      assert gates == [gates[0]] + gates[1..];
    }
  }

  /** A row whose outcomes stop at the first rung that fails, as measuring records them. */
  ghost predicate StopsClean(outcomes: seq<Outcome>, s: nat) {
    && s <= |outcomes|
    && (forall i :: 0 <= i < s ==> outcomes[i] == Pass)
    && (s < |outcomes| ==> outcomes[s] == Fail || outcomes[s] == Error)
    && (forall i :: s < i < |outcomes| ==> outcomes[i] == NotReached)
  }

  /** Every rung passed, and the first gate to block belongs to no rung of the ladder and has
      no value. */
  ghost predicate OpenOffLadder(row: Measurement, gates: seq<Gate>) {
    var b := BindingGate(gates, row.values, row.na);
    && FirstFailing(row.outcomes).None?
    && b.Some? && b.value.rung >= |row.outcomes| && Evaluate(b.value, row.values, row.na) == NotEvaluated
  }

  /** The closed form agrees with the report built rung by rung, except on a gate off the
      ladder that could not be evaluated: the report is then incomplete, and the closed form
      rejects. */
  lemma {:induction false} JudgeIsMeasured(row: Measurement, gates: seq<Gate>, s: nat)
    requires |row.labels| == |row.outcomes| && StopsClean(row.outcomes, s)
    requires forall j :: 0 <= j < |gates| ==> 0 <= gates[j].rung
    ensures Judge(row, gates) == Measured(row, gates) <==> !OpenOffLadder(row, gates)
  {
    var b, n := BindingGate(gates, row.values, row.na), |row.outcomes|;
    BindingByRung(gates, row.values, row.na);
    FailsFirstAt(row.outcomes, s);
    if b.Some? && b.value.rung < s {
      var r := b.value.rung;
      MarkAt(row.outcomes, 0, r, gates, row.values, row.na);
      FailsFirstAt(row.outcomes[r := Fail], r);
    } else {
      MarkAt(row.outcomes, 0, n, gates, row.values, row.na);
      if s == n {
        AllReached(row.outcomes);
      }
    }
  }

  // ---------------------------------------------------------------- what a row keeps

  /** The metrics a row records: each known gate's value, none when it does not apply. */
  function RecordedValues(known: seq<Gate>, values: Values, na: set<string>): Values {
    if known == [] then map[]
    else
      var g := known[|known| - 1];
      RecordedValues(known[..|known| - 1], values, na)[
        g.metric := if g.name in na || g.metric !in values then None else values[g.metric]]
  }

  function RecordedNa(known: seq<Gate>, na: set<string>): set<string> {
    set g | g in known && g.name in na :: g.name
  }

  function Recorded(m: Measurement, known: seq<Gate>): (row: Measurement)
    ensures |row.outcomes| == |m.outcomes| && |row.labels| == |m.labels|
  {
    Measurement(m.outcomes, m.labels, RecordedValues(known, m.values, m.na), RecordedNa(known, m.na))
  }

  /** The last known gate that reads a metric: its entry is the one the row keeps. */
  function LastReader(known: seq<Gate>, metric: string): (l: Option<Gate>)
    ensures l.None? <==> forall g :: g in known ==> g.metric != metric
  {
    if known == [] then None
    else
      var n := |known| - 1;
      assert known == known[..n] + [known[n]];
      if known[n].metric == metric then Some(known[n]) else LastReader(known[..n], metric)
  }

  /** A metric some known gate reads is recorded as the last of them leaves it, and no other
      metric is recorded. */
  lemma {:induction false} RecordedValue(known: seq<Gate>, values: Values, na: set<string>, metric: string)
    ensures metric in RecordedValues(known, values, na) <==> LastReader(known, metric).Some?
    ensures LastReader(known, metric).Some? ==>
      RecordedValues(known, values, na)[metric] ==
      if LastReader(known, metric).value.name in na || metric !in values then None else values[metric]
  {
    if known != [] {
      var n := |known| - 1;
      if known[n].metric != metric {
        RecordedValue(known[..n], values, na, metric);
      }
    }
  }

  predicate Measures(values: Values, metric: string) {
    metric in values && values[metric].Some?
  }

  /** What a row must keep for a gate, named at run time or not: that it does not apply, or
      else its value, if it has one, as the last known gate to read its metric leaves it. */
  ghost predicate Survives(known: seq<Gate>, values: Values, na: set<string>, g: Gate) {
    if g.name in na then exists h :: h in known && h.name == g.name
    else Measures(values, g.metric) ==>
      LastReader(known, g.metric).Some? && LastReader(known, g.metric).value.name !in na
  }

  /** Any gate's status, whatever its threshold or rung, is the same from the row as from the
      measurement exactly when the row keeps what it reads. */
  lemma {:induction false} RecordedStatus(known: seq<Gate>, values: Values, na: set<string>, g: Gate)
    ensures Evaluate(g, RecordedValues(known, values, na), RecordedNa(known, na)) == Evaluate(g, values, na)
            <==> Survives(known, values, na, g)
  {
    RecordedValue(known, values, na, g.metric);
    assert g.name in RecordedNa(known, na) <==> g.name in na && exists h :: h in known && h.name == g.name;
  }

  lemma {:induction false} SameStatusesSameGates(
    gates: seq<Gate>, v1: Values, na1: set<string>, v2: Values, na2: set<string>)
    requires forall g :: g in gates ==> Evaluate(g, v1, na1) == Evaluate(g, v2, na2)
    ensures forall k :: BlockingAt(gates, k, v1, na1) == BlockingAt(gates, k, v2, na2)
    ensures BindingGate(gates, v1, na1) == BindingGate(gates, v2, na2)
  {
    if gates != [] {
      assert gates[0] in gates;
      SameStatusesSameGates(gates[1..], v1, na1, v2, na2);
    }
  }

  /** `judge_rows` on a recorded row gives the verdict and binding constraint a fail-fast run
      of the ladder under that gate set would give, for every set of gates whose inputs the
      row keeps, named at run time or not, unless the first gate to block is off the ladder
      and has no value. */
  lemma {:induction false} JudgeRowsIsFailFast(rungs: seq<Rung>, gates: seq<Gate>, known: seq<Gate>)
    requires Ran(rungs) && Settled(rungs, gates)
    requires forall g :: g in gates ==> Survives(known, Measure(rungs).values, Measure(rungs).na, g)
    ensures Judge(Recorded(Measure(rungs), known), gates) == FailFast(rungs, gates)
            <==> !OpenOffLadder(Measure(rungs), gates)
  {
    var m := Measure(rungs);
    var row := Recorded(m, known);
    forall g | g in gates ensures Evaluate(g, row.values, row.na) == Evaluate(g, m.values, m.na) {
      RecordedStatus(known, m.values, m.na, g);
    }
    SameStatusesSameGates(gates, row.values, row.na, m.values, m.na);
    assert Judge(row, gates) == Judge(m, gates);
    JudgeIsMeasured(m, gates, OwnStop(rungs, 0));
    MeasuringIsFailFast(rungs, gates);
  }

  // ---------------------------------------------------------------- the trade floor

  const MIN_TRL_FLOOR: int := 150

  /** What rung 0 finds at the declared defaults. */
  datatype Baseline = Baseline(degenerate: bool, sample: real, expectancy: real, minTrl: Option<real>)

  /** `n_trades / max(MinTRL, 150)`. */
  function OverMinTrl(b: Baseline): Option<real> {
    if b.minTrl.None? then None
    else
      var bar := if b.minTrl.value < MIN_TRL_FLOOR as real then MIN_TRL_FLOOR as real else b.minTrl.value;
      Some(b.sample / bar)
  }

  /** `SanityRung.run` under a trade floor: what it measures does not depend on the floor, its
      own outcome does. */
  function SanityRung(b: Baseline, floor: int): Rung {
    Rung(
      "RUNG 0 SANITY",
      if b.degenerate || b.sample < floor as real || b.expectancy <= 0.0 then Fail else Pass,
      map["n_trades" := Some(b.sample), "min_trl_95" := b.minTrl, "n_trades_over_min_trl" := OverMinTrl(b)],
      {})
  }

  /** A candidate gets past rung 0 exactly when it is not degenerate, has the floor's trades and a
      positive expectancy, and clears the gates of rung 0 on what was measured: its trade count,
      its minimum track record, and the count over the greater of that and 150. */
  lemma {:induction false} PastSanity(b: Baseline, floor: int, rest: seq<Rung>, gates: seq<Gate>, over: Option<real>)
    requires over.Some? <==> b.minTrl.Some?
    requires b.minTrl.Some? && b.minTrl.value > 150.0 ==> over.value * b.minTrl.value == b.sample
    requires b.minTrl.Some? && b.minTrl.value <= 150.0 ==> over.value * 150.0 == b.sample
    ensures var values := map["n_trades" := Some(b.sample), "min_trl_95" := b.minTrl, "n_trades_over_min_trl" := over];
            StopFrom(LadderAt(b, floor, rest), gates, 0) > 0 <==>
              && !b.degenerate && floor as real <= b.sample && 0.0 < b.expectancy
              && forall i :: 0 <= i < |gates| && gates[i].rung == 0 ==> Clears(gates[i], values, {})
  {
    var rungs := LadderAt(b, floor, rest);
    var values := map["n_trades" := Some(b.sample), "min_trl_95" := b.minTrl, "n_trades_over_min_trl" := over];
    if b.minTrl.Some? {
      QuotientUnique(b.sample, if b.minTrl.value > 150.0 then b.minTrl.value else 150.0, over.value);
    }
    assert SanityRung(b, floor).writes == values;
    FirstRungWrites(b, floor, rest);
    BlockingAtFirst(gates, 0, values, {});
  }

  /** One that does not, and that no gate of rung 0 names, is rejected by the rung itself. */
  lemma {:induction false} SanityNamed(b: Baseline, floor: int, rest: seq<Rung>, gates: seq<Gate>)
    requires Ran(rest) && StopFrom(LadderAt(b, floor, rest), gates, 0) == 0
    requires forall i :: 0 <= i < |gates| ==> gates[i].rung != 0
    ensures FailFast(LadderAt(b, floor, rest), gates) == Judgement(Reject, ByRung("RUNG 0 SANITY"))
  {
    FailFastJudged(LadderAt(b, floor, rest), gates);
  }

  lemma {:induction false} QuotientUnique(sample: real, bar: real, over: real)
    requires bar > 0.0 && over * bar == sample
    ensures sample / bar == over
  {
  }

  function LadderAt(b: Baseline, floor: int, rest: seq<Rung>): seq<Rung> {
    [SanityRung(b, floor)] + rest
  }

  /** The gate a trade floor comes from: the trade count itself, or the count against the
      minimum track record with its floor of 150. */
  predicate TradeGate(g: Gate, floor: int) {
    && g.rung == 0 && g.comparison == GTE
    && (|| (g.metric == "n_trades" && floor as real <= g.threshold)
        || (g.metric == "n_trades_over_min_trl" && floor <= MIN_TRL_FLOOR && 1.0 <= g.threshold))
  }

  /** `GateSet.by_name`. */
  function ByName(gates: seq<Gate>, name: string): Option<Gate> {
    if gates == [] then None else if gates[0].name == name then Some(gates[0]) else ByName(gates[1..], name)
  }

  /** Python's `int` of a float. */
  function Truncate(x: real): int {
    if x < 0.0 then -(-x).Floor else x.Floor
  }

  /** `sanity_trade_floor`; none where it raises. */
  function TradeFloor(gates: seq<Gate>): Option<int> {
    var m := ByName(gates, "min_trades");
    if (m.None? || m.value.metric != "n_trades") && exists g :: g in gates && g.metric == "n_trades_over_min_trl" then
      Some(MIN_TRL_FLOOR)
    else if m.Some? then Some(Truncate(m.value.threshold))
    else None
  }

  lemma {:induction false} ByNameFound(gates: seq<Gate>, name: string)
    ensures ByName(gates, name).Some? ==> ByName(gates, name).value in gates && ByName(gates, name).value.name == name
  {
    if gates != [] {
      ByNameFound(gates[1..], name);
      assert gates == [gates[0]] + gates[1..];
    }
  }

  /** The gates a floor may come from bound the trades from below at rung 0, as in every gate set
      of the repository. */
  ghost predicate BoundsTrades(gates: seq<Gate>) {
    forall g :: g in gates ==>
      && (g.name == "min_trades" ==> g.metric == "n_trades" && g.rung == 0 && g.comparison == GTE && 0.0 <= g.threshold)
      && (g.metric == "n_trades_over_min_trl" ==> g.rung == 0 && g.comparison == GTE && 1.0 <= g.threshold)
  }

  /** The floor a gate set implies comes from one of its own gates. */
  lemma {:induction false} TradeFloorHasGate(gates: seq<Gate>) returns (g: Gate)
    requires BoundsTrades(gates) && TradeFloor(gates).Some?
    ensures g in gates && TradeGate(g, TradeFloor(gates).value)
    ensures g.metric == "n_trades" ==>
      TradeFloor(gates).value as real <= g.threshold < TradeFloor(gates).value as real + 1.0
    ensures g.metric == "n_trades_over_min_trl" ==> TradeFloor(gates).value == 150
  {
    var m := ByName(gates, "min_trades");
    ByNameFound(gates, "min_trades");
    if m.Some? {
      g := m.value;
      assert g in gates;
    } else {
      g :| g in gates && g.metric == "n_trades_over_min_trl";
    }
  }

  /** One measurement under any floor no higher than those the gate sets imply serves them all:
      each set's report is the one its own fail-fast ladder, at its own floor, would have given. */
  lemma {:induction false} OneMeasurementServesAll(b: Baseline, low: int, rest: seq<Rung>, sets: seq<seq<Gate>>, k: nat)
    requires k < |sets| && Ran(rest)
    requires forall i :: 0 <= i < |sets| ==>
      && BoundsTrades(sets[i]) && TradeFloor(sets[i]).Some? && low <= TradeFloor(sets[i]).value
      && Settled(LadderAt(b, low, rest), sets[i])
    ensures Measured(Measure(LadderAt(b, low, rest)), sets[k])
            == FailFast(LadderAt(b, TradeFloor(sets[k]).value, rest), sets[k])
  {
    var g := TradeFloorHasGate(sets[k]);
    MeasuringAcrossFloors(b, low, TradeFloor(sets[k]).value, rest, sets[k], g);
  }

  lemma {:induction false} BelowBar(sample: real, bar: real, threshold: real)
    requires sample < bar && 0.0 < bar && 1.0 <= threshold
    ensures sample / bar < threshold
  {
    assert sample == (sample / bar) * bar;
  }

  /** Below the floor the gate it comes from blocks. */
  lemma {:induction false} TradeGateBlocks(b: Baseline, floor: int, g: Gate)
    requires TradeGate(g, floor) && b.sample < floor as real
    ensures Blocks(Evaluate(g, SanityRung(b, floor).writes, {}))
  {
    if g.metric == "n_trades_over_min_trl" && b.minTrl.Some? {
      var bar := if b.minTrl.value < MIN_TRL_FLOOR as real then MIN_TRL_FLOOR as real else b.minTrl.value;
      BelowBar(b.sample, bar, g.threshold);
    }
  }

  lemma {:induction false} BlockingFound(gates: seq<Gate>, g: Gate, values: Values, na: set<string>)
    requires g in gates && Blocks(Evaluate(g, values, na))
    ensures BlockingAt(gates, g.rung, values, na).Some?
  {
    if g != gates[0] {
      BlockingFound(gates[1..], g, values, na);
    }
  }

  lemma {:induction false} FirstRungWrites(b: Baseline, floor: int, rest: seq<Rung>)
    ensures ValuesAfter(LadderAt(b, floor, rest), 1) == SanityRung(b, floor).writes
    ensures NaAfter(LadderAt(b, floor, rest), 1) == {}
  {
    assert ValuesAfter(LadderAt(b, floor, rest), 0) == map[];
  }

  /** A lower floor at rung 0 changes no judgement: what it lets through is stopped there by
      the gate the floor came from, and named the same way. */
  lemma {:induction false} FloorImmaterial(b: Baseline, low: int, floor: int, rest: seq<Rung>, gates: seq<Gate>, g: Gate)
    requires low <= floor && g in gates && TradeGate(g, floor)
    ensures FailFast(LadderAt(b, low, rest), gates) == FailFast(LadderAt(b, floor, rest), gates)
  {
    var one, two := LadderAt(b, low, rest), LadderAt(b, floor, rest);
    if one[0].own == two[0].own {
      assert one == two;
    } else {
      FirstRungWrites(b, low, rest);
      FirstRungWrites(b, floor, rest);
      TradeGateBlocks(b, floor, g);
      BlockingFound(gates, g, SanityRung(b, floor).writes, {});
      assert Stops(one, gates, 0) && Stops(two, gates, 0);
      assert OutcomesAt(one, 0) == OutcomesAt(two, 0);
      assert Labels(one) == Labels(two);
    }
  }

  /** One measurement at the lowest floor, judged under a gate set with a higher one, says what
      that set's own fail-fast ladder would have said. */
  lemma {:induction false} MeasuringAcrossFloors(b: Baseline, low: int, floor: int, rest: seq<Rung>, gates: seq<Gate>, g: Gate)
    requires low <= floor && g in gates && TradeGate(g, floor)
    requires Ran(rest) && Settled(LadderAt(b, low, rest), gates)
    ensures Measured(Measure(LadderAt(b, low, rest)), gates) == FailFast(LadderAt(b, floor, rest), gates)
  {
    MeasuringIsFailFast(LadderAt(b, low, rest), gates);
    FloorImmaterial(b, low, floor, rest, gates, g);
  }

  /** And so does `judge_rows` on the row recorded from it. */
  lemma {:induction false} JudgeRowsAcrossFloors(
    b: Baseline, low: int, floor: int, rest: seq<Rung>, gates: seq<Gate>, g: Gate, known: seq<Gate>)
    requires low <= floor && g in gates && TradeGate(g, floor)
    requires Ran(rest) && Settled(LadderAt(b, low, rest), gates)
    requires var m := Measure(LadderAt(b, low, rest)); forall h :: h in gates ==> Survives(known, m.values, m.na, h)
    ensures var m := Measure(LadderAt(b, low, rest));
            Judge(Recorded(m, known), gates) == FailFast(LadderAt(b, floor, rest), gates) <==> !OpenOffLadder(m, gates)
  {
    JudgeRowsIsFailFast(LadderAt(b, low, rest), gates, known);
    FloorImmaterial(b, low, floor, rest, gates, g);
  }

  // ---------------------------------------------------------------- removing a gate

  function Without(gates: seq<Gate>, name: string): seq<Gate> {
    if gates == [] then []
    else (if gates[0].name == name then [] else [gates[0]]) + Without(gates[1..], name)
  }

  predicate Promoted(row: Measurement, gates: seq<Gate>)
    requires |row.labels| == |row.outcomes|
  {
    Judge(row, gates).verdict == Promote
  }

  /** Promotion is exactly: no rung failed or erred, and every gate does not apply or has a value
      on its side of the threshold. */
  lemma {:induction false} PromotedExactly(row: Measurement, gates: seq<Gate>)
    requires |row.labels| == |row.outcomes|
    ensures Promoted(row, gates) <==>
      && (forall i :: 0 <= i < |row.outcomes| ==> row.outcomes[i] != Fail && row.outcomes[i] != Error)
      && (forall g :: g in gates ==> Clears(g, row.values, row.na))
  {
    BindingIsFirst(gates, row.values, row.na);
    NoneFails(row.outcomes);
  }

  lemma {:induction false} NoneFails(outcomes: seq<Outcome>)
    ensures FirstFailing(outcomes).None? <==>
            forall i :: 0 <= i < |outcomes| ==> outcomes[i] != Fail && outcomes[i] != Error
  {
    if outcomes != [] {
      NoneFails(outcomes[1..]);
      assert forall i :: 0 < i < |outcomes| ==> outcomes[i] == outcomes[1..][i - 1];
    }
  }

  function PromotedCount(rows: seq<Measurement>, gates: seq<Gate>): nat
    requires forall i :: 0 <= i < |rows| ==> |rows[i].labels| == |rows[i].outcomes|
  {
    if rows == [] then 0
    else
      var n := |rows| - 1;
      PromotedCount(rows[..n], gates) + (if Promoted(rows[n], gates) then 1 else 0)
  }

  /** No rung of the row failed, and every gate, but for those of the given name, clears. */
  ghost predicate Stands(row: Measurement, gates: seq<Gate>, but: Option<string>) {
    && (forall k :: 0 <= k < |row.outcomes| ==> row.outcomes[k] != Fail && row.outcomes[k] != Error)
    && (forall g :: g in gates && Some(g.name) != but ==> Clears(g, row.values, row.na))
  }

  /** The positions of the rows left standing. */
  ghost function Standing(rows: seq<Measurement>, gates: seq<Gate>, but: Option<string>): set<int> {
    set i | 0 <= i < |rows| && Stands(rows[i], gates, but)
  }

  lemma {:induction false} StandingSnoc(rows: seq<Measurement>, gates: seq<Gate>, n: nat)
    requires |rows| == n + 1
    ensures Standing(rows, gates, None)
            == Standing(rows[..n], gates, None) + (if Stands(rows[n], gates, None) then {n} else {})
    ensures n !in Standing(rows[..n], gates, None)
  {
    forall i ensures i in Standing(rows, gates, None) && i != n <==> i in Standing(rows[..n], gates, None) {
      assert 0 <= i < n ==> rows[..n][i] == rows[i];
    }
  }

  lemma {:induction false} PromotedStands(row: Measurement, gates: seq<Gate>)
    requires |row.labels| == |row.outcomes|
    ensures Promoted(row, gates) <==> Stands(row, gates, None)
  {
    PromotedExactly(row, gates);
    if Promoted(row, gates) {
      assert Stands(row, gates, None);
    }
    if Stands(row, gates, None) {
      forall g | g in gates ensures Clears(g, row.values, row.na) {
        assert Some(g.name) != None;
      }
    }
  }

  /** The promoted count is the number of rows left standing by every gate. */
  lemma {:induction false} PromotedCounted(rows: seq<Measurement>, gates: seq<Gate>)
    requires forall i :: 0 <= i < |rows| ==> |rows[i].labels| == |rows[i].outcomes|
    ensures PromotedCount(rows, gates) == |Standing(rows, gates, None)|
  {
    if rows != [] {
      var n := |rows| - 1;
      PromotedCounted(rows[..n], gates);
      PromotedStands(rows[n], gates);
      StandingSnoc(rows, gates, n);
    }
  }

  lemma {:induction false} WithoutMembers(gates: seq<Gate>, name: string)
    ensures forall g :: g in Without(gates, name) <==> g in gates && g.name != name
  {
    if gates != [] {
      WithoutMembers(gates[1..], name);
      assert gates == [gates[0]] + gates[1..];
    }
  }

  lemma {:induction false} StandsWithout(row: Measurement, gates: seq<Gate>, name: string)
    ensures Stands(row, Without(gates, name), None) <==> Stands(row, gates, Some(name))
    ensures Stands(row, gates, None) ==> Stands(row, gates, Some(name))
  {
    WithoutMembers(gates, name);
    if Stands(row, Without(gates, name), None) {
      forall g | g in gates && Some(g.name) != Some(name) ensures Clears(g, row.values, row.na) {
        assert g in Without(gates, name) && Some(g.name) != None;
      }
    }
    if Stands(row, gates, None) {
      forall g | g in gates ensures Clears(g, row.values, row.na) {
        assert Some(g.name) != None;
      }
    }
  }

  lemma {:induction false} SubsetCount(a: set<int>, b: set<int>)
    requires a <= b
    ensures |a| <= |b|
  {
    assert b == a + (b - a);
  }

  /** In the gate-removal table the count without a gate is the number of rows that only this gate
      could have rejected, so removing it never lowers a count. */
  lemma {:induction false} RemovalNeverLowers(rows: seq<Measurement>, gates: seq<Gate>, name: string)
    requires forall i :: 0 <= i < |rows| ==> |rows[i].labels| == |rows[i].outcomes|
    ensures PromotedCount(rows, Without(gates, name)) == |Standing(rows, gates, Some(name))|
    ensures PromotedCount(rows, gates) <= PromotedCount(rows, Without(gates, name))
  {
    PromotedCounted(rows, gates);
    PromotedCounted(rows, Without(gates, name));
    forall i | 0 <= i < |rows|
      ensures Stands(rows[i], Without(gates, name), None) <==> Stands(rows[i], gates, Some(name))
      ensures Stands(rows[i], gates, None) ==> Stands(rows[i], gates, Some(name))
    {
      StandsWithout(rows[i], gates, name);
    }
    assert Standing(rows, Without(gates, name), None) == Standing(rows, gates, Some(name));
    SubsetCount(Standing(rows, gates, None), Standing(rows, gates, Some(name)));
  }

  /** A gate of no rung of the ladder is where the two part: its missing metric leaves the
      report incomplete, and the closed form rejects. */
  lemma {:induction false} GateOffTheLadderDisagrees()
    ensures var rungs := [Rung("RUNG 0 SANITY", Pass, map[], {})];
            var gates := [Gate("holdout", "holdout_sharpe", GT, 0.0, 6)];
            && Judge(Recorded(Measure(rungs), gates), gates) == Judgement(Reject, ByGate("holdout"))
            && FailFast(rungs, gates) == Judgement(Incomplete, ByGate("holdout"))
  {
    var rungs := [Rung("RUNG 0 SANITY", Pass, map[], {})];
    var gates := [Gate("holdout", "holdout_sharpe", GT, 0.0, 6)];
    assert StopFrom(rungs, gates, 0) == 1 == OwnStop(rungs, 0);
    AllReached(OutcomesAt(rungs, 1));
    assert ValuesAfter(rungs, 1) == map[] && NaAfter(rungs, 1) == {};
  }
}
