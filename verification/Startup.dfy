/**
  The startup gate of pkg/observability/health/health_endpoint.go: which probes
  open it, and what readiness then depends on.  Which checkers pass their storage
  check at a given moment is an input.
 */
module Startup {
  import opened Wrappers

  type Checker = nat

  datatype Gate = Gate(checkers: seq<Checker>, composite: Option<seq<Checker>>, startupComplete: bool)

  datatype Event =
    | Provision
    | Add(checker: Option<Checker>)
    | StartupProbe(passing: set<Checker>)
    | ReadinessProbe(passing: set<Checker>)

  predicate AllPass(checkers: seq<Checker>, passing: set<Checker>) {
    forall c :: c in checkers ==> c in passing
  }

  /** The storage check of the composite, which is skipped when there is none. */
  predicate CompositePasses(composite: Option<seq<Checker>>, passing: set<Checker>) {
    composite.None? || AllPass(composite.value, passing)
  }

  function Compose(checkers: seq<Checker>, composite: Option<seq<Checker>>): Option<seq<Checker>> {
    if |checkers| > 0 then Some(checkers) else composite
  }

  /** The gate after an event, and the verdict of a probe. */
  function Step(g: Gate, ev: Event): (Gate, bool) {
    match ev
    case Provision => (Gate(g.checkers, Compose(g.checkers, g.composite), g.checkers == []), true)
    case Add(None) => (g, true)
    case Add(Some(c)) =>
      var checkers := g.checkers + [c];
      (Gate(checkers, Compose(checkers, g.composite), g.startupComplete), true)
    case StartupProbe(passing) =>
      var complete := g.startupComplete || CompositePasses(g.composite, passing);
      (g.(startupComplete := complete), complete)
    case ReadinessProbe(passing) => (g, g.startupComplete && CompositePasses(g.composite, passing))
  }

  class Endpoint {
    var checkers: seq<Checker>
    var composite: Option<seq<Checker>>
    var startupComplete: bool

    ghost function State(): Gate
      reads this
    {
      Gate(checkers, composite, startupComplete)
    }

    constructor ()
      ensures State() == Gate([], None, false)
    {
      checkers, composite, startupComplete := [], None, false;
    }

    method Provision()
      modifies this
      ensures State() == Step(old(State()), Event.Provision).0
      ensures checkers == old(checkers) && (startupComplete <==> checkers == [])
    {
      startupComplete := false;
      if |checkers| > 0 {
        composite := Some(checkers);
      }
      if |checkers| == 0 {
        startupComplete := true;
      }
    }

    method AddHealthChecker(checker: Option<Checker>)
      modifies this
      ensures State() == Step(old(State()), Add(checker)).0
      ensures checker.None? ==> State() == old(State())
      ensures checker.Some? ==> checkers == old(checkers) + [checker.value] && composite == Some(checkers)
      ensures startupComplete == old(startupComplete)
    {
      if checker.None? {
        return;
      }
      checkers := checkers + [checker.value];
      if |checkers| > 0 {
        composite := Some(checkers);
      }
    }

    method TryCompleteStartup(passing: set<Checker>) returns (complete: bool)
      modifies this`startupComplete
      ensures complete <==> (composite.Some? ==> forall c :: c in composite.value ==> c in passing)
      ensures startupComplete == (old(startupComplete) || complete)
    {
      if composite.Some? {
        var healthy := forall c :: c in composite.value ==> c in passing;
        if !healthy {
          return false;
        }
      }
      startupComplete := true;
      return true;
    }

    method ServeStartup(passing: set<Checker>) returns (healthy: bool)
      modifies this
      ensures Step(old(State()), StartupProbe(passing)) == (State(), healthy)
      ensures healthy <==> old(startupComplete) || (composite.Some? ==> forall c :: c in composite.value ==> c in passing)
      ensures startupComplete == healthy && checkers == old(checkers) && composite == old(composite)
    {
      healthy := startupComplete;
      if !healthy {
        healthy := TryCompleteStartup(passing);
      }
    }

    method ServeReadiness(passing: set<Checker>) returns (healthy: bool)
      ensures Step(State(), ReadinessProbe(passing)) == (State(), healthy)
      ensures healthy <==> startupComplete && (composite.Some? ==> forall c :: c in composite.value ==> c in passing)
    {
      if !startupComplete {
        return false;
      }
      if composite.Some? {
        return forall c :: c in composite.value ==> c in passing;
      }
      return true;
    }
  }

  // ------------------------------------------------------------------ runs

  /** A life of one handler: checkers may be added before `Provision`, which comes once, at `start`. */
  ghost predicate Life(gates: seq<Gate>, evs: seq<Event>, verdicts: seq<bool>, start: nat) {
    && |gates| == |evs| + 1 && |verdicts| == |evs| && start < |evs|
    && gates[0] == Gate([], None, false)
    && (forall i :: 0 <= i < |evs| ==> Step(gates[i], evs[i]) == (gates[i + 1], verdicts[i]))
    && (forall i :: 0 <= i < start ==> evs[i].Add?)
    && evs[start].Provision?
    && (forall i :: start < i < |evs| ==> !evs[i].Provision?)
  }

  /** The checkers added by the first `i` events, in order. */
  function Registered(evs: seq<Event>, i: nat): seq<Checker>
    requires i <= |evs|
  {
    if i == 0 then []
    else
      var before := Registered(evs, i - 1);
      if evs[i - 1].Add? && evs[i - 1].checker.Some? then before + [evs[i - 1].checker.value] else before
  }

  /** The gate knows exactly the checkers added so far, and has a composite of them unless there are none. */
  lemma {:induction false} CompositeIsCurrent(gates: seq<Gate>, evs: seq<Event>, verdicts: seq<bool>, start: nat, i: nat)
    requires Life(gates, evs, verdicts, start) && i < |gates|
    ensures gates[i].checkers == Registered(evs, i)
    ensures gates[i].composite == if Registered(evs, i) == [] then None else Some(Registered(evs, i))
    decreases i
  {
    if i > 0 {
      CompositeIsCurrent(gates, evs, verdicts, start, i - 1);
      assert Step(gates[i - 1], evs[i - 1]) == (gates[i - 1 + 1], verdicts[i - 1]);
    }
  }

  /** Once open after `Provision`, the gate never closes. */
  lemma {:induction false} StartupNeverReverts(gates: seq<Gate>, evs: seq<Event>, verdicts: seq<bool>, start: nat, i: nat, j: nat)
    requires Life(gates, evs, verdicts, start) && start < i <= j < |gates| && gates[i].startupComplete
    ensures gates[j].startupComplete
    decreases j
  {
    if i < j {
      StartupNeverReverts(gates, evs, verdicts, start, i, j - 1);
      assert Step(gates[j - 1], evs[j - 1]) == (gates[j - 1 + 1], verdicts[j - 1]);
    }
  }

  /** What opened the gate by step `i`, in terms of the events alone. */
  ghost predicate Opened(evs: seq<Event>, start: nat, i: nat)
    requires start < |evs|
  {
    || Registered(evs, start) == []
    || exists p :: start < p < i && p < |evs| && evs[p].StartupProbe? && AllPass(Registered(evs, p), evs[p].passing)
  }

  /**
    The gate is open exactly if no checker was added before `Provision` or some
    later startup probe saw every checker added by then pass.
   */
  lemma {:induction false} StartupTheorem(gates: seq<Gate>, evs: seq<Event>, verdicts: seq<bool>, start: nat, i: nat)
    requires Life(gates, evs, verdicts, start) && start < i < |gates|
    ensures gates[i].startupComplete <==> Opened(evs, start, i)
    decreases i
  {
    var k := i - 1;
    assert Step(gates[k], evs[k]) == (gates[k + 1], verdicts[k]);
    CompositeIsCurrent(gates, evs, verdicts, start, k);
    if k != start {
      StartupTheorem(gates, evs, verdicts, start, k);
    }
  }

  /**
    A startup probe is healthy exactly if the gate is open after it; readiness is
    healthy exactly if the gate is open and every checker added so far passes now.
   */
  lemma ProbeTheorem(gates: seq<Gate>, evs: seq<Event>, verdicts: seq<bool>, start: nat, i: nat)
    requires Life(gates, evs, verdicts, start) && start < i < |evs|
    ensures evs[i].StartupProbe? ==> (verdicts[i] <==> Opened(evs, start, i + 1))
    ensures evs[i].ReadinessProbe? ==>
              (verdicts[i] <==> Opened(evs, start, i) && AllPass(Registered(evs, i), evs[i].passing))
  {
    assert Step(gates[i], evs[i]) == (gates[i + 1], verdicts[i]);
    StartupTheorem(gates, evs, verdicts, start, i);
    StartupTheorem(gates, evs, verdicts, start, i + 1);
    CompositeIsCurrent(gates, evs, verdicts, start, i);
  }
}
