/** `Semaphore`: a counting semaphore with a first-in-first-out queue, as a class and as the
    machine of all interleavings of its callers. */
module Semaphores {
  import opened Options

  type Caller = nat

  /** The two fields. */
  datatype Fields = Fields(available: int, queue: seq<Caller>)

  /** `acquire`: whether the permit is given at once, and the fields after. */
  function Acquired(f: Fields, c: Caller): (bool, Fields) {
    if f.available > 0 then (true, f.(available := f.available - 1))
    else (false, f.(queue := f.queue + [c]))
  }

  /** `release`: who is handed the permit, if anyone, and the fields after. */
  function Released(f: Fields): (Option<Caller>, Fields) {
    if f.queue != [] then (Some(f.queue[0]), f.(queue := f.queue[1..]))
    else (None, f.(available := f.available + 1))
  }

  ghost predicate Distinct(xs: seq<Caller>) {
    forall i, j | 0 <= i < j < |xs| :: xs[i] != xs[j]
  }

  /** A caller is one call of `run`; `holders` are those between their permit and its release. */
  class Semaphore {
    const maxConcurrent: int
    var available: int
    var queue: seq<Caller>
    ghost var holders: set<Caller>

    /** Permits are conserved, none is free while someone waits, and nobody waits twice or waits while
        holding a permit. */
    ghost predicate Valid()
      reads this
    {
      && |holders| + available == maxConcurrent
      && (queue != [] ==> available <= 0)
      && Distinct(queue) && forall c | c in queue :: c !in holders
    }

    function Contents(): Fields
      reads this
    {
      Fields(available, queue)
    }

    constructor (maxConcurrent: int)
      ensures this.maxConcurrent == maxConcurrent && Contents() == Fields(maxConcurrent, [])
      ensures Valid() && holders == {}
    {
      this.maxConcurrent := maxConcurrent;
      available, queue, holders := maxConcurrent, [], {};
    }

    /** The caller holds a permit at once exactly if fewer than `maxConcurrent` do, else it waits behind
        everyone who waits. */
    method Acquire(c: Caller) returns (immediate: bool)
      requires Valid() && c !in holders && c !in queue
      modifies this
      ensures Valid() && (immediate, Contents()) == Acquired(old(Contents()), c)
      ensures immediate <==> |old(holders)| < maxConcurrent
      ensures holders == (if immediate then old(holders) + {c} else old(holders))
      ensures queue == (if immediate then old(queue) else old(queue) + [c])
    {
      if available > 0 {
        available := available - 1;
        holders := holders + {c};
        return true;
      }
      queue := queue + [c];
      return false;
    }

    /** The permit of holder `c` passes to whoever has waited longest, or becomes free. */
    method Release(ghost c: Caller) returns (next: Option<Caller>)
      requires Valid() && c in holders
      modifies this
      ensures Valid() && (next, Contents()) == Released(old(Contents()))
      ensures next.None? <==> old(queue) == []
      ensures next.Some? ==> old(queue) == [next.value] + queue
      ensures holders == old(holders) - {c} + (if next.Some? then {next.value} else {})
      ensures |holders| == |old(holders)| - (if next.None? then 1 else 0)
    {
      if queue != [] {
        next := Some(queue[0]);
        assert queue[0] in queue;
        queue := queue[1..];
        holders := holders - {c} + {next.value};
      } else {
        next := None;
        available := available + 1;
        holders := holders - {c};
      }
    }
  }

  // ----- all interleavings --------------------------------------------------------------

  /** `granted` holds a permit but has not resumed yet; `calls` and `grants` are the order in
      which `run` was called and in which permits were given. */
  datatype State = State(max: int, fields: Fields, granted: set<Caller>, running: set<Caller>,
                         calls: seq<Caller>, grants: seq<Caller>)

  datatype Event =
    | Call(caller: Caller)      // run() is called and reaches acquire()
    | Resume(caller: Caller)    // the awaited promise is seen to be resolved, fn() starts
    | Finish(caller: Caller)    // fn() returns or throws, and release() runs

  function Init(max: int): State {
    State(max, Fields(max, []), {}, {}, [], [])
  }

  /** A caller calls once, resumes once it holds a permit and finishes once it runs. */
  predicate Enabled(s: State, e: Event) {
    match e
    case Call(c) => c !in s.calls
    case Resume(c) => c in s.granted
    case Finish(c) => c in s.running
  }

  function Step(s: State, e: Event): State
    requires Enabled(s, e)
  {
    match e
    case Call(c) =>
      var (immediate, f) := Acquired(s.fields, c);
      if immediate then s.(fields := f, calls := s.calls + [c], granted := s.granted + {c}, grants := s.grants + [c])
      else s.(fields := f, calls := s.calls + [c])
    case Resume(c) =>
      s.(granted := s.granted - {c}, running := s.running + {c})
    case Finish(c) =>
      var (next, f) := Released(s.fields);
      if next.Some?
      then s.(fields := f, running := s.running - {c},
              granted := s.granted + {next.value}, grants := s.grants + [next.value])
      else s.(fields := f, running := s.running - {c})
  }

  predicate Possible(s: State, es: seq<Event>)
    decreases |es|
  {
    es == [] || (Enabled(s, es[0]) && Possible(Step(s, es[0]), es[1..]))
  }

  function Run(s: State, es: seq<Event>): State
    requires Possible(s, es)
    decreases |es|
  {
    if es == [] then s else Run(Step(s, es[0]), es[1..])
  }

  /** Permits are conserved, none is idle while someone waits, and callers that have called are
      exactly those granted, in order, followed by those queued, in order. */
  ghost predicate Inv(s: State) {
    && |s.granted| + |s.running| + s.fields.available == s.max
    && (s.fields.queue != [] ==> s.fields.available <= 0)
    && s.calls == s.grants + s.fields.queue
    && Distinct(s.calls)
    && s.granted !! s.running
    && (forall c | c in s.granted || c in s.running :: c in s.grants)
  }

  lemma CallInv(s: State, c: Caller)
    requires Inv(s) && c !in s.calls
    ensures Inv(Step(s, Call(c)))
  {
    assert c !in s.grants;
    assert Distinct(s.calls + [c]);
  }

  lemma ResumeInv(s: State, c: Caller)
    requires Inv(s) && c in s.granted
    ensures Inv(Step(s, Resume(c)))
  {
  }

  lemma HeadNotGranted(s: State)
    requires Inv(s) && s.fields.queue != []
    ensures s.fields.queue[0] !in s.grants
  {
    assert s.calls[|s.grants|] == s.fields.queue[0];
    forall i | 0 <= i < |s.grants| ensures s.grants[i] != s.fields.queue[0] { assert s.calls[i] == s.grants[i]; }
  }

  lemma FinishInv(s: State, c: Caller)
    requires Inv(s) && c in s.running
    ensures Inv(Step(s, Finish(c)))
  {
    if s.fields.queue != [] {
      HeadNotGranted(s);
      assert s.grants + s.fields.queue == s.grants + [s.fields.queue[0]] + s.fields.queue[1..];
    }
  }

  lemma StepInv(s: State, e: Event)
    requires Inv(s) && Enabled(s, e)
    ensures Inv(Step(s, e))
  {
    match e
    case Call(c) => CallInv(s, c);
    case Resume(c) => ResumeInv(s, c);
    case Finish(c) => FinishInv(s, c);
  }

  /** In every interleaving. */
  lemma {:induction false} RunInv(s: State, es: seq<Event>)
    requires Inv(s) && Possible(s, es)
    ensures Inv(Run(s, es)) && Run(s, es).max == s.max
    decreases |es|
  {
    if es != [] {
      StepInv(s, es[0]);
      RunInv(Step(s, es[0]), es[1..]);
    }
  }

  /** What the invariant means for users: at most `max` callers hold a permit, a waiter implies
      that they all do, and permits were given in the order of the calls, with no overtaking. */
  lemma Guarantees(max: int, es: seq<Event>)
    requires Possible(Init(max), es)
    ensures var s := Run(Init(max), es);
            && (max >= 0 ==> |s.running + s.granted| <= max)
            && (max >= 0 && s.fields.queue != [] ==> |s.running + s.granted| == max)
            && s.grants <= s.calls
  {
    RunInv(Init(max), es);
    var s := Run(Init(max), es);
    assert |s.running + s.granted| == |s.running| + |s.granted|;
    if max >= 0 { AvailableNotNegative(Init(max), es); }
  }

  lemma {:induction false} AvailableNotNegative(s: State, es: seq<Event>)
    requires Possible(s, es) && s.fields.available >= 0
    ensures Run(s, es).fields.available >= 0
    decreases |es|
  {
    if es != [] { AvailableNotNegative(Step(s, es[0]), es[1..]); }
  }

  // ----- how long a waiter waits ---------------------------------------------------------

  function Releases(es: seq<Event>): nat {
    if es == [] then 0 else (if es[0].Finish? then 1 else 0) + Releases(es[1..])
  }

  /** One step moves a waiter up by one place if it is a release, and not at all if it is not. */
  lemma MovesUp(s: State, e: Event, k: nat)
    requires Inv(s) && Enabled(s, e) && k < |s.fields.queue|
    ensures var c, q := s.fields.queue[k], Step(s, e).fields.queue;
            if !e.Finish? then k < |q| && q[k] == c
            else if k > 0 then k - 1 < |q| && q[k - 1] == c
            else c in Step(s, e).grants
  {
    var s' := Step(s, e);
    if e.Finish? && k == 0 { assert s'.grants[|s'.grants| - 1] == s.fields.queue[0]; }
  }

  /** A waiter with `k` callers ahead of it is granted by exactly the (k+1)th release from now:
      after fewer it still waits, with that many fewer ahead, and after more it has its permit. */
  lemma {:induction false} GrantedByTheRightRelease(s: State, es: seq<Event>, k: nat)
    requires Inv(s) && Possible(s, es) && k < |s.fields.queue|
    ensures var c, q := s.fields.queue[k], Run(s, es).fields.queue;
            if Releases(es) <= k then k - Releases(es) < |q| && q[k - Releases(es)] == c
            else c !in q && c in Run(s, es).grants
    decreases |es|
  {
    if es != [] {
      var s' := Step(s, es[0]);
      StepInv(s, es[0]);
      MovesUp(s, es[0], k);
      if es[0].Finish? && k == 0 {
        StaysGranted(s', es[1..], s.fields.queue[0]);
      } else {
        GrantedByTheRightRelease(s', es[1..], if es[0].Finish? then k - 1 else k);
      }
    }
  }

  lemma {:induction false} StaysGranted(s: State, es: seq<Event>, c: Caller)
    requires Inv(s) && Possible(s, es) && c in s.grants
    ensures c in Run(s, es).grants && c !in Run(s, es).fields.queue
    decreases |es|
  {
    if es == [] {
      var i :| 0 <= i < |s.grants| && s.grants[i] == c;
      forall j | 0 <= j < |s.fields.queue| ensures s.fields.queue[j] != c {
        assert s.calls[i] == c && s.calls[|s.grants| + j] == s.fields.queue[j];
      }
    } else {
      StepInv(s, es[0]);
      StaysGranted(Step(s, es[0]), es[1..], c);
    }
  }

  /** While anyone waits someone holds a permit, so that a release is still to come. */
  lemma WaitersAreNotAbandoned(s: State)
    requires Inv(s) && s.max > 0 && s.fields.queue != []
    ensures s.granted + s.running != {}
  {
    assert |s.granted| + |s.running| > 0;
  }
}
