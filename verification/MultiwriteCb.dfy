/** The life of a multiwrite (block.c): submission, completions that may come early, and the
    control block that counts them, as a state machine over every interleaving. */
module MultiwriteCb {
  import opened Errno

  /** Where bdrv_aio_multiwrite is: before request i; inside bdrv_aio_writev for request i, which
      the driver may already have taken; about to complete the dummy request; or back. */
  datatype Phase = Ready(i: nat) | Calling(i: nat, taken: bool) | Stopped | Returned(ret: int)

  /** `outstanding` counts the requests that the driver has taken and not completed, `results`
      records what multiwrite_cb was called with, and `wild` any use of the control block after
      it was freed. */
  datatype State = State(
    error: int, numRequests: int, callbacks: seq<nat>, freed: bool,
    total: nat, phase: Phase, outstanding: nat,
    results: seq<int>, calls: seq<(nat, int)>, wild: bool)

  datatype Event =
    | Begin            // num_requests is raised and bdrv_aio_writev called
    | Take             // the driver accepts the request
    | Done(ret: int)   // the driver completes one of the requests it has taken
    | Accepted         // bdrv_aio_writev returns an AIOCB
    | Rejected         // bdrv_aio_writev returns NULL
    | Finish           // the dummy request is completed

  function Initial(callbacks: seq<nat>, total: nat): State {
    State(0, 1, callbacks, false, total, Ready(0), 0, [], [], false)
  }

  function Calls(callbacks: seq<nat>, error: int): (r: seq<(nat, int)>)
    ensures |r| == |callbacks|
  {
    seq(|callbacks|, i requires 0 <= i < |callbacks| => (callbacks[i], error))
  }

  /** multiwrite_cb. */
  function Complete(s: State, ret: int): State {
    var error := if ret < 0 && s.error == 0 then ret else s.error;
    var t := s.(error := error, numRequests := s.numRequests - 1, results := s.results + [ret], wild := s.wild || s.freed);
    if t.numRequests == 0 then t.(calls := t.calls + Calls(t.callbacks, error), freed := true) else t
  }

  predicate Enabled(s: State, e: Event) {
    match e
    case Begin => s.phase.Ready? && s.phase.i < s.total
    case Take => s.phase.Calling? && !s.phase.taken
    case Done(_) => s.outstanding > 0
    case Accepted => s.phase.Calling? && s.phase.taken
    case Rejected => s.phase.Calling? && !s.phase.taken
    case Finish => s.phase.Stopped? || s.phase == Ready(s.total)
  }

  function Step(s: State, e: Event): State
    requires Enabled(s, e)
  {
    match e
    case Begin => s.(numRequests := s.numRequests + 1, phase := Calling(s.phase.i, false), wild := s.wild || s.freed)
    case Take => s.(phase := Calling(s.phase.i, true), outstanding := s.outstanding + 1)
    case Done(ret) => Complete(s.(outstanding := s.outstanding - 1), ret)
    case Accepted => s.(phase := Ready(s.phase.i + 1))
    case Rejected =>
      if s.phase.i == 0 then s.(phase := Returned(-1), freed := true, wild := s.wild || s.freed)
      else Complete(s, -EIO).(phase := Stopped)
    case Finish => Complete(s, 0).(phase := Returned(0))
  }

  predicate Possible(s: State, run: seq<Event>)
    decreases |run|
  {
    run == [] || (Enabled(s, run[0]) && Possible(Step(s, run[0]), run[1..]))
  }

  function Run(s: State, run: seq<Event>): State
    requires Possible(s, run)
    decreases |run|
  {
    if run == [] then s else Run(Step(s, run[0]), run[1..])
  }

  /** The first negative result, or 0. */
  function FirstNegative(results: seq<int>): (r: int)
    ensures r <= 0
    ensures r == 0 <==> forall i :: 0 <= i < |results| ==> results[i] >= 0
    ensures r < 0 ==> exists i :: 0 <= i < |results| && results[i] == r && forall j :: 0 <= j < i ==> results[j] >= 0
  {
    if results == [] then 0 else if results[0] < 0 then results[0]
    else
      var r := FirstNegative(results[1..]);
      assert r < 0 ==> exists i :: 0 <= i < |results| && results[i] == r && forall j :: 0 <= j < i ==> results[j] >= 0 by {
        if r < 0 {
          var k :| 0 <= k < |results[1..]| && results[1..][k] == r && forall j :: 0 <= j < k ==> results[1..][j] >= 0;
          assert results[k + 1] == r;
          assert forall j :: 0 <= j < k + 1 ==> results[j] >= 0 by {
            forall j | 0 < j < k + 1 ensures results[j] >= 0 { assert results[j] == results[1..][j - 1]; }
          }
        }
      }
      r
  }

  lemma {:induction false} FirstNegativeSnoc(results: seq<int>, ret: int)
    ensures FirstNegative(results + [ret]) ==
            if ret < 0 && FirstNegative(results) == 0 then ret else FirstNegative(results)
  {
    if results == [] {
      assert [] + [ret] == [ret] && [ret][1..] == [];
    } else {
      FirstNegativeSnoc(results[1..], ret);
      assert (results + [ret])[1..] == results[1..] + [ret];
    }
  }

  /** What every reachable state satisfies. */
  ghost predicate Inv(s: State) {
    && !s.wild
    && (!s.freed ==> s.error == FirstNegative(s.results) && s.calls == [])
    && match s.phase
       case Ready(i) => !s.freed && s.numRequests == 1 + s.outstanding && s.outstanding <= i <= s.total
       case Calling(i, taken) =>
         && !s.freed && i < s.total
         && s.numRequests == 1 + s.outstanding + (if taken then 0 else 1)
         && s.outstanding <= (if taken then i + 1 else i)
       case Stopped => !s.freed && s.numRequests == 1 + s.outstanding
       case Returned(ret) =>
         if ret == 0 then
           && s.numRequests == s.outstanding
           && (s.freed <==> s.outstanding == 0)
           && (s.freed ==> s.calls == Calls(s.callbacks, FirstNegative(s.results)))
         else ret == -1 && s.freed && s.outstanding == 0 && s.calls == []
  }

  lemma StepKeepsInv(s: State, e: Event)
    requires Inv(s) && Enabled(s, e)
    ensures Inv(Step(s, e))
  {
    match e
    case Done(ret) =>
      FirstNegativeSnoc(s.results, ret);
    case Rejected =>
      FirstNegativeSnoc(s.results, -EIO);
    case Finish =>
      FirstNegativeSnoc(s.results, 0);
    case _ =>
  }

  lemma {:induction false} RunKeepsInv(s: State, run: seq<Event>)
    requires Inv(s) && Possible(s, run)
    ensures Inv(Run(s, run)) && Run(s, run).callbacks == s.callbacks
    decreases |run|
  {
    if run != [] {
      StepKeepsInv(s, run[0]);
      RunKeepsInv(Step(s, run[0]), run[1..]);
    }
  }

  /** In every interleaving: the control block is never used after it was freed; a multiwrite that
      returns -1 leaves no request with the driver and calls nobody; one that returns 0 calls
      nobody while a request is outstanding, and when none is left has called every callback
      exactly once, in order, with the first negative result. */
  lemma EveryRun(callbacks: seq<nat>, total: nat, run: seq<Event>)
    requires Possible(Initial(callbacks, total), run)
    ensures var s := Run(Initial(callbacks, total), run);
      && !s.wild
      && (s.phase == Returned(-1) ==> s.calls == [] && s.outstanding == 0 && s.freed)
      && (!s.phase.Returned? || s.outstanding > 0 ==> s.calls == [] && !s.freed)
      && (s.phase == Returned(0) && s.outstanding == 0 ==>
            s.freed && |s.calls| == |callbacks|
            && forall i :: 0 <= i < |callbacks| ==> s.calls[i] == (callbacks[i], FirstNegative(s.results)))
  {
    RunKeepsInv(Initial(callbacks, total), run);
  }

  /** The results that a run tells multiwrite_cb of, in order. */
  function Told(run: seq<Event>): seq<int> {
    if run == [] then []
    else
      (match run[0]
       case Done(ret) => [ret]
       case Rejected => [-EIO]
       case Finish => [0]
       case _ => []) + Told(run[1..])
  }

  /** Nothing that completes is forgotten: the callbacks' result is taken over all of a run. */
  lemma {:induction false} ResultsAreTold(s: State, run: seq<Event>)
    requires Possible(s, run) && Run(s, run).phase != Returned(-1)
    ensures Run(s, run).results == s.results + Told(run)
    decreases |run|
  {
    if run != [] {
      var t := Step(s, run[0]);
      ResultsAreTold(t, run[1..]);
      if t.phase == Returned(-1) {
        OnceFailed(t, run[1..]);
      }
    }
  }

  lemma {:induction false} OnceFailed(s: State, run: seq<Event>)
    requires Possible(s, run) && s.phase.Returned?
    ensures Run(s, run).phase == s.phase
    decreases |run|
  {
    if run != [] {
      OnceFailed(Step(s, run[0]), run[1..]);
    }
  }

  lemma {:induction false} RunSnoc(s: State, run: seq<Event>, e: Event)
    requires Possible(s, run) && Enabled(Run(s, run), e)
    ensures Possible(s, run + [e]) && Run(s, run + [e]) == Step(Run(s, run), e)
    decreases |run|
  {
    if run == [] {
      assert [] + [e] == [e] && [e][1..] == [];
    } else {
      RunSnoc(Step(s, run[0]), run[1..], e);
      assert (run + [e])[1..] == run[1..] + [e];
    }
  }

  /** What comes of a driver's events while it has control: those that can happen, whether a request that
      is being submitted has been taken, and how many are outstanding. */
  datatype Driven = Driven(run: seq<Event>, taken: bool, outstanding: nat)

  function Drives(events: seq<Event>, calling: bool, taken: bool, outstanding: nat): (d: Driven)
    ensures calling ==> (d.taken <==> taken || Take in events)
  {
    if events == [] then Driven([], taken, outstanding)
    else
      var e, rest := events[0], events[1..];
      if e == Take && calling && !taken then
        var d := Drives(rest, calling, true, outstanding + 1);
        d.(run := [Take] + d.run)
      else if e.Done? && outstanding > 0 then
        var d := Drives(rest, calling, taken, outstanding - 1);
        d.(run := [e] + d.run)
      else Drives(rest, calling, taken, outstanding)
  }

  /** The run of a submission from request i on: each call of the driver with what it does, up to the first
      request that it does not take, and the completion of the dummy request. */
  function Submission(driver: seq<seq<Event>>, i: nat, outstanding: nat): seq<Event>
    requires i <= |driver|
    decreases |driver| - i
  {
    if i == |driver| then [Finish]
    else
      var d := Drives(driver[i], true, false, outstanding);
      [Begin] + d.run +
      if d.taken then [Accepted] + Submission(driver, i + 1, d.outstanding)
      else [Rejected] + if i == 0 then [] else [Finish]
  }

  /** The control block together with the driver that completes its requests. */
  class Multiwrite {
    var error: int
    var numRequests: int
    const callbacks: seq<nat>
    var freed: bool
    const total: nat
    var phase: Phase
    var outstanding: nat
    var calls: seq<(nat, int)>
    ghost var results: seq<int>
    ghost var wild: bool
    ghost var run: seq<Event>

    ghost function View(): State
      reads this
    {
      State(error, numRequests, callbacks, freed, total, phase, outstanding, results, calls, wild)
    }

    /** The state is the one that the events so far lead to. */
    ghost predicate Traced()
      reads this
    {
      Possible(Initial(callbacks, total), run) && View() == Run(Initial(callbacks, total), run)
    }

    constructor (callbacks: seq<nat>, total: nat)
      ensures Traced() && this.callbacks == callbacks && this.total == total && phase == Ready(0) && run == []
    {
      this.callbacks, this.total := callbacks, total;
      error, numRequests, freed, outstanding, calls := 0, 1, false, 0, [];
      phase := Ready(0);
      results, wild, run := [], false, [];
    }

    /** multiwrite_user_cb. */
    method UserCb()
      modifies this`calls
      ensures calls == old(calls) + Calls(callbacks, error)
    {
      var i := 0;
      while i < |callbacks|
        invariant 0 <= i <= |callbacks|
        invariant calls == old(calls) + Calls(callbacks, error)[..i]
      {
        calls := calls + [(callbacks[i], error)];
        i := i + 1;
      }
    }

    /** multiwrite_cb. */
    method CompleteOne(ret: int)
      modifies this`error, this`numRequests, this`calls, this`freed, this`results, this`wild
      ensures View() == Complete(old(View()), ret)
    {
      wild, results := wild || freed, results + [ret];
      if ret < 0 && error == 0 {
        error := ret;
      }
      numRequests := numRequests - 1;
      if numRequests == 0 {
        UserCb();
        freed := true;
      }
    }

    /** Records that the state has made the step for event e. */
    ghost method Trace(was: State, e: Event)
      requires Possible(Initial(callbacks, total), run) && was == Run(Initial(callbacks, total), run)
      requires Enabled(was, e) && View() == Step(was, e)
      modifies this`run
      ensures Traced() && run == old(run) + [e]
    {
      RunSnoc(Initial(callbacks, total), run, e);
      run := run + [e];
    }

    /** The request that is being submitted has been taken. */
    predicate Taken()
      reads this
    {
      phase.Calling? && phase.taken
    }

    /** What the driver does when it has control: it takes the request that is being submitted, or
        completes one that it has. What it cannot do is passed over. */
    method Drive(events: seq<Event>)
      requires Traced()
      modifies this
      ensures Traced() && old(run) <= run
      ensures old(phase).Calling? ==> phase.Calling? && phase.i == old(phase.i)
      ensures !old(phase).Calling? ==> phase == old(phase)
      ensures var d := Drives(events, old(phase.Calling?), old(Taken()), old(outstanding));
        run == old(run) + d.run && Taken() == d.taken && outstanding == d.outstanding
    {
      hide Step;
      hide Run;
      hide Possible;
      hide Complete;
      hide Drives;
      hide Initial;
      DrivesNone(run);
      assert events[0..] == events;
      var k := 0;
      while k < |events|
        invariant 0 <= k <= |events| && Traced() && old(run) <= run
        invariant old(phase).Calling? ==> phase.Calling? && phase.i == old(phase.i)
        invariant !old(phase).Calling? ==> phase == old(phase)
        invariant var d := Drives(events, old(phase.Calling?), old(Taken()), old(outstanding));
          var left := Drives(events[k..], old(phase.Calling?), Taken(), outstanding);
          old(run) + d.run == run + left.run && left.taken == d.taken && left.outstanding == d.outstanding
      {
        ghost var was := View();
        DrivesNext(events, k, old(phase.Calling?), Taken(), outstanding, run);
        match events[k] {
          case Take =>
            if phase.Calling? && !phase.taken {
              phase := Calling(phase.i, true);
              outstanding := outstanding + 1;
              StepIs(was, Take);
              Trace(was, Take);
            }
          case Done(ret) =>
            if outstanding > 0 {
              outstanding := outstanding - 1;
              CompleteOne(ret);
              StepIs(was, Done(ret));
              Trace(was, Done(ret));
            }
          case _ =>
        }
        k := k + 1;
      }
      DrivesEnd(events, old(phase.Calling?), Taken(), outstanding, run);
    }

    /** One turn of the submission loop: on to the next request, stopped, or failed altogether. */
    method SubmitOne(events: seq<Event>)
      requires Traced() && phase.Ready? && phase.i < total
      modifies this
      ensures Traced()
      ensures phase == if Take in events then Ready(old(phase.i) + 1) else if old(phase.i) == 0 then Returned(-1) else Stopped
      ensures var d := Drives(events, true, false, old(outstanding));
        && run == old(run) + [Begin] + d.run + [if Take in events then Accepted else Rejected]
        && outstanding == d.outstanding
    {
      hide Step;
      hide Run;
      hide Possible;
      hide Complete;
      hide Initial;
      hide Drives;
      var i := phase.i;
      ghost var was := View();
      wild, numRequests, phase := wild || freed, numRequests + 1, Calling(i, false);
      StepIs(was, Begin);
      Trace(was, Begin);
      Drive(events);
      was := View();
      if phase.taken {
        phase := Ready(i + 1);
        StepIs(was, Accepted);
        Trace(was, Accepted);
      } else {
        StepIs(was, Rejected);
        if i == 0 {
          wild, freed, phase := wild || freed, true, Returned(-1);
        } else {
          CompleteOne(-EIO);
          phase := Stopped;
        }
        Trace(was, Rejected);
      }
    }

    /** bdrv_aio_multiwrite from the submission on, whatever the driver does during the calls of
        bdrv_aio_writev. */
    method Submit(driver: seq<seq<Event>>) returns (ret: int)
      requires Traced() && phase == Ready(0) && |driver| == total
      modifies this
      ensures Traced() && phase == Returned(ret)
      ensures ret == if total > 0 && Take !in driver[0] then -1 else 0
      ensures run == old(run) + Submission(driver, 0, old(outstanding))
    {
      hide Submission;
      hide Drives;
      ghost var all := old(run) + Submission(driver, 0, outstanding);
      while phase.Ready? && phase.i < total
        invariant Traced() && !phase.Calling? && (phase.Ready? ==> phase.i <= total)
        invariant phase.Returned? ==> phase.ret == -1 && total > 0 && Take !in driver[0]
        invariant !phase.Returned? && total > 0 && phase != Ready(0) ==> Take in driver[0]
        invariant phase.Ready? ==> all == run + Submission(driver, phase.i, outstanding)
        invariant phase.Stopped? ==> all == run + [Finish]
        invariant phase.Returned? ==> all == run
        decreases if phase.Ready? then total - phase.i else -1
      {
        ghost var i, was, out := phase.i, run, outstanding;
        SubmitOne(driver[phase.i]);
        SubmissionNext(was, driver, i, out);
        SubmissionEnds(driver, outstanding, run);
      }
      SubmissionEnds(driver, outstanding, run);
      if phase.Returned? {
        return -1;
      }
      ghost var was := View();
      StepIs(was, Finish);
      hide *;
      CompleteOne(0);
      phase := Returned(0);
      Trace(was, Finish);
      return 0;
    }
  }

  lemma SubmissionEnds(driver: seq<seq<Event>>, outstanding: nat, was: seq<Event>)
    ensures was + Submission(driver, |driver|, outstanding) == was + [Finish] && was + [] == was
  {}

  lemma DrivesNone(was: seq<Event>)
    ensures was + [] == was
  {}

  lemma DrivesEnd(events: seq<Event>, calling: bool, taken: bool, outstanding: nat, was: seq<Event>)
    ensures var d := Drives(events[|events|..], calling, taken, outstanding);
      was + d.run == was && d.taken == taken && d.outstanding == outstanding
  {}

  lemma DrivesNext(events: seq<Event>, k: nat, calling: bool, taken: bool, outstanding: nat, was: seq<Event>)
    requires k < |events|
    ensures var e, d := events[k], Drives(events[k..], calling, taken, outstanding);
      if e == Take && calling && !taken then
        var n := Drives(events[k + 1..], calling, true, outstanding + 1);
        was + d.run == was + [Take] + n.run && n.taken == d.taken && n.outstanding == d.outstanding
      else if e.Done? && outstanding > 0 then
        var n := Drives(events[k + 1..], calling, taken, outstanding - 1);
        was + d.run == was + [e] + n.run && n.taken == d.taken && n.outstanding == d.outstanding
      else d == Drives(events[k + 1..], calling, taken, outstanding)
  {
    assert events[k..][0] == events[k] && events[k..][1..] == events[k + 1..];
  }

  lemma SubmissionNext(was: seq<Event>, driver: seq<seq<Event>>, i: nat, outstanding: nat)
    requires i < |driver|
    ensures var d := Drives(driver[i], true, false, outstanding);
      var now := was + [Begin] + d.run + [if Take in driver[i] then Accepted else Rejected];
      was + Submission(driver, i, outstanding)
      == now + if Take in driver[i] then Submission(driver, i + 1, d.outstanding) else if i == 0 then [] else [Finish]
  {
    hide Drives;
    var d := Drives(driver[i], true, false, outstanding);
    var last := [if Take in driver[i] then Accepted else Rejected];
    var tail := if Take in driver[i] then Submission(driver, i + 1, d.outstanding) else if i == 0 then [] else [Finish];
    assert Submission(driver, i, outstanding) == [Begin] + d.run + (last + tail);
    hide Submission;
    assert was + ([Begin] + d.run + (last + tail)) == was + [Begin] + d.run + last + tail;
  }

  lemma StepIs(s: State, e: Event)
    requires Enabled(s, e)
    ensures e == Take ==> Step(s, e) == s.(phase := Calling(s.phase.i, true), outstanding := s.outstanding + 1)
    ensures e == Begin ==>
      Step(s, e) == s.(numRequests := s.numRequests + 1, phase := Calling(s.phase.i, false), wild := s.wild || s.freed)
    ensures e == Accepted ==> Step(s, e) == s.(phase := Ready(s.phase.i + 1))
    ensures e == Rejected && s.phase.i == 0 ==>
      Step(s, e) == s.(phase := Returned(-1), freed := true, wild := s.wild || s.freed)
    ensures e == Rejected && s.phase.i > 0 ==> Step(s, e) == Complete(s, -EIO).(phase := Stopped)
    ensures e == Finish ==> Step(s, e) == Complete(s, 0).(phase := Returned(0))
    ensures e.Done? ==> Step(s, e) == Complete(s.(outstanding := s.outstanding - 1), e.ret)
  {}
}
