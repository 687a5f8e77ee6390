/** A timer that is stopped, restarted, forced and destroyed while its callback may be under way. */
module RepeatedTimers {

  /** Where the one timer of a task is: nowhere, waiting, expired but not yet in the callback, or in run(). */
  datatype Phase = Idle | Armed | Fired | Running

  /** The protocol without flags, timer identifiers or callbacks; `notified` counts on_destroy. */
  datatype Protocol = Protocol(phase: Phase, wanted: bool, dead: bool, notified: nat)

  /** A timer that cannot be added fires at once. */
  datatype Action =
    | Start(added: bool)
    | Stop
    | Reset(added: bool)
    | RunOnceNow
    | Destroy
    | Expire
    | EnterRun
    | LeaveRun(added: bool)

  ghost predicate Enabled(p: Protocol, a: Action) {
    match a
    case Expire => p.phase == Armed
    case EnterRun => p.phase == Fired
    case LeaveRun(_) => p.phase == Running
    case _ => true
  }

  ghost function Scheduled(added: bool): (r: Phase) {
    if added then Armed else Fired
  }

  ghost function Notified(p: Protocol): (r: Protocol) {
    p.(notified := p.notified + 1)
  }

  ghost function Step(p: Protocol, a: Action): (r: Protocol) {
    match a
    case Start(added) =>
      if p.dead || p.wanted then p
      else p.(wanted := true, phase := if p.phase == Idle then Scheduled(added) else p.phase)
    case Stop => p.(wanted := false, phase := if p.wanted && p.phase == Armed then Idle else p.phase)
    case Reset(added) => if p.wanted && p.phase == Armed then p.(phase := Scheduled(added)) else p
    case RunOnceNow => if p.phase == Armed then p.(phase := Fired) else p
    case Destroy =>
      if p.dead then p
      else if p.phase == Idle || (p.wanted && p.phase == Armed)
      then Notified(p.(dead := true, wanted := false, phase := Idle))
      else p.(dead := true, wanted := false)
    case Expire => p.(phase := Fired)
    case EnterRun => p.(phase := Running)
    case LeaveRun(added) =>
      if p.wanted then p.(phase := Scheduled(added))
      else if p.dead then Notified(p.(phase := Idle))
      else p.(phase := Idle)
  }

  const INITIAL := Protocol(Idle, false, false, 0)

  /** A wanted timer is under way, a waiting one is wanted, and on_destroy has been called once all is over. */
  ghost predicate ProtocolInv(p: Protocol) {
    && (p.wanted ==> p.phase != Idle && !p.dead)
    && (p.phase == Armed ==> p.wanted)
    && p.notified == if p.dead && p.phase == Idle then 1 else 0
  }

  lemma StepKeeps(p: Protocol, a: Action)
    requires ProtocolInv(p) && Enabled(p, a)
    ensures ProtocolInv(Step(p, a))
    ensures p.dead ==> Step(p, a).dead
    ensures p.notified == 1 ==> Step(p, a) == p
  {
  }

  ghost predicate IsRun(states: seq<Protocol>, actions: seq<Action>) {
    && |states| == |actions| + 1 && states[0] == INITIAL
    && forall k :: 0 <= k < |actions| ==> Enabled(states[k], actions[k]) && states[k + 1] == Step(states[k], actions[k])
  }

  /** In every interleaving a stopped timer is never left waiting, and a wanted one never lost. */
  lemma {:induction false} RunKeeps(states: seq<Protocol>, actions: seq<Action>, k: nat)
    requires IsRun(states, actions) && k < |states|
    ensures ProtocolInv(states[k])
  {
    if k == 0 {
    } else {
      RunKeeps(states, actions, k - 1);
      StepKeeps(states[k - 1], actions[k - 1]);
    }
  }

  /**
   * on_destroy comes at most once, exactly when the timer is destroyed and nothing is under way, and from then on
   * no callback enters run().
   */
  lemma {:induction false} DestroyedOnce(states: seq<Protocol>, actions: seq<Action>, i: nat, j: nat)
    requires IsRun(states, actions) && i <= j < |states|
    ensures states[j].notified == if states[j].dead && states[j].phase == Idle then 1 else 0
    ensures states[i].notified == 1 ==> states[j] == states[i]
    ensures states[i].notified == 1 && j < |actions| ==> !actions[j].EnterRun?
  {
    RunKeeps(states, actions, i);
    RunKeeps(states, actions, j);
    if i == j {
    } else {
      DestroyedOnce(states, actions, i, j - 1);
      RunKeeps(states, actions, j - 1);
      StepKeeps(states[j - 1], actions[j - 1]);
    }
    assert j < |actions| ==> Enabled(states[j], actions[j]);
  }

  /** A timer that is started and not dead is under way. */
  lemma StartTakes(states: seq<Protocol>, actions: seq<Action>, k: nat)
    requires IsRun(states, actions) && k < |actions| && actions[k].Start? && !states[k].dead
    ensures states[k + 1].wanted && states[k + 1].phase != Idle && !states[k + 1].dead
    ensures states[k].phase == Idle ==> states[k + 1].phase == if actions[k].added then Armed else Fired
  {
    RunKeeps(states, actions, k);
    RunKeeps(states, actions, k + 1);
  }

  /** No one stops or destroys the timer from step `i` to before step `j`. */
  ghost predicate LeftAlone(actions: seq<Action>, i: nat, j: nat)
    requires j <= |actions|
  {
    forall k :: i <= k < j ==> !actions[k].Stop? && !actions[k].Destroy?
  }

  /**
   * From a start on, until someone stops or destroys it, a timer stays under way: whenever its callback leaves run()
   * it is scheduled again.
   */
  lemma {:induction false} KeepsRepeating(states: seq<Protocol>, actions: seq<Action>, i: nat, j: nat)
    requires IsRun(states, actions) && i <= j < |states| && states[i].wanted && LeftAlone(actions, i, j)
    ensures states[j].wanted && states[j].phase != Idle
    ensures j < |actions| && actions[j].LeaveRun? ==>
              states[j + 1].phase == if actions[j].added then Armed else Fired
  {
    if i == j {
    } else {
      KeepsRepeating(states, actions, i, j - 1);
    }
    RunKeeps(states, actions, j);
  }

  /** A waiting timer can expire, be forced and be set back; what has expired enters run() and leaves it. */
  lemma WaitingMoves(states: seq<Protocol>, actions: seq<Action>, k: nat)
    requires IsRun(states, actions) && k < |actions|
    ensures states[k].phase == Armed && (actions[k].Expire? || actions[k].RunOnceNow?) ==> states[k + 1].phase == Fired
    ensures states[k].phase == Armed && actions[k].Reset? ==>
              states[k + 1].phase == if actions[k].added then Armed else Fired
    ensures actions[k].EnterRun? ==> states[k].phase == Fired && states[k + 1].phase == Running
    ensures states[k + 1].phase == Running && states[k].phase != Running ==> actions[k].EnterRun?
    ensures states[k].phase == Running && states[k + 1].phase != Running ==> actions[k].LeaveRun?
  {
    RunKeeps(states, actions, k);
  }

  /** How far a timer that nobody wants is from being idle. */
  ghost function Left(phase: Phase): (n: nat) {
    match phase
    case Idle => 0
    case Running => 1
    case Fired => 2
    case Armed => 3
  }

  /** Once stopped, and until it is started again, a timer only winds down: run() begins at most once more. */
  lemma {:induction false} StoppedWindsDown(states: seq<Protocol>, actions: seq<Action>, i: nat, j: nat)
    requires IsRun(states, actions) && i < j < |states| && actions[i].Stop?
    requires forall k :: i < k < j ==> !actions[k].Start?
    ensures !states[j].wanted && states[j].phase != Armed && Left(states[j].phase) <= Left(states[i + 1].phase)
    ensures j < |actions| && actions[j].EnterRun? ==>
              states[i + 1].phase == Fired && states[j].phase == Fired && states[j + 1].phase == Running
  {
    if j == i + 1 {
    } else {
      StoppedWindsDown(states, actions, i, j - 1);
    }
    RunKeeps(states, actions, i + 1);
    RunKeeps(states, actions, j);
    assert states[i + 1] == Step(states[i], actions[i]);
    assert j < |actions| ==> Enabled(states[j], actions[j]);
  }

  /** Once destroyed, a task needs at most two more callback steps, each of them possible, until on_destroy. */
  lemma DestroyCompletes(p: Protocol) returns (actions: seq<Action>)
    requires ProtocolInv(p) && p.dead
    ensures |actions| <= 2 && forall k :: 0 <= k < |actions| ==> actions[k].EnterRun? || actions[k].LeaveRun?
    ensures Possible(p, actions)
    ensures ProtocolInv(After(p, actions)) && After(p, actions).notified == 1
  {
    if p.phase == Idle {
      return [];
    }
    var leave := [LeaveRun(true)];
    assert forall q :: After(q, leave) == Step(q, LeaveRun(true));
    assert forall q :: Possible(q, leave) <==> Enabled(q, LeaveRun(true));
    actions := if p.phase == Fired then [EnterRun] + leave else leave;
    assert p.phase == Fired ==> actions[1..] == leave;
  }

  ghost function After(p: Protocol, actions: seq<Action>): (r: Protocol)
    decreases |actions|
  {
    if actions == [] then p else After(Step(p, actions[0]), actions[1..])
  }

  /** The actions can be taken one after another. */
  ghost predicate Possible(p: Protocol, actions: seq<Action>)
    decreases |actions|
  {
    actions == [] || (Enabled(p, actions[0]) && Possible(Step(p, actions[0]), actions[1..]))
  }

  /**
   * The flags and the world around them stand for a state of the protocol: the pending timers and the callbacks
   * under way number one when running and none otherwise, and a pending timer is the one that is remembered.
   */
  ghost predicate StandsFor(stopped: bool, running: bool, destroyed: bool, invoking: bool, timer: nat,
                            pending: set<nat>, nextTimer: nat, fired: nat, inRun: nat, destroys: nat, p: Protocol)
  {
    && ProtocolInv(p)
    && stopped == !p.wanted && destroyed == p.dead && running == (p.phase != Idle) && invoking == (p.phase == Running)
    && timer < nextTimer
    && pending == (if p.phase == Armed then {timer} else {})
    && fired == (if p.phase == Fired then 1 else 0)
    && inRun == (if p.phase == Running then 1 else 0)
    && destroys == p.notified
  }

  /** Pending timers and callbacks under way number one when running and none otherwise; stopped means none pending. */
  lemma OneUnderWay(stopped: bool, running: bool, destroyed: bool, invoking: bool, timer: nat,
                    pending: set<nat>, nextTimer: nat, fired: nat, inRun: nat, destroys: nat, p: Protocol)
    requires StandsFor(stopped, running, destroyed, invoking, timer, pending, nextTimer, fired, inRun, destroys, p)
    ensures |pending| + fired + inRun == if running then 1 else 0
    ensures stopped ==> pending == {}
    ensures destroys == if destroyed && !running then 1 else 0
  {
    assert |{timer}| == 1;
  }

  /**
   * `timer` is the identifier remembered by the object. The timer service and the callbacks are part of the
   * object: `pending` timers, callbacks that have `fired`, callbacks inside run(), calls of on_destroy.
   */
  class RepeatedTimerTask {
    var stopped: bool
    var running: bool
    var destroyed: bool
    var invoking: bool
    var timer: nat
    var pending: set<nat>
    var nextTimer: nat
    var fired: nat
    var inRun: nat
    var destroys: nat
    ghost var protocol: Protocol

    ghost predicate Valid()
      reads this
    {
      StandsFor(stopped, running, destroyed, invoking, timer, pending, nextTimer, fired, inRun, destroys, protocol)
    }

    constructor ()
      ensures Valid() && protocol == INITIAL
    {
      stopped, running, destroyed, invoking := true, false, false, false;
      timer, pending, nextTimer, fired, inRun, destroys := 0, {}, 1, 0, 0, 0;
      protocol := INITIAL;
    }

    /** bthread_timer_del succeeds exactly on a timer that has not expired. */
    method TimerDel() returns (deleted: bool)
      modifies this`pending
      ensures deleted == (timer in old(pending)) && pending == old(pending) - {timer}
    {
      deleted := timer in pending;
      pending := pending - {timer};
    }

    /** A failing bthread_timer_add turns into an immediate callback. */
    method Schedule(added: bool)
      modifies this`timer, this`pending, this`nextTimer, this`fired
      ensures nextTimer == old(nextTimer) + 1
      ensures if added then timer == old(nextTimer) && pending == old(pending) + {timer} && fired == old(fired)
              else timer == old(timer) && pending == old(pending) && fired == old(fired) + 1
    {
      if added {
        timer, pending := nextTimer, pending + {nextTimer};
      } else {
        fired := fired + 1;
      }
      nextTimer := nextTimer + 1;
    }

    method Start(added: bool)
      requires Valid()
      modifies this
      ensures Valid() && protocol == Step(old(protocol), Action.Start(added))
      ensures destroyed == old(destroyed) && (old(destroyed) || !old(stopped) ==> protocol == old(protocol))
      ensures !old(destroyed) ==> !stopped && running
      ensures if !old(destroyed) && !old(running)
              then if added then pending == {timer} && timer == old(nextTimer) else pending == {} && fired == 1
              else pending == old(pending) && fired == old(fired)
    {
      protocol := Step(protocol, Action.Start(added));
      if destroyed || !stopped {
        return;
      }
      stopped := false;
      if running {
        return;
      }
      running := true;
      Schedule(added);
    }

    method Stop()
      requires Valid()
      modifies this
      ensures Valid() && protocol == Step(old(protocol), Action.Stop)
      ensures stopped && pending == {} && fired == old(fired) && inRun == old(inRun) && destroyed == old(destroyed)
      ensures running <==> old(running) && old(pending) == {}
    {
      protocol := Step(protocol, Action.Stop);
      if stopped {
        return;
      }
      stopped := true;
      assert running;
      var deleted := TimerDel();
      if deleted {
        running := false;
      }
    }

    method Reset(added: bool)
      requires Valid()
      modifies this
      ensures Valid() && protocol == Step(old(protocol), Action.Reset(added))
      ensures stopped == old(stopped) && running == old(running) && destroyed == old(destroyed)
      ensures if old(pending) == {} then pending == {} && fired == old(fired)
              else if added then pending == {timer} && timer == old(nextTimer) && timer !in old(pending)
              else pending == {} && fired == old(fired) + 1
    {
      protocol := Step(protocol, Action.Reset(added));
      if stopped {
        return;
      }
      assert running;
      var deleted := TimerDel();
      if deleted {
        Schedule(added);
      }
    }

    method RunOnceNow()
      requires Valid()
      modifies this
      ensures Valid() && protocol == Step(old(protocol), Action.RunOnceNow)
      ensures stopped == old(stopped) && running == old(running) && destroyed == old(destroyed)
      ensures pending == {} && fired == old(fired) + |old(pending)|
    {
      protocol := Step(protocol, Action.RunOnceNow);
      var deleted := TimerDel();
      if deleted {
        fired := fired + 1;
      }
    }

    method Destroy()
      requires Valid()
      modifies this
      ensures Valid() && protocol == Step(old(protocol), Action.Destroy)
      ensures destroyed && stopped && pending == {} && fired == old(fired) && inRun == old(inRun)
      ensures destroys == if old(fired) + old(inRun) == 0 then 1 else 0
    {
      protocol := Step(protocol, Action.Destroy);
      if destroyed {
        return;
      }
      destroyed := true;
      if !running {
        assert stopped;
        destroys := destroys + 1;
        return;
      }
      if stopped {
        return;
      }
      stopped := true;
      var deleted := TimerDel();
      if deleted {
        running := false;
        destroys := destroys + 1;
        return;
      }
      assert running;
    }

    /** The timer service runs out a pending timer. */
    method Expire(t: nat)
      requires Valid() && t in pending
      modifies this
      ensures Valid() && Enabled(old(protocol), Action.Expire) && protocol == Step(old(protocol), Action.Expire)
      ensures pending == {} && fired == 1 && stopped == old(stopped) && running
    {
      protocol := Step(protocol, Action.Expire);
      pending := pending - {t};
      fired := fired + 1;
    }

    /** on_timedout up to run(), outside the mutex. */
    method EnterRun()
      requires Valid() && fired > 0
      modifies this
      ensures Valid() && Enabled(old(protocol), Action.EnterRun) && protocol == Step(old(protocol), Action.EnterRun)
      ensures fired == 0 && inRun == 1 && stopped == old(stopped) && running
    {
      protocol := Step(protocol, Action.EnterRun);
      invoking := true;
      fired, inRun := fired - 1, inRun + 1;
    }

    /** on_timedout after run(). */
    method LeaveRun(added: bool)
      requires Valid() && inRun > 0
      modifies this
      ensures Valid() && Enabled(old(protocol), Action.LeaveRun(added))
      ensures protocol == Step(old(protocol), Action.LeaveRun(added))
      ensures inRun == 0 && stopped == old(stopped) && running == !stopped
      ensures if stopped then pending == {} && fired == 0 && destroys == (if destroyed then 1 else 0)
              else if added then pending == {timer} && timer == old(nextTimer) && fired == 0
              else pending == {} && fired == 1
    {
      protocol := Step(protocol, Action.LeaveRun(added));
      inRun := inRun - 1;
      invoking := false;
      assert running;
      if stopped {
        running := false;
        if destroyed {
          destroys := destroys + 1;
        }
        return;
      }
      Schedule(added);
    }
  }
}
