/**
  The earlier AbilityBehaviorTree: nodes double as behaviors, the frame
  counter is 0-based and checked before it is incremented, StartBehavior calls
  OnExit on the actions of the behavior being started, and the per-frame
  dispatch hooks are stubs that throw.
*/
module LegacyTree {
  import opened Outcomes

  /** Identity of an AbilityAction object. */
  type ActionId = nat

  /** An AbilityNode of this version; an entry of `actions` may be null. */
  datatype Ability = Ability(name: string, frameLength: int, isLoop: bool, actions: seq<Option<ActionId>>)

  /** An `OnExit(actorModel)` call on an action. */
  datatype Event = OnExit(action: ActionId)

  /** GetBehavior: the first node whose Name is `name`, or null. */
  function GetBehavior(abilities: seq<Ability>, name: string): (r: Option<nat>)
    ensures r.Some? ==> r.value < |abilities| && abilities[r.value].name == name
    ensures r.Some? ==> forall j :: 0 <= j < r.value ==> abilities[j].name != name
    ensures r.None? <==> forall j :: 0 <= j < |abilities| ==> abilities[j].name != name
  {
    if abilities == [] then None
    else if abilities[0].name == name then Some(0)
    else match GetBehavior(abilities[1..], name)
      case None => None
      case Some(k) => Some(k + 1)
  }

  predicate NoNullAction(actions: seq<Option<ActionId>>) {
    forall j :: 0 <= j < |actions| ==> actions[j].Some?
  }

  /**
    The OnExit calls `foreach (var item in actions) item.OnExit(..)` makes:
    one per action, in order, up to the first null entry, where it throws.
  */
  function Exits(actions: seq<Option<ActionId>>): (r: seq<Event>)
    ensures |r| <= |actions|
    ensures forall i :: 0 <= i < |r| ==> actions[i].Some? && r[i] == OnExit(actions[i].value)
    ensures |r| < |actions| ==> actions[|r|].None?
  {
    if actions == [] then []
    else match actions[0]
      case None => []
      case Some(a) => [OnExit(a)] + Exits(actions[1..])
  }

  lemma {:induction false} ExitsAppend(prefix: seq<Option<ActionId>>, a: ActionId)
    requires NoNullAction(prefix)
    ensures Exits(prefix + [Some(a)]) == Exits(prefix) + [OnExit(a)]
    decreases |prefix|
  {
    if prefix == [] {
      assert prefix + [Some(a)] == [Some(a)];
    } else {
      assert (prefix + [Some(a)])[1..] == prefix[1..] + [Some(a)];
      ExitsAppend(prefix[1..], a);
    }
  }

  lemma {:induction false} ExitsStopAtNull(actions: seq<Option<ActionId>>, k: nat)
    requires k < |actions| && actions[k].None? && NoNullAction(actions[..k])
    ensures Exits(actions) == Exits(actions[..k])
    decreases k
  {
    if k > 0 {
      assert actions[1..][..k - 1] == actions[..k][1..];
      ExitsStopAtNull(actions[1..], k - 1);
    }
  }

  class LegacyBehaviorTree {
    /** Frame counter of the current behavior (0 right after a start). */
    var curFrame: int
    /** The running node, as an index into `behaviors`; None is null. */
    var curBehavior: Option<nat>
    var curChildIndex: int
    var behaviors: seq<Ability>
    const fps: nat
    var cacheTime: nat
    /** The owning actor's CanCancel flag, which StartBehavior writes. */
    var canCancel: bool
    /** The OnExit calls made on actions so far. */
    ghost var trace: seq<Event>

    ghost predicate Valid()
      reads this
    {
      fps > 0 && (curBehavior.Some? ==> curBehavior.value < |behaviors|)
    }

    /** `new AbilityBehaviorTree(model)`: an empty node list and no current behavior. */
    constructor (fps: nat)
      requires fps > 0
      ensures Valid() && this.fps == fps && behaviors == []
      ensures curBehavior.None? && curFrame == 0 && curChildIndex == 0 && cacheTime == 0 && !canCancel
      ensures trace == []
    {
      this.fps := fps;
      behaviors := [];
      curFrame, curBehavior, curChildIndex := 0, None, 0;
      cacheTime, canCancel := 0, false;
      trace := [];
    }

    /**
      The owner filling the public `behaviorsList` field, before any behavior
      has been started.
    */
    method AssignBehaviors(abilities: seq<Ability>)
      requires Valid() && curBehavior.None?
      modifies this`behaviors
      ensures Valid() && behaviors == abilities && curBehavior.None?
    {
      behaviors := abilities;
    }

    /** ResetBehavior: OnExit on every action of `b`, in order; a null action throws. */
    method ResetBehavior(b: nat) returns (fault: Option<Fault>)
      requires b < |behaviors|
      modifies this`trace
      ensures trace == old(trace) + Exits(behaviors[b].actions)
      ensures fault == if NoNullAction(behaviors[b].actions) then None else Some(NullReference)
    {
      var actions := behaviors[b].actions;
      var k := 0;
      while k < |actions|
        invariant 0 <= k <= |actions|
        invariant NoNullAction(actions[..k])
        invariant trace == old(trace) + Exits(actions[..k])
      {
        if actions[k].None? {
          ExitsStopAtNull(actions, k);
          return Some(NullReference);
        }
        var a := actions[k].value;
        ExitsAppend(actions[..k], a);
        assert actions[..k + 1] == actions[..k] + [Some(a)];
        trace := trace + [OnExit(a)];
        k := k + 1;
      }
      assert actions[..k] == actions;
      return None;
    }

    /**
      StartBehavior: null is a no-op; otherwise OnExit on the new behavior's
      actions, then frame 0, the new behavior current, the child index reset
      when it is Default, and the actor's CanCancel cleared.
    */
    method StartBehavior(next: Option<nat>) returns (fault: Option<Fault>)
      requires Valid()
      requires next.Some? ==> next.value < |behaviors|
      modifies this`curFrame, this`curBehavior, this`curChildIndex, this`canCancel, this`trace
      ensures Valid()
      ensures next.None? ==> fault.None? && trace == old(trace)
      ensures next.Some? ==> trace == old(trace) + Exits(behaviors[next.value].actions)
      ensures next.Some? ==> fault == if NoNullAction(behaviors[next.value].actions) then None else Some(NullReference)
      ensures (next.None? || fault.Some?) ==>
        curFrame == old(curFrame) && curBehavior == old(curBehavior) &&
        curChildIndex == old(curChildIndex) && canCancel == old(canCancel)
      ensures next.Some? && fault.None? ==> curFrame == 0 && curBehavior == next && !canCancel
      ensures next.Some? && fault.None? ==>
        curChildIndex == if GetBehavior(behaviors, "Default") == next then 0 else old(curChildIndex)
    {
      if next.None? {
        return None;
      }
      fault := ResetBehavior(next.value);
      if fault.Some? {
        return;
      }
      curFrame := 0;
      curBehavior := next;
      if curBehavior == GetBehavior(behaviors, "Default") {
        curChildIndex := 0;
      }
      canCancel := false;
    }

    /** LoopBehavior: back to frame 0. */
    method LoopBehavior()
      modifies this`curFrame
      ensures curFrame == 0
    {
      curFrame := 0;
    }

    /** EndBehavior: restart Default. */
    method EndBehavior() returns (fault: Option<Fault>)
      requires Valid()
      modifies this`curFrame, this`curBehavior, this`curChildIndex, this`canCancel, this`trace
      ensures Valid()
      ensures GetBehavior(behaviors, "Default").None? ==>
        fault.None? && trace == old(trace) && curFrame == old(curFrame) && curBehavior == old(curBehavior) &&
        curChildIndex == old(curChildIndex) && canCancel == old(canCancel)
      ensures GetBehavior(behaviors, "Default").Some? ==>
        var d := GetBehavior(behaviors, "Default").value;
        && trace == old(trace) + Exits(behaviors[d].actions)
        && fault == (if NoNullAction(behaviors[d].actions) then None else Some(NullReference))
        && (fault.Some? ==>
              curFrame == old(curFrame) && curBehavior == old(curBehavior) &&
              curChildIndex == old(curChildIndex) && canCancel == old(canCancel))
        && (fault.None? ==> curFrame == 0 && curBehavior == Some(d) && curChildIndex == 0 && !canCancel)
    {
      fault := StartBehavior(GetBehavior(behaviors, "Default"));
    }

    /** UpdateActions: not implemented; always throws. */
    method UpdateActions() returns (fault: Option<Fault>)
      ensures fault == Some(NotImplemented)
    {
      fault := Some(NotImplemented);
    }

    /** UpdateAttack: not implemented; always throws (and is never reached, see OnUpdate). */
    method UpdateAttack() returns (fault: Option<Fault>)
      ensures fault == Some(NotImplemented)
    {
      fault := Some(NotImplemented);
    }

    /**
      OnUpdate: nothing at all without a current behavior; otherwise
      accumulate `delta` and, when more than one interval has built up, do the
      frame-counter update (loop or end at FrameLength, then increment) and
      call UpdateActions, which throws. Every iteration of the source's
      `while (cacheTime > fps)` ends in that exception, so at most one starts,
      `cacheTime -= fps` is never reached, and UpdateAttack is never called.
    */
    method OnUpdate(delta: nat) returns (fault: Option<Fault>)
      requires Valid()
      modifies this`curFrame, this`curBehavior, this`curChildIndex, this`canCancel, this`trace, this`cacheTime
      ensures Valid()
      ensures old(curBehavior).None? ==>
        fault.None? && cacheTime == old(cacheTime) && curFrame == old(curFrame) && curBehavior == old(curBehavior) &&
        curChildIndex == old(curChildIndex) && canCancel == old(canCancel) && trace == old(trace)
      ensures old(curBehavior).Some? ==> cacheTime == old(cacheTime) + delta
      ensures old(curBehavior).Some? && old(cacheTime) + delta <= fps ==>
        fault.None? && curFrame == old(curFrame) && curBehavior == old(curBehavior) &&
        curChildIndex == old(curChildIndex) && canCancel == old(canCancel) && trace == old(trace)
      ensures old(curBehavior).Some? && old(cacheTime) + delta > fps ==> fault.Some?
      // the counter is below its length: increment, then throw
      ensures old(curBehavior).Some? && old(cacheTime) + delta > fps &&
              old(curFrame) < behaviors[old(curBehavior).value].frameLength ==>
        fault == Some(NotImplemented) && curFrame == old(curFrame) + 1 && curBehavior == old(curBehavior) &&
        curChildIndex == old(curChildIndex) && canCancel == old(canCancel) && trace == old(trace)
      // a looping behavior at its length: back to 0, increment, then throw
      ensures old(curBehavior).Some? && old(cacheTime) + delta > fps &&
              old(curFrame) >= behaviors[old(curBehavior).value].frameLength &&
              behaviors[old(curBehavior).value].isLoop ==>
        fault == Some(NotImplemented) && curFrame == 1 && curBehavior == old(curBehavior) &&
        curChildIndex == old(curChildIndex) && canCancel == old(canCancel) && trace == old(trace)
      // a non-looping behavior at its length: restart Default, increment, then throw
      ensures old(curBehavior).Some? && old(cacheTime) + delta > fps &&
              old(curFrame) >= behaviors[old(curBehavior).value].frameLength &&
              !behaviors[old(curBehavior).value].isLoop && GetBehavior(behaviors, "Default").Some? ==>
        var d := GetBehavior(behaviors, "Default").value;
        && trace == old(trace) + Exits(behaviors[d].actions)
        && (NoNullAction(behaviors[d].actions) ==>
              fault == Some(NotImplemented) && curFrame == 1 && curBehavior == Some(d) && curChildIndex == 0 && !canCancel)
        && (!NoNullAction(behaviors[d].actions) ==>
              fault == Some(NullReference) && curFrame == old(curFrame) && curBehavior == old(curBehavior) &&
              curChildIndex == old(curChildIndex) && canCancel == old(canCancel))
      // a non-looping behavior at its length without Default: increment past the end, then throw
      ensures old(curBehavior).Some? && old(cacheTime) + delta > fps &&
              old(curFrame) >= behaviors[old(curBehavior).value].frameLength &&
              !behaviors[old(curBehavior).value].isLoop && GetBehavior(behaviors, "Default").None? ==>
        fault == Some(NotImplemented) && curFrame == old(curFrame) + 1 && curBehavior == old(curBehavior) &&
        curChildIndex == old(curChildIndex) && canCancel == old(canCancel) && trace == old(trace)
      // with positive lengths and Default present, the update leaves 1 <= curFrame <= FrameLength
      ensures (forall i :: 0 <= i < |behaviors| ==> behaviors[i].frameLength >= 1) &&
              GetBehavior(behaviors, "Default").Some? && 0 <= old(curFrame) && fault == Some(NotImplemented) ==>
        curBehavior.Some? && 1 <= curFrame <= behaviors[curBehavior.value].frameLength
    {
      if curBehavior.None? {
        return None;
      }
      cacheTime := cacheTime + delta;
      if cacheTime > fps {
        var b := curBehavior.value;
        if curFrame >= behaviors[b].frameLength {
          if behaviors[b].isLoop {
            LoopBehavior();
          } else {
            fault := EndBehavior();
            if fault.Some? {
              return;
            }
          }
        }
        curFrame := curFrame + 1;
        fault := UpdateActions();
        return;
      }
      return None;
    }
  }
}
