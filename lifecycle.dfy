/**
  The execution cursor of the current tree and what its operations do to it,
  as functions: StartBehavior, one logical step of Tick's loop, and a run of
  several steps. Calls into behaviors (Enter, Exit, Tick) are recorded as events.
*/
module Lifecycle {
  import opened Outcomes
  import opened AbilityData

  /** A call the tree makes on a behavior, identified by its index. */
  datatype Event = Enter(behavior: nat) | Exit(behavior: nat) | TickAt(behavior: nat, frame: int)

  /** curBehavior, curFrame, curNodeIndex and CanCancel. */
  datatype Cursor = Cursor(behavior: Option<nat>, frame: int, nodeIndex: nat, canCancel: bool)

  /** A new cursor and the behavior calls made on the way to it, in order. */
  datatype Effect = Effect(cursor: Cursor, events: seq<Event>)

  /** `b == GetBehavior("Default")`: reference equality with the first behavior named Default. */
  predicate IsDefault(bs: seq<Behavior>, b: nat) {
    GetBehavior(bs, "Default") == Some(b)
  }

  /** A current behavior exists and is a loaded one. */
  predicate Active(bs: seq<Behavior>, c: Cursor) {
    c.behavior.Some? && c.behavior.value < |bs|
  }

  /** 1 <= curFrame <= FrameLength while a behavior runs. */
  predicate FrameInRange(bs: seq<Behavior>, c: Cursor) {
    Active(bs, c) && 1 <= c.frame <= bs[c.behavior.value].frameLength
  }

  /** Every behavior lasts at least one frame. */
  predicate FramesPositive(bs: seq<Behavior>) {
    forall i :: 0 <= i < |bs| ==> bs[i].frameLength >= 1
  }

  predicate HasDefault(bs: seq<Behavior>) {
    GetBehavior(bs, "Default").Some?
  }

  /** StartBehavior(b) with a non-null b. */
  function Started(bs: seq<Behavior>, c: Cursor, b: nat): Effect {
    Effect(Cursor(Some(b), 1, if IsDefault(bs, b) then 0 else c.nodeIndex, false),
           (if c.behavior.Some? then [Exit(c.behavior.value)] else []) + [Enter(b)])
  }

  /** AfterSelection is the cursor once Tick's transition check and its StartBehavior are done. */
  function AfterSelection(bs: seq<Behavior>, c: Cursor, chosen: Outcome<Option<nat>>, idx1: nat): Effect {
    var c1 := c.(nodeIndex := idx1);
    if chosen.Ok? && chosen.value.Some? then Started(bs, c1, chosen.value.value) else Effect(c1, [])
  }

  /**
    One iteration of Tick's loop: dispatch Tick(curFrame), increment the
    counter, and past FrameLength loop back to frame 1 or restart Default
    (EndBehavior, a no-op when there is no Default).
  */
  function Step(bs: seq<Behavior>, c: Cursor): (e: Effect)
    requires Active(bs, c)
    ensures Active(bs, e.cursor)
  {
    var b := c.behavior.value;
    var next := c.(frame := c.frame + 1);
    var tick := [TickAt(b, c.frame)];
    if next.frame <= bs[b].frameLength then Effect(next, tick)
    else if bs[b].isLoop then Effect(next.(frame := 1), tick)
    else match GetBehavior(bs, "Default")
      case None => Effect(next, tick)
      case Some(d) => var s := Started(bs, next, d); Effect(s.cursor, tick + s.events)
  }

  /** `n` consecutive logical steps. */
  function Run(bs: seq<Behavior>, c: Cursor, n: nat): (e: Effect)
    requires Active(bs, c)
    ensures Active(bs, e.cursor)
  {
    if n == 0 then Effect(c, [])
    else
      var e := Run(bs, c, n - 1);
      var s := Step(bs, e.cursor);
      Effect(s.cursor, e.events + s.events)
  }

  /** The number of Tick dispatches in a list of behavior calls. */
  function Ticks(es: seq<Event>): nat {
    if es == [] then 0 else (if es[0].TickAt? then 1 else 0) + Ticks(es[1..])
  }

  lemma {:induction false} TicksAppend(a: seq<Event>, b: seq<Event>)
    ensures Ticks(a + b) == Ticks(a) + Ticks(b)
    decreases |a|
  {
    if a == [] {
      assert a + b == b;
    } else {
      assert (a + b)[0] == a[0] && (a + b)[1..] == a[1..] + b;
      TicksAppend(a[1..], b);
    }
  }

  lemma {:induction false} TicksNone(es: seq<Event>)
    requires forall i :: 0 <= i < |es| ==> !es[i].TickAt?
    ensures Ticks(es) == 0
    decreases |es|
  {
    if es != [] {
      TicksNone(es[1..]);
    }
  }

  /** StartBehavior calls Exit on the old behavior, if any, strictly before Enter on the new one. */
  lemma StartedExitThenEnter(bs: seq<Behavior>, c: Cursor, b: nat)
    ensures c.behavior.None? ==> Started(bs, c, b).events == [Enter(b)]
    ensures c.behavior.Some? ==> Started(bs, c, b).events == [Exit(c.behavior.value), Enter(b)]
    ensures Ticks(Started(bs, c, b).events) == 0
  {
    TicksNone(Started(bs, c, b).events);
  }

  /** Each logical step dispatches exactly one Tick, and it is the first call of the step. */
  lemma StepTicksOnce(bs: seq<Behavior>, c: Cursor)
    requires Active(bs, c)
    ensures Step(bs, c).events != [] && Step(bs, c).events[0] == TickAt(c.behavior.value, c.frame)
    ensures Ticks(Step(bs, c).events) == 1
  {
    var e := Step(bs, c).events;
    assert e == [e[0]] + e[1..];
    TicksNone(e[1..]);
    TicksAppend([e[0]], e[1..]);
  }

  /** `n` steps dispatch exactly `n` Ticks. */
  lemma {:induction false} RunTicks(bs: seq<Behavior>, c: Cursor, n: nat)
    requires Active(bs, c)
    ensures Ticks(Run(bs, c, n).events) == n
  {
    if n > 0 {
      RunTicks(bs, c, n - 1);
      var e := Run(bs, c, n - 1);
      StepTicksOnce(bs, e.cursor);
      TicksAppend(e.events, Step(bs, e.cursor).events);
    }
  }

  /** A step keeps 1 <= curFrame <= FrameLength when frame lengths are positive and Default exists. */
  lemma StepKeepsFrameInRange(bs: seq<Behavior>, c: Cursor)
    requires FramesPositive(bs) && HasDefault(bs) && FrameInRange(bs, c)
    ensures FrameInRange(bs, Step(bs, c).cursor)
  {
  }

  lemma {:induction false} RunKeepsFrameInRange(bs: seq<Behavior>, c: Cursor, n: nat)
    requires FramesPositive(bs) && HasDefault(bs) && FrameInRange(bs, c)
    ensures FrameInRange(bs, Run(bs, c, n).cursor)
  {
    if n > 0 {
      RunKeepsFrameInRange(bs, c, n - 1);
      StepKeepsFrameInRange(bs, Run(bs, c, n - 1).cursor);
    }
  }

  /** Within one activation the frame advances by one per step. */
  lemma StepAdvancesFrame(bs: seq<Behavior>, c: Cursor)
    requires Active(bs, c) && c.frame < bs[c.behavior.value].frameLength
    ensures Step(bs, c) == Effect(c.(frame := c.frame + 1), [TickAt(c.behavior.value, c.frame)])
  {
  }

  /**
    Looping is not a transition: any number of steps of a looping behavior
    only dispatches Ticks to it, never Exit or Enter, and leaves the rest of
    the cursor as it was.
  */
  lemma {:induction false} LoopingRunStaysPut(bs: seq<Behavior>, c: Cursor, n: nat)
    requires FrameInRange(bs, c) && bs[c.behavior.value].isLoop
    ensures Run(bs, c, n).cursor == c.(frame := Run(bs, c, n).cursor.frame)
    ensures FrameInRange(bs, Run(bs, c, n).cursor)
    ensures forall i :: 0 <= i < |Run(bs, c, n).events| ==>
      Run(bs, c, n).events[i].TickAt? && Run(bs, c, n).events[i].behavior == c.behavior.value
  {
    if n > 0 {
      LoopingRunStaysPut(bs, c, n - 1);
    }
  }

  /**
    End of a non-looping behavior: the step after its last frame dispatches
    that frame, then calls Exit on it and Enter on Default, which starts at
    frame 1 with node index 0.
  */
  lemma EndRestartsDefault(bs: seq<Behavior>, c: Cursor, d: nat)
    requires Active(bs, c) && !bs[c.behavior.value].isLoop
    requires c.frame == bs[c.behavior.value].frameLength
    requires GetBehavior(bs, "Default") == Some(d)
    ensures Step(bs, c) == Effect(Cursor(Some(d), 1, 0, false),
                                  [TickAt(c.behavior.value, c.frame), Exit(c.behavior.value), Enter(d)])
  {
  }

  /** One more step appends that step's calls. */
  lemma RunOneMore(bs: seq<Behavior>, c: Cursor, n: nat)
    requires Active(bs, c)
    ensures Run(bs, c, n + 1).cursor == Step(bs, Run(bs, c, n).cursor).cursor
    ensures Run(bs, c, n + 1).events == Run(bs, c, n).events + Step(bs, Run(bs, c, n).cursor).events
  {
  }

  /**
    Steps compose: n + m steps are n steps followed by m more. With the
    clock's StepsSplit this means a burst of steps in one Tick drives the
    behaviors exactly as the same steps spread over several calls would,
    apart from the transition check each call adds.
  */
  lemma {:induction false} RunSplit(bs: seq<Behavior>, c: Cursor, n: nat, m: nat)
    requires Active(bs, c)
    ensures Run(bs, c, n + m).cursor == Run(bs, Run(bs, c, n).cursor, m).cursor
    ensures Run(bs, c, n + m).events == Run(bs, c, n).events + Run(bs, Run(bs, c, n).cursor, m).events
    decreases m
  {
    if m > 0 {
      var mid := Run(bs, c, n);
      var k := n + m - 1;
      RunSplit(bs, c, n, m - 1);
      var before, rest := Run(bs, c, k), Run(bs, mid.cursor, m - 1);
      assert before.cursor == rest.cursor && before.events == mid.events + rest.events;
      var step := Step(bs, rest.cursor);
      RunOneMore(bs, c, k);
      RunOneMore(bs, mid.cursor, m - 1);
      SplitTail(Run(bs, c, k + 1), before, Run(bs, mid.cursor, m), rest, step, mid.events);
    }
  }

  /** The bookkeeping of RunSplit's inductive step, on plain values. */
  lemma SplitTail(whole: Effect, before: Effect, tail: Effect, rest: Effect, step: Effect, prefix: seq<Event>)
    requires whole.cursor == step.cursor && whole.events == before.events + step.events
    requires tail.cursor == step.cursor && tail.events == rest.events + step.events
    requires before.events == prefix + rest.events
    ensures whole.cursor == tail.cursor && whole.events == prefix + tail.events
  {
    assert (prefix + rest.events) + step.events == prefix + (rest.events + step.events);
  }
}
