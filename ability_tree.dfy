/**
  The current ability state machine (AbilityBehaviorTree): it binds nodes to
  behaviors at load time, then on every Tick call checks once for an
  input-driven transition and runs one logical step per elapsed interval.
*/
module AbilityTree {
  import opened Outcomes
  import opened Names
  import opened AbilityData
  import opened Selection
  import opened Lifecycle
  import FixedStep

  class AbilityBehaviorTree {
    /** Frame counter of the current behavior (1-based). */
    var curFrame: int
    /** The running behavior, as an index into `behaviors`; None is null. */
    var curBehavior: Option<nat>
    /** Index into `nodes` of the current node. */
    var curNodeIndex: nat
    var nodes: seq<Node>
    var behaviors: seq<Behavior>
    /** Length of one logical step, in time units. */
    const fps: nat
    /** Time accumulated and not yet consumed by logical steps. */
    var cacheTime: nat
    /** Whether gameplay code outside the tree may cancel the current behavior. */
    var canCancel: bool
    /** The Enter, Exit and Tick calls made on behaviors so far. */
    ghost var trace: seq<Event>

    ghost predicate Valid()
      reads this
    {
      fps > 0 && (curBehavior.Some? ==> curBehavior.value < |behaviors|)
    }

    function Cur(): Cursor
      reads this
    {
      Cursor(curBehavior, curFrame, curNodeIndex, canCancel)
    }

    /** `new AbilityBehaviorTree(model)`: empty lists, no behavior, step length 1 / TargetFrameRate. */
    constructor (fps: nat)
      requires fps > 0
      ensures Valid() && this.fps == fps
      ensures Cur() == Cursor(None, 0, 0, false) && cacheTime == 0
      ensures nodes == [] && behaviors == [] && trace == []
    {
      this.fps := fps;
      curFrame, curBehavior, curNodeIndex := 0, None, 0;
      nodes, behaviors := [], [];
      cacheTime, canCancel := 0, false;
      trace := [];
    }

    /**
      `Init(nodePath, behaviorPath)` with the loaded lists given directly:
      load behaviors, then nodes, then start Default. Modelled for a tree that
      has not started a behavior yet.
    */
    method Init(loadedNodes: seq<Node>, loadedBehaviors: seq<Behavior>)
      requires Valid() && curBehavior.None?
      modifies this`nodes, this`behaviors, this`curFrame, this`curBehavior, this`curNodeIndex, this`canCancel, this`trace
      ensures Valid()
      ensures behaviors == loadedBehaviors
      ensures loadedNodes == [] ==> nodes == []
      ensures loadedNodes != [] ==> |nodes| == |loadedNodes|
      ensures loadedNodes != [] ==> forall i :: 0 <= i < |nodes| ==> nodes[i] == Bind(behaviors, SortById(loadedNodes)[i])
      ensures GetBehavior(behaviors, "Default").None? ==> Cur() == old(Cur()) && trace == old(trace)
      ensures GetBehavior(behaviors, "Default").Some? ==>
        var d := GetBehavior(behaviors, "Default").value;
        Cur() == Cursor(Some(d), 1, 0, false) && trace == old(trace) + [Enter(d)]
    {
      LoadBehavior(loadedBehaviors);
      LoadNode(loadedNodes);
      StartBehavior(GetBehavior(behaviors, "Default"));
    }

    /** LoadBehavior: the behavior list becomes the loaded one (an empty list is only reported). */
    method LoadBehavior(loaded: seq<Behavior>)
      requires Valid() && curBehavior.None?
      modifies this`behaviors
      ensures Valid()
      ensures behaviors == loaded
    {
      behaviors := loaded;
    }

    /**
      LoadNode: the node list becomes the loaded one; unless it is empty, it
      is sorted by Id and every node whose name resolves is bound to that
      behavior index (exact name first, then the name without digits; for a
      name shared by several behaviors, the last one).
    */
    method LoadNode(loaded: seq<Node>)
      modifies this`nodes
      ensures loaded == [] ==> nodes == []
      ensures loaded != [] ==> |nodes| == |loaded|
      ensures loaded != [] ==> forall i :: 0 <= i < |nodes| ==> nodes[i] == Bind(behaviors, SortById(loaded)[i])
      ensures loaded != [] ==> IdSorted(nodes)
    {
      nodes := loaded;
      if |nodes| == 0 {
        return;
      }
      nodes := SortById(nodes);
      ghost var sorted := nodes;

      var name2Index: map<string, nat> := map[];
      var i := 0;
      while i < |behaviors|
        invariant 0 <= i <= |behaviors|
        invariant forall n :: n in name2Index <==> LastIndexNamed(behaviors[..i], n).Some?
        invariant forall n :: n in name2Index ==> LastIndexNamed(behaviors[..i], n) == Some(name2Index[n])
      {
        assert behaviors[..i + 1][..i] == behaviors[..i];
        name2Index := name2Index[behaviors[i].name := i];
        i := i + 1;
      }
      assert behaviors[..i] == behaviors;

      var j := 0;
      while j < |nodes|
        invariant 0 <= j <= |nodes| && |nodes| == |sorted|
        invariant forall k :: 0 <= k < j ==> nodes[k] == Bind(behaviors, sorted[k])
        invariant forall k :: j <= k < |nodes| ==> nodes[k] == sorted[k]
        invariant forall k :: 0 <= k < |nodes| ==> nodes[k].id == sorted[k].id
      {
        var item := nodes[j];
        var nameT := StripDigits(item.name);
        if item.name in name2Index {
          nodes := nodes[j := item.(behaviorIndex := name2Index[item.name])];
        } else if nameT in name2Index {
          nodes := nodes[j := item.(behaviorIndex := name2Index[nameT])];
        }
        j := j + 1;
      }
    }

    /**
      The body of Tick's loop, less the time bookkeeping: dispatch
      Tick(curFrame) to the current behavior, increment the counter, and past
      FrameLength loop or end the behavior.
    */
    method LogicalStep()
      requires Valid() && curBehavior.Some?
      modifies this`curBehavior, this`curFrame, this`curNodeIndex, this`canCancel, this`trace
      ensures Valid() && curBehavior.Some?
      ensures Cur() == Step(behaviors, old(Cur())).cursor
      ensures trace == old(trace) + Step(behaviors, old(Cur())).events
    {
      var b := curBehavior.value;
      trace := trace + [TickAt(b, curFrame)];
      curFrame := curFrame + 1;
      if curFrame > behaviors[b].frameLength {
        if behaviors[b].isLoop {
          LoopBehavior();
        } else {
          EndBehavior();
        }
      }
    }

    /** EndBehavior: restart Default. */
    method EndBehavior()
      requires Valid()
      modifies this`curBehavior, this`curFrame, this`curNodeIndex, this`canCancel, this`trace
      ensures Valid()
      ensures GetBehavior(behaviors, "Default").None? ==> Cur() == old(Cur()) && trace == old(trace)
      ensures GetBehavior(behaviors, "Default").Some? ==>
        var e := Started(behaviors, old(Cur()), GetBehavior(behaviors, "Default").value);
        Cur() == e.cursor && trace == old(trace) + e.events
    {
      StartBehavior(GetBehavior(behaviors, "Default"));
    }

    /** LoopBehavior: back to the first frame; no Exit or Enter. */
    method LoopBehavior()
      modifies this`curFrame
      ensures curFrame == 1
    {
      curFrame := 1;
    }

    /**
      StartBehavior: null is a no-op; otherwise Exit the current behavior if
      there is one, restart the counter at 1, Enter the new behavior, reset
      the node index when it is Default, and clear CanCancel.
    */
    method StartBehavior(next: Option<nat>)
      requires Valid()
      requires next.Some? ==> next.value < |behaviors|
      modifies this`curBehavior, this`curFrame, this`curNodeIndex, this`canCancel, this`trace
      ensures Valid()
      ensures next.None? ==> Cur() == old(Cur()) && trace == old(trace)
      ensures next.Some? ==> curBehavior == next && curFrame == 1 && !canCancel
      ensures next.Some? ==> curNodeIndex == if IsDefault(behaviors, next.value) then 0 else old(curNodeIndex)
      ensures next.Some? && old(curBehavior).Some? ==> trace == old(trace) + [Exit(old(curBehavior).value), Enter(next.value)]
      ensures next.Some? && old(curBehavior).None? ==> trace == old(trace) + [Enter(next.value)]
      ensures next.Some? ==>
        var e := Started(behaviors, old(Cur()), next.value);
        Cur() == e.cursor && trace == old(trace) + e.events
    {
      if next.None? {
        return;
      }
      var b := next.value;
      if curBehavior.Some? {
        trace := trace + [Exit(curBehavior.value)];
      }
      curFrame := 1;
      curBehavior := next;
      trace := trace + [Enter(b)];
      if curBehavior == GetBehavior(behaviors, "Default") {
        curNodeIndex := 0;
      }
      canCancel := false;
    }

    /**
      TryGetNextBehavior: the behavior to switch to, selected among the
      children of the current node, or null; the node index becomes the
      winner's behavior index.
    */
    method TryGetNextBehavior(buffer: seq<Key>, holds: set<int>) returns (r: Outcome<Option<nat>>)
      requires Valid()
      modifies this`curNodeIndex
      ensures Valid()
      ensures Selected(nodes, behaviors, old(curNodeIndex), buffer, holds, r, curNodeIndex)
    {
      if |nodes| == 0 {
        return Ok(None);
      }
      if curNodeIndex >= |nodes| {
        curNodeIndex := 0;
      }
      var curNode := nodes[curNodeIndex];
      var scan := ScanChildren(nodes, behaviors, curNode.children, buffer, holds);
      match scan
      case Thrown(f) =>
        return Thrown(f);
      case Ok(None) =>
        return Ok(None);
      case Ok(Some(k)) =>
        WinnerExcludesNoCandidate(nodes, behaviors, curNode.children, buffer, holds, k);
        var nextNode := nodes[curNode.children[k]];
        curNodeIndex := nextNode.behaviorIndex;
        return Ok(Some(curNodeIndex));
    }

    /**
      Tick: one transition check, then accumulate `delta` and run one logical
      step per elapsed interval. The ghost results name what happened:
      `chosen` and `idx1` are the transition check's result and node index,
      `turn` the cursor and calls once the check is done, `steps` the number
      of logical steps run.
    */
    method Tick(delta: nat, buffer: seq<Key>, holds: set<int>)
      returns (fault: Option<Fault>, ghost chosen: Outcome<Option<nat>>, ghost idx1: nat,
               ghost turn: Effect, ghost steps: nat)
      requires Valid()
      modifies this`curBehavior, this`curFrame, this`curNodeIndex, this`canCancel, this`trace, this`cacheTime
      ensures Valid()
      ensures Selected(nodes, behaviors, old(curNodeIndex), buffer, holds, chosen, idx1)
      ensures turn == AfterSelection(behaviors, old(Cur()), chosen, idx1)
      ensures turn.cursor.behavior.Some? ==> Active(behaviors, turn.cursor)
      // the exception of the transition check escapes before time is accumulated
      ensures chosen.Thrown? ==>
        fault == Some(chosen.fault) && Cur() == turn.cursor && trace == old(trace) && cacheTime == old(cacheTime)
      // no behavior at all: the first step dereferences null
      ensures chosen.Ok? && turn.cursor.behavior.None? ==>
        Cur() == turn.cursor && trace == old(trace) && cacheTime == old(cacheTime) + delta &&
        fault == if old(cacheTime) + delta > fps then Some(NullReference) else None
      ensures chosen.Ok? && turn.cursor.behavior.Some? ==>
        && fault.None?
        && steps == FixedStep.Steps(old(cacheTime) + delta, fps)
        && cacheTime == FixedStep.Residue(old(cacheTime) + delta, fps)
        && Cur() == Run(behaviors, turn.cursor, steps).cursor
        && trace == old(trace) + turn.events + Run(behaviors, turn.cursor, steps).events
      ensures FramesPositive(behaviors) && HasDefault(behaviors) && FrameInRange(behaviors, old(Cur())) && fault.None? ==>
        FrameInRange(behaviors, Cur())
    {
      var nextBehavior := TryGetNextBehavior(buffer, holds);
      chosen, idx1 := nextBehavior, curNodeIndex;
      SelectedInRange(nodes, behaviors, old(curNodeIndex), buffer, holds, chosen, idx1);
      turn := AfterSelection(behaviors, old(Cur()), chosen, idx1);
      steps := 0;
      if nextBehavior.Thrown? {
        return Some(nextBehavior.fault), chosen, idx1, turn, steps;
      }
      if nextBehavior.value.Some? {
        StartBehavior(nextBehavior.value);
      }
      assert Cur() == turn.cursor && trace == old(trace) + turn.events;
      fault, steps := RunElapsed(delta);
      if FramesPositive(behaviors) && HasDefault(behaviors) && FrameInRange(behaviors, old(Cur())) && fault.None? {
        assert FrameInRange(behaviors, turn.cursor);
      }
    }

    /**
      The second half of Tick: accumulate `delta`, then
      `while (cacheTime > fps) { <logical step>; cacheTime -= fps; }`.
      `steps` is the number of logical steps run.
    */
    method RunElapsed(delta: nat) returns (fault: Option<Fault>, ghost steps: nat)
      requires Valid()
      modifies this`curBehavior, this`curFrame, this`curNodeIndex, this`canCancel, this`trace, this`cacheTime
      ensures Valid()
      ensures old(curBehavior).None? ==>
        Cur() == old(Cur()) && trace == old(trace) && cacheTime == old(cacheTime) + delta &&
        fault == if old(cacheTime) + delta > fps then Some(NullReference) else None
      ensures old(curBehavior).Some? ==>
        && fault.None?
        && steps == FixedStep.Steps(old(cacheTime) + delta, fps)
        && cacheTime == FixedStep.Residue(old(cacheTime) + delta, fps)
        && Cur() == Run(behaviors, old(Cur()), steps).cursor
        && trace == old(trace) + Run(behaviors, old(Cur()), steps).events
      ensures FramesPositive(behaviors) && HasDefault(behaviors) && FrameInRange(behaviors, old(Cur())) && fault.None? ==>
        FrameInRange(behaviors, Cur())
    {
      ghost var start := Cur();
      steps := 0;
      cacheTime := cacheTime + delta;
      if curBehavior.None? {
        // curBehavior.Tick(curFrame) dereferences null on the first iteration;
        // no step changes curBehavior back to null, so that is the only place it can
        return (if cacheTime > fps then Some(NullReference) else None), steps;
      }
      while cacheTime > fps
        invariant Valid() && curBehavior.Some?
        invariant FixedStep.Steps(old(cacheTime) + delta, fps) == steps + FixedStep.Steps(cacheTime, fps)
        invariant FixedStep.Residue(old(cacheTime) + delta, fps) == FixedStep.Residue(cacheTime, fps)
        invariant Cur() == Run(behaviors, start, steps).cursor
        invariant trace == old(trace) + Run(behaviors, start, steps).events
        decreases cacheTime
      {
        LogicalStep();
        cacheTime := cacheTime - fps;
        steps := steps + 1;
      }
      fault := None;
      if FramesPositive(behaviors) && HasDefault(behaviors) && FrameInRange(behaviors, start) {
        RunKeepsFrameInRange(behaviors, start, steps);
      }
    }
  }
}
