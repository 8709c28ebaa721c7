# Ability behavior tree — a Dafny model

This project models the ability state machine of a character controller in a
Unity game: `AbilityBehaviorTree`. The tree holds a list of behaviors (attack,
dash, idle, …) and a graph of nodes that bind behaviors to priorities and
successor nodes. Each frame the owner calls it with the elapsed time. The tree
checks buffered input for a transition, then runs one logical step per fixed
interval: it dispatches the current frame to the current behavior, advances
the frame counter, and loops or ends the behavior at its last frame. Two
versions of the class are modelled:

- the current one, `Assets/Scripts/Ability/AbilityBehaviorTree.cs`. It has a
  behavior list, a node list, name-based binding at load time,
  priority-arbitrated transitions and a 1-based frame counter. Modules:
  `AbilityData`, `Names`, `Selection`, `Lifecycle`, `FixedStep`,
  `AbilityTree`, plus a worked combo in `Scenarios`;
- the earlier one, `Assets/Ability/AbilityBehaviorTree.cs`. Nodes double as
  behaviors, the counter is 0-based and checked before it is incremented, and
  its dispatch hooks throw. Module `LegacyTree`.

How the model represents things:

- Behaviors and nodes are datatypes held in sequences and addressed by index.
  A null reference is `None`.
- "is Default" means index equality with `GetBehavior("Default")`, the first
  behavior named `Default`. This mirrors the source's reference comparison.
- The exceptions the code can raise on modelled paths are returned as a
  `Fault`, and state already changed before the throw stays changed. These
  are: `ArgumentOutOfRangeException` from a list index out of range, a null
  dereference, and
  `NotImplementedException`.
- Calls into behaviors and actions (`Enter`, `Exit`, `Tick(frame)`,
  `OnExit`) are appended to a ghost trace.
- The input buffer is a `seq` parameter.
- Node conditions are a parameter `holds`: the set of node indices whose
  `CheckCondition` is true at the moment of the check.
- Time is counted in whole units. The accumulator and the delta are natural
  numbers, the step length `fps` is a positive integer, and the loop test
  stays a strict `>`.

Behaviour kept as the code has it:

- On a selection, `curNodeIndex` becomes the winner's *behavior* index, not
  its node index. The field comment at
  Assets/Scripts/Ability/AbilityBehaviorTree.cs:29 says the two are equal here;
  `Scenarios.NodeIndexTakesBehaviorIndex` shows a graph where they differ.
- The transition check runs once per `Tick` call, before any logical step, not
  once per step.
- The digit fallback removes every digit of a node name (`Da2sh` becomes
  `Dash`), not only trailing ones.
- An out-of-range `curNodeIndex` is silently reset to 0. Without a `Default`
  behavior, `EndBehavior` does nothing and the counter keeps growing past the
  behavior's length. With no current behavior, the first step dereferences
  null.
- In the earlier version, `StartBehavior` calls `OnExit` on the actions of
  the behavior being started. Its `OnUpdate` loop can never finish an
  iteration, because `UpdateActions` throws.

## Model

| member | source | states |
|---|---|---|
| AbilityData.GetBehavior | Assets/Scripts/Ability/AbilityBehaviorTree.cs:167-179 | returns the first index whose behavior has the name; none exactly when no behavior has it |
| AbilityData.LastIndexNamed | Assets/Scripts/Ability/AbilityBehaviorTree.cs:72-76 | the name→index table entry: the last index with that name (a later duplicate overwrites), none when no behavior has it |
| AbilityData.Resolve | Assets/Scripts/Ability/AbilityBehaviorTree.cs:77-80 | an exact name match is used whenever one exists; only otherwise the digit-stripped name; duplicates resolve to the last index; none exactly when neither name exists |
| AbilityData.Bind | Assets/Scripts/Ability/AbilityBehaviorTree.cs:77-89 | only the node's behavior index changes; when the name resolves it becomes the resolved, valid behavior index, and otherwise the node is left as it was |
| AbilityData.InsertById | Assets/Scripts/Ability/AbilityBehaviorTree.cs:69 | inserting into an Id-sorted list keeps it sorted and adds exactly that node |
| AbilityData.SortById | Assets/Scripts/Ability/AbilityBehaviorTree.cs:69 | the result is in ascending Id order and is a permutation (same multiset) of the loaded nodes |
| Names.StripDigits | Assets/Scripts/Ability/AbilityBehaviorTree.cs:79 | the result has no digit, is no longer than the name, keeps only characters of the name, and is the name itself when it has no digit |
| Names.StripDigitsConcat | Assets/Scripts/Ability/AbilityBehaviorTree.cs:79 | stripping distributes over concatenation, so digits are removed wherever they are |
| Names.StripDigitsIdempotent | Assets/Scripts/Ability/AbilityBehaviorTree.cs:79 | stripping twice equals stripping once |
| Names.StripDigitsExamples | Assets/Scripts/Ability/AbilityBehaviorTree.cs:79 | `Dash1` and `Da2sh` both normalise to `Dash` |
| Selection.ScanChildren | Assets/Scripts/Ability/AbilityBehaviorTree.cs:195-214 | throws exactly when some child or its behavior index is out of range; otherwise none exactly when no candidate (input key buffered and condition true) has priority above -1, else a position holding the maximal priority that every earlier candidate undercuts strictly |
| Selection.WinnerUnique | Assets/Scripts/Ability/AbilityBehaviorTree.cs:207-211 | the winner condition determines the position uniquely, so ties go to the first candidate |
| Selection.WinnerExcludesNoCandidate | Assets/Scripts/Ability/AbilityBehaviorTree.cs:207-215 | a winner exists only when some candidate has priority above -1 |
| Selection.StartIndex | Assets/Scripts/Ability/AbilityBehaviorTree.cs:189-192 | the node index used is always in range: the current one when that is in range, 0 otherwise |
| Selection.SelectedInRange | Assets/Scripts/Ability/AbilityBehaviorTree.cs:199-200 | a selected behavior is a loaded one and the node index becomes that same number; the only exception is an index out of range |
| Lifecycle.Step | Assets/Scripts/Ability/AbilityBehaviorTree.cs:132-147 | a logical step always leaves a loaded behavior current |
| Lifecycle.Run | Assets/Scripts/Ability/AbilityBehaviorTree.cs:130-150 | any number of steps leaves a loaded behavior current |
| Lifecycle.StartedExitThenEnter | Assets/Scripts/Ability/AbilityBehaviorTree.cs:231-234 | starting a behavior calls Exit on the old one, if any, strictly before Enter on the new one (also when they are the same), and dispatches no Tick |
| Lifecycle.StepTicksOnce | Assets/Scripts/Ability/AbilityBehaviorTree.cs:132-147 | each step dispatches exactly one Tick, with the current frame, as its first call |
| Lifecycle.RunTicks | Assets/Scripts/Ability/AbilityBehaviorTree.cs:130-150 | n steps dispatch exactly n Ticks |
| Lifecycle.StepKeepsFrameInRange | Assets/Scripts/Ability/AbilityBehaviorTree.cs:132-147 | with positive frame lengths and a Default behavior, a step keeps 1 <= curFrame <= FrameLength |
| Lifecycle.RunKeepsFrameInRange | Assets/Scripts/Ability/AbilityBehaviorTree.cs:130-150 | the same invariant holds after any number of steps |
| Lifecycle.StepAdvancesFrame | Assets/Scripts/Ability/AbilityBehaviorTree.cs:132-137 | before the last frame a step only dispatches the frame and increments the counter by one |
| Lifecycle.LoopingRunStaysPut | Assets/Scripts/Ability/AbilityBehaviorTree.cs:139-142 | a looping behavior keeps its frame in range and never gets Exit or Enter; node index and CanCancel stay as they were |
| Lifecycle.EndRestartsDefault | Assets/Scripts/Ability/AbilityBehaviorTree.cs:143-146 | after the last frame of a non-looping behavior: Tick(last frame), Exit(old), Enter(Default), then frame 1 on node 0 with CanCancel cleared |
| Lifecycle.RunSplit | Assets/Scripts/Ability/AbilityBehaviorTree.cs:130-150 | n + m steps equal n steps followed by m steps, cursor and calls |
| FixedStep.Steps | Assets/Scripts/Ability/AbilityBehaviorTree.cs:130 | the loop runs no step exactly when the accumulator is at most one interval |
| FixedStep.Residue | Assets/Scripts/Ability/AbilityBehaviorTree.cs:149 | what is left is at most one interval, never more than the accumulator, and positive when the accumulator was |
| FixedStep.StepsAccount | Assets/Scripts/Ability/AbilityBehaviorTree.cs:127-150 | no time is dropped (residue + steps·fps = accumulator), and every step ran while more than one interval was left |
| FixedStep.StepsSplit | Assets/Scripts/Ability/AbilityBehaviorTree.cs:127-150 | two calls with d1 and d2 run as many steps and leave the same residue as one call with d1 + d2 |
| AbilityTree.AbilityBehaviorTree.constructor | Assets/Scripts/Ability/AbilityBehaviorTree.cs:43-47 | empty lists, no behavior, counters at 0, step length fixed |
| AbilityTree.AbilityBehaviorTree.Init | Assets/Scripts/Ability/AbilityBehaviorTree.cs:51-59 | behaviors loaded, nodes sorted and bound, then Default started (frame 1, node 0, one Enter) or nothing when it is missing |
| AbilityTree.AbilityBehaviorTree.LoadBehavior | Assets/Scripts/Ability/AbilityBehaviorTree.cs:92-99 | the behavior list becomes the loaded one, empty or not |
| AbilityTree.AbilityBehaviorTree.LoadNode | Assets/Scripts/Ability/AbilityBehaviorTree.cs:61-90 | an empty load stays empty; otherwise the nodes are the Id-sorted load with each node bound by Resolve, and are in ascending Id order |
| AbilityTree.AbilityBehaviorTree.LogicalStep | Assets/Scripts/Ability/AbilityBehaviorTree.cs:132-147 | cursor and calls change exactly as one Step |
| AbilityTree.AbilityBehaviorTree.EndBehavior | Assets/Scripts/Ability/AbilityBehaviorTree.cs:162-165 | starts Default when it exists, changes nothing otherwise |
| AbilityTree.AbilityBehaviorTree.LoopBehavior | Assets/Scripts/Ability/AbilityBehaviorTree.cs:157-160 | the counter returns to 1 and nothing else changes |
| AbilityTree.AbilityBehaviorTree.StartBehavior | Assets/Scripts/Ability/AbilityBehaviorTree.cs:226-242 | null changes nothing and calls nothing; otherwise Exit(old) if any, then Enter(new), curFrame = 1, the new behavior current, CanCancel false, node index 0 exactly when the new behavior is Default and unchanged otherwise |
| AbilityTree.AbilityBehaviorTree.TryGetNextBehavior | Assets/Scripts/Ability/AbilityBehaviorTree.cs:181-224 | null when there are no nodes (index untouched) or no candidate (index reset if out of range); an out-of-range child throws; a selection is the unique winner's behavior, and the node index becomes that behavior index |
| AbilityTree.AbilityBehaviorTree.Tick | Assets/Scripts/Ability/AbilityBehaviorTree.cs:119-151 | one transition check, whose Exit/Enter calls come before every step; then exactly Steps(acc + delta) logical steps as Run, leaving Residue(acc + delta); an exception in the check leaves time untouched; with no behavior, a null dereference exactly when a step is due; the frame-range invariant carries over |
| AbilityTree.AbilityBehaviorTree.RunElapsed | Assets/Scripts/Ability/AbilityBehaviorTree.cs:127-150 | accumulate delta, then run as many steps as the clock allows, with cursor and calls those of Run |
| Scenarios.ComboLoad | Assets/Scripts/Ability/AbilityBehaviorTree.cs:69-89 | loading the combo keeps the Id order and binds the Attack node to the Attack behavior |
| Scenarios.ComboSelect | Assets/Scripts/Ability/AbilityBehaviorTree.cs:195-221 | from Default with "A" buffered, the Attack child is selected and the node index becomes 1 |
| Scenarios.ComboRun | Assets/Scripts/Ability/AbilityBehaviorTree.cs:130-150 | 41 time units at interval 10 run 4 steps: Attack frames 1 to 3, Exit(Attack), Enter(Default), then Default's looping frame |
| Scenarios.ComboInit | Assets/Scripts/Ability/AbilityBehaviorTree.cs:51-59 | Init on the combo leaves Default at frame 1, node 0, after one Enter |
| Scenarios.ComboTick | Assets/Scripts/Ability/AbilityBehaviorTree.cs:119-151 | one Tick of 41 units with "A" buffered calls, in order, Exit(Default), Enter(Attack), Attack frames 1 to 3, Exit(Attack), Enter(Default), Default frame 1, and leaves Default at frame 1, node 0, with 1 time unit left |
| Scenarios.NodeIndexTakesBehaviorIndex | Assets/Scripts/Ability/AbilityBehaviorTree.cs:215-218 | when the winning node is node 2 bound to behavior 1, the node index becomes 1, not 2 |
| LegacyTree.GetBehavior | Assets/Ability/AbilityBehaviorTree.cs:90-102 | returns the first node named `name`; none exactly when no node has that name |
| LegacyTree.Exits | Assets/Ability/AbilityBehaviorTree.cs:120-126 | OnExit is called on the actions in order, up to the first null entry, where it throws |
| LegacyTree.ExitsAppend | Assets/Ability/AbilityBehaviorTree.cs:122-125 | one more non-null action adds exactly its OnExit call |
| LegacyTree.ExitsStopAtNull | Assets/Ability/AbilityBehaviorTree.cs:122-125 | no action after the first null entry gets OnExit |
| LegacyTree.LegacyBehaviorTree.constructor | Assets/Ability/AbilityBehaviorTree.cs:33-37 | an empty node list, no current behavior, counters at 0 |
| LegacyTree.LegacyBehaviorTree.AssignBehaviors | Assets/Ability/AbilityBehaviorTree.cs:27 | the owner assigning the public node list: the list becomes the given one and no behavior is current |
| LegacyTree.LegacyBehaviorTree.ResetBehavior | Assets/Ability/AbilityBehaviorTree.cs:120-126 | the calls are exactly Exits of the behavior's actions; it throws exactly when an action is null |
| LegacyTree.LegacyBehaviorTree.StartBehavior | Assets/Ability/AbilityBehaviorTree.cs:104-118 | null is a no-op; otherwise OnExit on the NEW behavior's actions, then curFrame = 0, the new behavior current, CanCancel false, child index 0 exactly when it is Default; a null action throws before any field changes |
| LegacyTree.LegacyBehaviorTree.LoopBehavior | Assets/Ability/AbilityBehaviorTree.cs:80-83 | the counter returns to 0 |
| LegacyTree.LegacyBehaviorTree.EndBehavior | Assets/Ability/AbilityBehaviorTree.cs:85-88 | starts Default (frame 0, child index 0) when it exists, changes nothing otherwise |
| LegacyTree.LegacyBehaviorTree.UpdateActions | Assets/Ability/AbilityBehaviorTree.cs:72-75 | always throws NotImplementedException |
| LegacyTree.LegacyBehaviorTree.UpdateAttack | Assets/Ability/AbilityBehaviorTree.cs:67-70 | always throws NotImplementedException |
| LegacyTree.LegacyBehaviorTree.OnUpdate | Assets/Ability/AbilityBehaviorTree.cs:39-65 | without a behavior, nothing changes, not even time; otherwise time accumulates and is never consumed; past one interval, the counter is looped to 0, restarted with Default or left as is, then incremented, and the call ends in an exception; with positive lengths and Default present, the counter ends in [1, FrameLength] |

## Left out

- Asset loading (`Resources.LoadAll`): the loaded node and behavior lists are parameters of `Init`.
- Diagnostics (`Debug.LogError`, `Debugger.Log`): they have no effect on state.
- The input singleton (`GameManager_Input.Instance.bufferKeys`): the buffer is a parameter.
- `Time.deltaTime` and the float interval `1 / TargetFrameRate`: time is in whole units, with no float rounding.
- The back-reference wiring `behavior.Init(this)` and `action?.Init(this)` in `LoadBehavior`: it stores a back-reference and changes no modelled state.
- The bodies of `AbilityBehavior.Tick/Enter/Exit`, `AbilityNode.CheckCondition` and `AbilityAction.OnExit`: they are not part of this model. Their calls are recorded as events, conditions are given as a set, and exceptions they might raise are not modelled.
- The empty `Init()`, `Enter()` and `Exit()` of the `ILogic` interface: they do nothing.
- The unused `ResetBehavior` of the current version (Assets/Scripts/Ability/AbilityBehaviorTree.cs:244-250): nothing calls it.
- The owning actor (ActorModel.cs), movement actions (MovementAction.cs) and PlayerController.cs: engine physics and component wiring. ActorModel also calls a tree interface that neither version here has.
- 32-bit wrap-around of `curFrame`: the counter only grows without bound when `Default` is missing, and the model's integers are unbounded.
- Names.StripDigits: removes only the ASCII digits 0-9; .NET's `\d` also matches other Unicode decimal digits.
- AbilityData.SortById: `List.Sort` is not stable, so nodes with equal Ids may come out in any order; the model fixes one such order, and its contract promises only sortedness and permutation.
- AbilityTree.AbilityBehaviorTree.Init: modelled only for a tree that has no current behavior yet. Calling it again would leave `curBehavior` pointing at an object outside the reloaded list, and the index addressing cannot express that.
- AbilityTree.AbilityBehaviorTree.RunElapsed: checks the null current behavior once before the loop rather than inside it. No step makes the behavior null again, so the outcome is the same.
- LegacyTree.LegacyBehaviorTree.OnUpdate: the source's `while` is an `if`, because every iteration ends in the exception thrown by `UpdateActions`.
- LegacyTree.LegacyBehaviorTree.constructor: the public `behaviorsList` is filled only through `AssignBehaviors`, before any behavior is started, and is fixed from then on; the owner reassigning or mutating the list later is not modelled.
- Object identity: behaviors and nodes are addressed by index, and "is Default" is index equality with the first `Default`. This matches the source's reference comparisons (Assets/Scripts/Ability/AbilityBehaviorTree.cs:236, Assets/Ability/AbilityBehaviorTree.cs:113) only when the lists hold distinct, non-null objects. A list holding the same object twice is not modelled: in the source, starting it at its second position also resets the node or child index. A null entry is not modelled either: in the source, `GetBehavior` would throw at Assets/Ability/AbilityBehaviorTree.cs:94.
- Callbacks writing the tree: `behavior.Init(this)` and `action?.Init(this)` hand the tree to the behaviors and actions, and `CanCancel` is public. The core itself only clears it (Assets/Scripts/Ability/AbilityBehaviorTree.cs:240), so something outside the core sets it. The model assumes `Enter`, `Exit`, `Tick` and `CheckCondition` change no field of the tree. `Lifecycle.LoopingRunStaysPut` and `Tick`'s agreement with `Run`, which say that the cursor and `CanCancel` change only as the core changes them, rest on this assumption.
- The earlier version's `actorModel`: only its `CanCancel` flag is used, and it is a field of the model's tree.
