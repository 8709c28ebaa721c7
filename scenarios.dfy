/**
  A combo on the current tree: Default (one frame, looping) has child Attack
  (three frames, not looping, input "A"), and Attack leads back to Default.
*/
module Scenarios {
  import opened Outcomes
  import opened AbilityData
  import opened Selection
  import opened Lifecycle
  import FixedStep
  import opened AbilityTree

  function ComboBehaviors(): seq<Behavior> {
    [Behavior("Default", 1, true, ""), Behavior("Attack", 3, false, "A")]
  }

  function ComboNodes(): seq<Node> {
    [Node("Default", 0, 0, [1], 0), Node("Attack", 1, 1, [0], 0)]
  }

  /** Loading binds the Attack node to the Attack behavior; the order by Id is kept. */
  lemma ComboLoad()
    ensures SortById(ComboNodes()) == ComboNodes()
    ensures Bind(ComboBehaviors(), ComboNodes()[0]) == ComboNodes()[0]
    ensures Bind(ComboBehaviors(), ComboNodes()[1]) == Node("Attack", 1, 1, [0], 1)
  {
    var bs := ComboBehaviors();
    assert LastIndexNamed(bs, "Default") == Some(0);
    assert LastIndexNamed(bs, "Attack") == Some(1);
  }

  function BoundComboNodes(): seq<Node> {
    [Node("Default", 0, 0, [1], 0), Node("Attack", 1, 1, [0], 1)]
  }

  /** From Default with "A" buffered, the Attack child wins and the node index becomes 1. */
  lemma ComboSelect(r: Outcome<Option<nat>>, idx1: nat)
    requires Selected(BoundComboNodes(), ComboBehaviors(), 0, ["A"], {0, 1}, r, idx1)
    ensures r == Ok(Some(1)) && idx1 == 1
  {
    var ns, bs := BoundComboNodes(), ComboBehaviors();
    assert IsWinnerAt(ns, bs, [1], ["A"], {0, 1}, 0);
    assert !NoCandidate(ns, bs, [1], ["A"], {0, 1});
    var k :| IsWinnerAt(ns, bs, [1], ["A"], {0, 1}, k) &&
             r == Ok(Some(ns[[1][k]].behaviorIndex as nat)) && idx1 == ns[[1][k]].behaviorIndex;
    WinnerUnique(ns, bs, [1], ["A"], {0, 1}, k, 0);
  }

  /**
    After Attack starts, four steps play its three frames, end it with an
    Exit/Enter pair back to Default at node 0, and play Default's frame, which
    loops.
  */
  lemma ComboRun()
    ensures FixedStep.Steps(41, 10) == 4
    ensures Run(ComboBehaviors(), Cursor(Some(1), 1, 1, false), 4) ==
      Effect(Cursor(Some(0), 1, 0, false),
             [TickAt(1, 1), TickAt(1, 2), TickAt(1, 3), Exit(1), Enter(0), TickAt(0, 1)])
  {
    var bs := ComboBehaviors();
    assert GetBehavior(bs, "Default") == Some(0);
    var c := Cursor(Some(1), 1, 1, false);
    assert Run(bs, c, 1) == Effect(c.(frame := 2), [TickAt(1, 1)]);
    assert Run(bs, c, 2) == Effect(c.(frame := 3), [TickAt(1, 1), TickAt(1, 2)]);
    assert Run(bs, c, 3) == Effect(Cursor(Some(0), 1, 0, false), [TickAt(1, 1), TickAt(1, 2), TickAt(1, 3), Exit(1), Enter(0)]);
  }

  /** Init on the combo: Default starts at frame 1 on node 0. */
  method ComboInit() returns (tree: AbilityBehaviorTree)
    ensures tree.Valid() && tree.fps == 10 && tree.cacheTime == 0
    ensures tree.behaviors == ComboBehaviors() && tree.nodes == BoundComboNodes()
    ensures tree.Cur() == Cursor(Some(0), 1, 0, false) && tree.trace == [Enter(0)]
  {
    tree := new AbilityBehaviorTree(10);
    tree.Init(ComboNodes(), ComboBehaviors());
    ComboLoad();
    assert GetBehavior(ComboBehaviors(), "Default") == Some(0);
  }

  /**
    One Tick of just over four intervals with "A" buffered: a single
    transition to Attack, its three frames, the return to Default at node 0,
    and one frame of Default.
  */
  method ComboTick(tree: AbilityBehaviorTree)
    requires tree.Valid() && tree.fps == 10 && tree.cacheTime == 0
    requires tree.behaviors == ComboBehaviors() && tree.nodes == BoundComboNodes()
    requires tree.Cur() == Cursor(Some(0), 1, 0, false) && tree.trace == [Enter(0)]
    modifies tree
    ensures tree.Cur() == Cursor(Some(0), 1, 0, false) && tree.cacheTime == 1
    ensures tree.trace == [Enter(0), Exit(0), Enter(1), TickAt(1, 1), TickAt(1, 2), TickAt(1, 3), Exit(1), Enter(0), TickAt(0, 1)]
  {
    ComboRun();
    var fault, chosen, idx1, turn, steps := tree.Tick(41, ["A"], {0, 1});
    ComboSelect(chosen, idx1);
    assert turn == Effect(Cursor(Some(1), 1, 1, false), [Exit(0), Enter(1)]);
    assert fault.None? && steps == 4;
    assert FixedStep.Residue(41, 10) == 1;
    assert tree.trace == [Enter(0)] + [Exit(0), Enter(1)] + Run(ComboBehaviors(), turn.cursor, 4).events;
  }

  function QuirkNodes(): seq<Node> {
    [Node("Default", 0, 0, [2], 0), Node("Idle", 1, 0, [], 0), Node("Attack", 2, 1, [0], 1)]
  }

  /**
    The node index a selection leaves is the winner's behavior index, not its
    node index: the Attack node (node 2, behavior 1) wins, and the tree moves
    to node 1, so the next check consults node 1's children.
  */
  lemma NodeIndexTakesBehaviorIndex(r: Outcome<Option<nat>>, idx1: nat)
    requires Selected(QuirkNodes(), ComboBehaviors(), 0, ["A"], {0, 1, 2}, r, idx1)
    ensures r == Ok(Some(1)) && idx1 == 1
    ensures IsWinnerAt(QuirkNodes(), ComboBehaviors(), QuirkNodes()[0].children, ["A"], {0, 1, 2}, 0)
    ensures QuirkNodes()[0].children[0] == 2 != idx1
  {
    var ns, bs := QuirkNodes(), ComboBehaviors();
    assert IsWinnerAt(ns, bs, [2], ["A"], {0, 1, 2}, 0);
    assert !NoCandidate(ns, bs, [2], ["A"], {0, 1, 2});
    var k :| IsWinnerAt(ns, bs, [2], ["A"], {0, 1, 2}, k) &&
             r == Ok(Some(ns[[2][k]].behaviorIndex as nat)) && idx1 == ns[[2][k]].behaviorIndex;
    WinnerUnique(ns, bs, [2], ["A"], {0, 1, 2}, k, 0);
  }
}
