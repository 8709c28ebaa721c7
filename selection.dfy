/**
  Transition selection of the current tree (TryGetNextBehavior): among the
  children of the current node, a candidate needs its behavior's input key in
  the input buffer and its node condition to hold; the strictly highest
  priority above -1 wins and the first one seen wins a tie.
*/
module Selection {
  import opened Outcomes
  import opened AbilityData

  /** Both `nodeList[c]` and `behaviorsList[nodeList[c].BehaviorIndex]` exist. */
  predicate ChildOk(nodes: seq<Node>, bs: seq<Behavior>, c: int) {
    0 <= c < |nodes| && 0 <= nodes[c].behaviorIndex < |bs|
  }

  predicate AllChildrenOk(nodes: seq<Node>, bs: seq<Behavior>, children: seq<int>) {
    forall k :: 0 <= k < |children| ==> ChildOk(nodes, bs, children[k])
  }

  /**
    Node `c` is a candidate: its behavior's input key is buffered and its
    condition holds (`holds` is the set of nodes whose CheckCondition is true
    at the moment of the check).
  */
  predicate Qualifies(nodes: seq<Node>, bs: seq<Behavior>, c: int, buffer: seq<Key>, holds: set<int>) {
    ChildOk(nodes, bs, c) && bs[nodes[c].behaviorIndex].inputKey in buffer && c in holds
  }

  /** No candidate has a priority above -1. */
  predicate NoCandidate(nodes: seq<Node>, bs: seq<Behavior>, children: seq<int>, buffer: seq<Key>, holds: set<int>) {
    forall j :: 0 <= j < |children| && Qualifies(nodes, bs, children[j], buffer, holds) ==>
      nodes[children[j]].priority <= -1
  }

  /**
    Position `k` of `children` is the selected one: a candidate with priority
    above -1, no candidate has a higher priority, and every earlier candidate
    has a strictly lower one.
  */
  predicate IsWinnerAt(nodes: seq<Node>, bs: seq<Behavior>, children: seq<int>, buffer: seq<Key>, holds: set<int>, k: int) {
    && 0 <= k < |children|
    && Qualifies(nodes, bs, children[k], buffer, holds)
    && nodes[children[k]].priority > -1
    && (forall j :: 0 <= j < |children| && Qualifies(nodes, bs, children[j], buffer, holds) ==>
          nodes[children[j]].priority <= nodes[children[k]].priority)
    && (forall j :: 0 <= j < k && Qualifies(nodes, bs, children[j], buffer, holds) ==>
          nodes[children[j]].priority < nodes[children[k]].priority)
  }

  /** The winner, when there is one, is determined uniquely. */
  lemma WinnerUnique(nodes: seq<Node>, bs: seq<Behavior>, children: seq<int>, buffer: seq<Key>, holds: set<int>, k1: int, k2: int)
    requires IsWinnerAt(nodes, bs, children, buffer, holds, k1)
    requires IsWinnerAt(nodes, bs, children, buffer, holds, k2)
    ensures k1 == k2
  {
  }

  /** A winner excludes the no-candidate case and vice versa. */
  lemma WinnerExcludesNoCandidate(nodes: seq<Node>, bs: seq<Behavior>, children: seq<int>, buffer: seq<Key>, holds: set<int>, k: int)
    requires IsWinnerAt(nodes, bs, children, buffer, holds, k)
    ensures !NoCandidate(nodes, bs, children, buffer, holds)
  {
  }

  /**
    The `foreach (var newNodeIndex in curNode.Childs)` loop of
    TryGetNextBehavior. Returns the position in `children` of the selected
    node, none when no child qualifies, or the exception the list indexers
    raise on a child index or a behavior index outside its list.
  */
  method ScanChildren(nodes: seq<Node>, bs: seq<Behavior>, children: seq<int>, buffer: seq<Key>, holds: set<int>)
    returns (r: Outcome<Option<nat>>)
    ensures r.Thrown? <==> !AllChildrenOk(nodes, bs, children)
    ensures r.Thrown? ==> r.fault == ArgumentOutOfRange
    ensures r == Ok(None) <==> AllChildrenOk(nodes, bs, children) && NoCandidate(nodes, bs, children, buffer, holds)
    ensures r.Ok? && r.value.Some? ==> IsWinnerAt(nodes, bs, children, buffer, holds, r.value.value)
  {
    var priority := -1;
    var next: Option<nat> := None;
    var k := 0;
    while k < |children|
      invariant 0 <= k <= |children|
      invariant forall j :: 0 <= j < k ==> ChildOk(nodes, bs, children[j])
      invariant next.None? ==> priority == -1 && NoCandidate(nodes, bs, children[..k], buffer, holds)
      invariant next.Some? ==>
        next.value < k && IsWinnerAt(nodes, bs, children[..k], buffer, holds, next.value) &&
        priority == nodes[children[next.value]].priority
    {
      var c := children[k];
      if !(0 <= c < |nodes|) {
        return Thrown(ArgumentOutOfRange);
      }
      var node := nodes[c];
      if !(0 <= node.behaviorIndex < |bs|) {
        return Thrown(ArgumentOutOfRange);
      }
      var behavior := bs[node.behaviorIndex];
      if behavior.inputKey in buffer {
        if c in holds {
          if node.priority > priority {
            priority := node.priority;
            next := Some(k);
          }
        }
      }
      assert children[..k + 1] == children[..k] + [c];
      k := k + 1;
    }
    assert children[..k] == children;
    return Ok(next);
  }

  /** `if (curNodeIndex >= nodeList.Count) curNodeIndex = 0;` */
  function StartIndex(nodes: seq<Node>, idx: nat): (r: nat)
    requires |nodes| > 0
    ensures r < |nodes|
    ensures idx < |nodes| ==> r == idx
    ensures idx >= |nodes| ==> r == 0
  {
    if idx < |nodes| then idx else 0
  }

  /**
    The contract of one TryGetNextBehavior call made with node index `idx0`:
    `r` is its result (the index of the behavior to start, null, or the
    exception that escapes) and `idx1` the node index it leaves. On a
    selection the node index becomes the winner's behavior index.
  */
  ghost predicate Selected(nodes: seq<Node>, bs: seq<Behavior>, idx0: nat, buffer: seq<Key>, holds: set<int>,
                           r: Outcome<Option<nat>>, idx1: nat)
  {
    if |nodes| == 0 then r == Ok(None) && idx1 == idx0
    else
      var start := StartIndex(nodes, idx0);
      var ch := nodes[start].children;
      if !AllChildrenOk(nodes, bs, ch) then r == Thrown(ArgumentOutOfRange) && idx1 == start
      else if NoCandidate(nodes, bs, ch, buffer, holds) then r == Ok(None) && idx1 == start
      else exists k :: (IsWinnerAt(nodes, bs, ch, buffer, holds, k) &&
                        r == Ok(Some(nodes[ch[k]].behaviorIndex as nat)) && idx1 == nodes[ch[k]].behaviorIndex)
  }

  /** Whatever TryGetNextBehavior selects is a loaded behavior. */
  lemma SelectedInRange(nodes: seq<Node>, bs: seq<Behavior>, idx0: nat, buffer: seq<Key>, holds: set<int>,
                        r: Outcome<Option<nat>>, idx1: nat)
    requires Selected(nodes, bs, idx0, buffer, holds, r, idx1)
    ensures r.Ok? && r.value.Some? ==> r.value.value < |bs| && idx1 == r.value.value
    ensures r.Thrown? ==> r.fault == ArgumentOutOfRange
  {
  }
}
