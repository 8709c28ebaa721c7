/**
  The configuration records of the current tree (AbilityBehavior, AbilityNode)
  and the pure parts of loading them: looking a behavior up by name, binding
  each node to its behavior, and ordering nodes by Id.
*/
module AbilityData {
  import opened Outcomes
  import opened Names

  /** An input symbol as held in the input buffer. */
  type Key = string

  /** An AbilityBehavior asset: name, length in logical frames, loop flag, triggering input. */
  datatype Behavior = Behavior(name: string, frameLength: int, isLoop: bool, inputKey: Key)

  /**
    An AbilityNode asset. `children` are node indices (Childs); `behaviorIndex`
    is the index into the behavior list that LoadNode writes when the node's
    name resolves, and keeps the asset's value otherwise.
  */
  datatype Node = Node(name: string, id: int, priority: int, children: seq<int>, behaviorIndex: int)

  predicate NoneNamed(bs: seq<Behavior>, name: string) {
    forall j :: 0 <= j < |bs| ==> bs[j].name != name
  }

  /** GetBehavior: the first behavior whose name is `name`, or null. */
  function GetBehavior(bs: seq<Behavior>, name: string): (r: Option<nat>)
    ensures r.Some? ==> r.value < |bs| && bs[r.value].name == name
    ensures r.Some? ==> forall j :: 0 <= j < r.value ==> bs[j].name != name
    ensures r.None? <==> NoneNamed(bs, name)
  {
    if bs == [] then None
    else if bs[0].name == name then Some(0)
    else match GetBehavior(bs[1..], name)
      case None => None
      case Some(k) => Some(k + 1)
  }

  /**
    The entry a name→index dictionary filled in list order holds for `name`:
    a later behavior with the same name overwrites an earlier one.
  */
  function LastIndexNamed(bs: seq<Behavior>, name: string): (r: Option<nat>)
    ensures r.Some? ==> r.value < |bs| && bs[r.value].name == name
    ensures r.Some? ==> forall j :: r.value < j < |bs| ==> bs[j].name != name
    ensures r.None? <==> NoneNamed(bs, name)
  {
    if bs == [] then None
    else if bs[|bs| - 1].name == name then Some(|bs| - 1)
    else LastIndexNamed(bs[..|bs| - 1], name)
  }

  /**
    The behavior index a node named `name` resolves to: the exact name if some
    behavior has it, otherwise the name with its digits removed, otherwise none.
  */
  function Resolve(bs: seq<Behavior>, name: string): (r: Option<nat>)
    ensures r.Some? ==> r.value < |bs|
    ensures !NoneNamed(bs, name) ==> r.Some? && bs[r.value].name == name
    ensures NoneNamed(bs, name) && r.Some? ==> bs[r.value].name == StripDigits(name)
    ensures r.Some? ==> forall j :: r.value < j < |bs| ==> bs[j].name != bs[r.value].name
    ensures r.None? <==> NoneNamed(bs, name) && NoneNamed(bs, StripDigits(name))
  {
    match LastIndexNamed(bs, name)
    case Some(k) => Some(k)
    case None => LastIndexNamed(bs, StripDigits(name))
  }

  /** The node after LoadNode's resolution step: rebound when its name resolves, untouched otherwise. */
  function Bind(bs: seq<Behavior>, n: Node): (r: Node)
    ensures r.(behaviorIndex := n.behaviorIndex) == n
    ensures Resolve(bs, n.name).Some? ==> 0 <= r.behaviorIndex < |bs|
    ensures Resolve(bs, n.name).Some? ==> r.behaviorIndex == Resolve(bs, n.name).value
    ensures Resolve(bs, n.name).None? ==> r == n
  {
    match Resolve(bs, n.name)
    case Some(k) => n.(behaviorIndex := k)
    case None => n
  }

  predicate IdSorted(ns: seq<Node>) {
    forall i, j :: 0 <= i < j < |ns| ==> ns[i].id <= ns[j].id
  }

  function InsertById(n: Node, s: seq<Node>): (r: seq<Node>)
    requires IdSorted(s)
    ensures IdSorted(r)
    ensures multiset(r) == multiset(s) + multiset{n}
    ensures |r| == |s| + 1
    ensures r != [] && (r[0] == n || (s != [] && r[0] == s[0]))
  {
    if s == [] || n.id <= s[0].id then [n] + s
    else
      assert s == [s[0]] + s[1..];
      [s[0]] + InsertById(n, s[1..])
  }

  /**
    `nodeList.Sort((x, y) => x.Id.CompareTo(y.Id))`: a permutation of the
    nodes in ascending Id order. List.Sort is not stable; this insertion sort
    is one of the orders it may produce.
  */
  function SortById(ns: seq<Node>): (r: seq<Node>)
    ensures IdSorted(r)
    ensures multiset(r) == multiset(ns)
    ensures |r| == |ns|
  {
    if ns == [] then []
    else
      assert ns == [ns[0]] + ns[1..];
      InsertById(ns[0], SortById(ns[1..]))
  }
}
