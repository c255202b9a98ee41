/** The bounded worklist walk over a query plan tree. */
module PlanWalk {
  import opened Wrappers

  /** A plan value: an object with its child list, or something else. */
  datatype Plan = NotObject | Object(sortSpace: Option<string>, plans: Plans)

  /** node.get("Plans", []): a list (empty when missing), or something else. */
  datatype Plans = NotList | Items(items: seq<Plan>)

  datatype Failure = ChildrenInvalid | ObjectInvalid | DepthExceeded

  const TURNS: nat := 1_000

  predicate WellFormed(p: Plan) {
    p.Object? && p.plans.Items? && forall i | 0 <= i < |p.plans.items| :: WellFormed(p.plans.items[i])
  }

  predicate AllWellFormed(stack: seq<Plan>) { forall i | 0 <= i < |stack| :: WellFormed(stack[i]) }

  function Size(p: Plan): nat
    decreases p, 1
  {
    1 + if p.Object? && p.plans.Items? then Sizes(p.plans.items) else 0
  }

  function Sizes(ps: seq<Plan>): nat
    decreases ps, 0
  {
    if ps == [] then 0 else Size(ps[|ps| - 1]) + Sizes(ps[..|ps| - 1])
  }

  /** The order of the walk: a node, then its children from the last to the first. */
  function Walk(p: Plan): seq<Plan>
    decreases p, 1
  {
    [p] + if p.Object? && p.plans.Items? then Walks(p.plans.items) else []
  }

  /** The walk of a stack, from its top. */
  function Walks(stack: seq<Plan>): seq<Plan>
    decreases stack, 0
  {
    if stack == [] then [] else Walk(stack[|stack| - 1]) + Walks(stack[..|stack| - 1])
  }

  /** Every node exactly once, in document order. */
  function Preorder(p: Plan): seq<Plan>
    decreases p, 1
  {
    [p] + if p.Object? && p.plans.Items? then Preorders(p.plans.items) else []
  }

  function Preorders(ps: seq<Plan>): seq<Plan>
    decreases ps, 0
  {
    if ps == [] then [] else Preorders(ps[..|ps| - 1]) + Preorder(ps[|ps| - 1])
  }

  lemma {:induction false} WalksConcat(a: seq<Plan>, b: seq<Plan>)
    ensures Walks(a + b) == Walks(b) + Walks(a)
    decreases |b|
  {
    if b == [] {
      assert a + b == a;
    } else {
      WalksConcat(a, b[..|b| - 1]);
      assert (a + b)[..|a + b| - 1] == a + b[..|b| - 1];
    }
  }

  // ---------- faults ----------

  /** What makes the walk raise at a node, the child list first and then its entries. */
  function FaultOf(node: Plan): Option<Failure> {
    if node.NotObject? then Some(ObjectInvalid)
    else if node.plans.NotList? then Some(ChildrenInvalid)
    else if exists i | 0 <= i < |node.plans.items| :: node.plans.items[i].NotObject? then Some(ObjectInvalid)
    else None
  }

  /** The first fault among some nodes. */
  function FirstFault(nodes: seq<Plan>): Option<Failure> {
    if nodes == [] then None
    else
      var earlier := FirstFault(nodes[..|nodes| - 1]);
      if earlier.Some? then earlier else FaultOf(nodes[|nodes| - 1])
  }

  /** The nodes that a bounded walk meets. */
  function Met(p: Plan): seq<Plan> {
    if |Walk(p)| <= TURNS then Walk(p) else Walk(p)[..TURNS]
  }

  lemma FaultStays(nodes: seq<Plan>, n: nat)
    requires n <= |nodes| && FirstFault(nodes[..n]).Some?
    ensures FirstFault(nodes) == FirstFault(nodes[..n])
    decreases |nodes|
  {
    if n == |nodes| {
      assert nodes[..n] == nodes;
    } else {
      assert nodes[..|nodes| - 1][..n] == nodes[..n];
      FaultStays(nodes[..|nodes| - 1], n);
    }
  }

  lemma {:induction false} FaultFree(nodes: seq<Plan>)
    ensures FirstFault(nodes).None? <==> forall i | 0 <= i < |nodes| :: FaultOf(nodes[i]).None?
  {
    if nodes != [] {
      var n := |nodes| - 1;
      FaultFree(nodes[..n]);
      assert forall i | 0 <= i < n :: nodes[..n][i] == nodes[i];
    }
  }

  lemma {:induction false} FaultConcat(a: seq<Plan>, b: seq<Plan>)
    ensures FirstFault(a + b).None? <==> FirstFault(a).None? && FirstFault(b).None?
  {
    if b == [] {
      assert a + b == a;
    } else {
      FaultConcat(a, b[..|b| - 1]);
      assert (a + b)[..|a + b| - 1] == a + b[..|b| - 1];
    }
  }

  /** A plan tree is well formed exactly when its walk meets no fault. */
  lemma {:induction false} WellFormedWalk(p: Plan)
    ensures WellFormed(p) <==> FirstFault(Walk(p)).None?
    decreases p, 1
  {
    assert [p][..0] == [];
    assert FirstFault([p]) == FaultOf(p);
    if p.Object? && p.plans.Items? {
      WellFormedWalks(p.plans.items);
      FaultConcat([p], Walks(p.plans.items));
      if WellFormed(p) { assert FaultOf(p).None?; }
    } else {
      assert Walk(p) == [p];
    }
  }

  lemma {:induction false} WellFormedWalks(ps: seq<Plan>)
    ensures AllWellFormed(ps) <==> FirstFault(Walks(ps)).None?
    decreases ps, 0
  {
    if ps != [] {
      var n := |ps| - 1;
      WellFormedWalk(ps[n]);
      WellFormedWalks(ps[..n]);
      FaultConcat(Walk(ps[n]), Walks(ps[..n]));
      assert ps == ps[..n] + [ps[n]];
      SplitWellFormed(ps[..n], [ps[n]]);
      assert AllWellFormed([ps[n]]) <==> WellFormed(ps[n]) by { assert [ps[n]][0] == ps[n]; }
    }
  }

  // ---------- the walk ----------

  /** What the walk must answer: the first fault it meets in its thousand turns, else the walk
      itself if it ended with a turn to spare. */
  function Outcome(p: Plan): Result<seq<Plan>, Failure> {
    var fault := FirstFault(Met(p));
    if fault.Some? then Err(fault.value)
    else if |Walk(p)| < TURNS then Ok(Walk(p))
    else Err(DepthExceeded)
  }

  /** The stack holds what is left of the walk of the tree, and what was visited had no fault. */
  ghost predicate Progress(plan: Plan, visited: seq<Plan>, pending: seq<Plan>) {
    && (forall i | 0 <= i < |pending| :: pending[i].Object?)
    && visited + Walks(pending) == Walk(plan) && FirstFault(visited).None?
  }

  lemma ProgressStart(plan: Plan)
    requires plan.Object?
    ensures Progress(plan, [], [plan])
  {
    var pending := [plan];
    assert pending[0] == plan && pending[..0] == [];
    assert [] + Walks(pending) == Walks(pending) == Walk(plan) + [] == Walk(plan);
  }

  lemma ProgressStep(plan: Plan, visited: seq<Plan>, rest: seq<Plan>, node: Plan)
    requires Progress(plan, visited, rest + [node]) && node.Object? && FaultOf(node).None?
    ensures Progress(plan, visited + [node], rest + node.plans.items)
  {
    StackStep(rest, node);
    var stack := rest + [node];
    assert forall i | 0 <= i < |rest| :: stack[i] == rest[i];
    assert visited + ([node] + Walks(rest + node.plans.items)) == (visited + [node]) + Walks(rest + node.plans.items);
    assert (visited + [node])[..|visited|] == visited;
  }

  /** A fault at the node on top of the stack is the first the walk meets. */
  lemma ProgressFault(plan: Plan, visited: seq<Plan>, rest: seq<Plan>, node: Plan)
    requires Progress(plan, visited, rest + [node]) && FaultOf(node).Some? && |visited| < TURNS
    ensures Outcome(plan) == Err(FaultOf(node).value)
  {
    var n := |visited|;
    var tail := Walks(rest + [node]);
    assert (rest + [node])[..|rest|] == rest && (rest + [node])[|rest|] == node;
    assert tail == Walk(node) + Walks(rest) && tail[0] == node;
    assert Met(plan)[..n + 1] == visited + [node];
    assert (visited + [node])[..n] == visited;
    FaultStays(Met(plan), n + 1);
  }

  lemma ProgressDone(plan: Plan, visited: seq<Plan>)
    requires Progress(plan, visited, []) && |visited| < TURNS
    ensures Outcome(plan) == Ok(visited)
  {
    assert visited + [] == visited;
  }

  lemma ProgressSpent(plan: Plan, visited: seq<Plan>, pending: seq<Plan>)
    requires Progress(plan, visited, pending) && |visited| == TURNS
    ensures Outcome(plan) == Err(DepthExceeded)
  {
    assert Met(plan) == visited;
  }

  /** plan_nodes: the outcome, failures included, of a walk bounded by a thousand turns. It succeeds
      exactly for well-formed trees of at most 999 nodes. */
  method PlanNodes(plan: Plan) returns (r: Result<seq<Plan>, Failure>)
    requires plan.Object?
    ensures r == Outcome(plan)
    ensures r.Ok? <==> WellFormed(plan) && Size(plan) <= 999
    ensures r.Ok? ==> r.value == Walk(plan)
    ensures WellFormed(plan) && r.Err? ==> r.error == DepthExceeded
  {
    OutcomeShape(plan);
    var pending: seq<Plan>, visited: seq<Plan> := [plan], [];
    ProgressStart(plan);
    var turn := 0;
    while turn < TURNS
      invariant 0 <= turn <= TURNS && |visited| == turn
      invariant Progress(plan, visited, pending)
    {
      if pending == [] {
        ProgressDone(plan, visited);
        return Ok(visited);
      }
      var rest, node := pending[..|pending| - 1], pending[|pending| - 1];
      assert pending == rest + [node];
      if node.plans.NotList? {
        ProgressFault(plan, visited, rest, node);
        return Err(ChildrenInvalid);
      }
      var children := node.plans.items;
      if exists i | 0 <= i < |children| :: children[i].NotObject? {
        ProgressFault(plan, visited, rest, node);
        return Err(ObjectInvalid);
      }
      ProgressStep(plan, visited, rest, node);
      visited := visited + [node];
      pending := rest + children;
      turn := turn + 1;
    }
    ProgressSpent(plan, visited, pending);
    return Err(DepthExceeded);
  }

  /** The bounded walk succeeds exactly for well-formed trees of at most 999 nodes, and on larger
      well-formed trees it fails by depth. */
  lemma OutcomeShape(plan: Plan)
    ensures Outcome(plan).Ok? <==> WellFormed(plan) && Size(plan) <= 999
    ensures Outcome(plan).Ok? ==> Outcome(plan).value == Walk(plan)
    ensures WellFormed(plan) && Outcome(plan).Err? ==> Outcome(plan).error == DepthExceeded
  {
    WellFormedWalk(plan);
    WalkVisitsEachOnce(plan);
    FaultFree(Walk(plan));
    FaultFree(Met(plan));
  }

  /** Replacing the top of the stack by its children moves it to the visited nodes. */
  lemma StackStep(rest: seq<Plan>, node: Plan)
    requires node.Object? && node.plans.Items?
    ensures Walks(rest + [node]) == [node] + Walks(rest + node.plans.items)
  {
    WalksConcat(rest, node.plans.items);
    assert (rest + [node])[..|rest|] == rest;
  }

  lemma SplitWellFormed(a: seq<Plan>, b: seq<Plan>)
    ensures AllWellFormed(a + b) <==> AllWellFormed(a) && AllWellFormed(b)
  {
    var c := a + b;
    assert forall i | 0 <= i < |a| :: c[i] == a[i];
    assert forall i | 0 <= i < |b| :: c[|a| + i] == b[i];
  }

  /** The walk visits every node of the tree exactly once. */
  lemma {:induction false} WalkVisitsEachOnce(p: Plan)
    ensures multiset(Walk(p)) == multiset(Preorder(p)) && |Walk(p)| == Size(p)
    decreases p, 1
  {
    if p.Object? && p.plans.Items? { WalksVisitEachOnce(p.plans.items); }
  }

  lemma {:induction false} WalksVisitEachOnce(ps: seq<Plan>)
    ensures multiset(Walks(ps)) == multiset(Preorders(ps)) && |Walks(ps)| == Sizes(ps)
    decreases ps, 0
  {
    if ps != [] {
      WalkVisitsEachOnce(ps[|ps| - 1]);
      WalksVisitEachOnce(ps[..|ps| - 1]);
    }
  }

  // ---------- sort_spills ----------

  predicate Spills(p: Plan) { p.Object? && p.sortSpace == Some("Disk") }

  function CountSpills(nodes: seq<Plan>): nat {
    if nodes == [] then 0 else CountSpills(nodes[..|nodes| - 1]) + (if Spills(nodes[|nodes| - 1]) then 1 else 0)
  }

  /** The spilling sorts of a tree. */
  function TreeSpills(p: Plan): nat
    decreases p, 1
  {
    (if Spills(p) then 1 else 0) + if p.Object? && p.plans.Items? then ForestSpills(p.plans.items) else 0
  }

  function ForestSpills(ps: seq<Plan>): nat
    decreases ps, 0
  {
    if ps == [] then 0 else TreeSpills(ps[|ps| - 1]) + ForestSpills(ps[..|ps| - 1])
  }

  lemma {:induction false} CountConcat(a: seq<Plan>, b: seq<Plan>)
    ensures CountSpills(a + b) == CountSpills(a) + CountSpills(b)
  {
    if b == [] {
      assert a + b == a;
    } else {
      CountConcat(a, b[..|b| - 1]);
      assert (a + b)[..|a + b| - 1] == a + b[..|b| - 1];
    }
  }

  lemma {:induction false} WalkSpills(p: Plan)
    ensures CountSpills(Walk(p)) == TreeSpills(p)
    decreases p, 1
  {
    if p.Object? && p.plans.Items? {
      WalksSpills(p.plans.items);
      CountConcat([p], Walks(p.plans.items));
    }
    assert [p][..0] == [];
    assert Walk(p) == [p] || (p.Object? && p.plans.Items?);
  }

  lemma {:induction false} WalksSpills(ps: seq<Plan>)
    ensures CountSpills(Walks(ps)) == ForestSpills(ps)
    decreases ps, 0
  {
    if ps != [] {
      WalkSpills(ps[|ps| - 1]);
      WalksSpills(ps[..|ps| - 1]);
      CountConcat(Walk(ps[|ps| - 1]), Walks(ps[..|ps| - 1]));
    }
  }

  /** The count is the number of nodes that sort on disk. */
  lemma {:induction false} SpillsAre(nodes: seq<Plan>)
    ensures CountSpills(nodes) == |set i | 0 <= i < |nodes| && nodes[i].Object? && nodes[i].sortSpace == Some("Disk")|
  {
    if nodes != [] {
      var n := |nodes| - 1;
      SpillsAre(nodes[..n]);
      var before := set i | 0 <= i < n && nodes[..n][i].Object? && nodes[..n][i].sortSpace == Some("Disk");
      var all := set i | 0 <= i < |nodes| && nodes[i].Object? && nodes[i].sortSpace == Some("Disk");
      assert all == before + if Spills(nodes[n]) then {n} else {};
    }
  }

  /** What an ill-formed tree raises: a fault of a node is that its children are no list, or that
      one of them is no object. */
  lemma FaultMeans(node: Plan)
    requires node.Object?
    ensures FaultOf(node) == Some(ChildrenInvalid) <==> node.plans.NotList?
    ensures FaultOf(node) == Some(ObjectInvalid) <==>
      node.plans.Items? && exists c :: c in node.plans.items && c.NotObject?
    ensures FaultOf(node) != Some(DepthExceeded)
  {
    if node.plans.Items? {
      if c :| c in node.plans.items && c.NotObject? {
        var i :| 0 <= i < |node.plans.items| && node.plans.items[i] == c;
      }
      assert forall i | 0 <= i < |node.plans.items| :: node.plans.items[i] in node.plans.items;
    }
  }

  /** sort_spills: the number of spilling sort nodes in the whole tree. */
  method SortSpills(plan: Plan) returns (r: Result<nat, Failure>)
    requires plan.Object?
    ensures r.Ok? <==> WellFormed(plan) && Size(plan) <= 999
    ensures r.Ok? ==> r.value == TreeSpills(plan)
    ensures r.Ok? ==> r.value == |set i | 0 <= i < |Walk(plan)| && Walk(plan)[i].Object? && Walk(plan)[i].sortSpace == Some("Disk")|
    ensures r.Err? ==> Outcome(plan) == Err(r.error)
  {
    var nodes := PlanNodes(plan);
    if nodes.Err? { return Err(nodes.error); }
    WalkSpills(plan);
    SpillsAre(Walk(plan));
    return Ok(CountSpills(nodes.value));
  }
}
