/** The dependency graph of the roadmap: depth-first validation, dependency order, closures and the
    readiness of steps. */
module Roadmap {
  import opened Prelude

  datatype State = Finished | InProgress | Pending | Unclear | Barred | AtRisk

  predicate Executable(state: State) {
    state.InProgress? || state.Pending? || state.AtRisk?
  }

  datatype Step = Step(id: string, dependencies: seq<string>, state: State)

  type Graph = map<string, Step>

  // ---------- graphs ----------

  predicate Closed(g: Graph) {
    forall a, d :: a in g && d in g[a].dependencies ==> d in g
  }

  predicate Edge(g: Graph, a: string, b: string) {
    a in g && b in g[a].dependencies
  }

  predicate Linked(g: Graph, p: seq<string>, i: int)
    requires 0 <= i < |p| - 1
  {
    Edge(g, p[i], p[i + 1])
  }

  predicate Path(g: Graph, p: seq<string>) {
    forall i :: 0 <= i < |p| - 1 ==> Linked(g, p, i)
  }

  lemma {:induction false} PathTail(g: Graph, p: seq<string>, from: nat)
    requires Path(g, p) && from <= |p|
    ensures Path(g, p[from..])
  {
    forall i | 0 <= i < |p[from..]| - 1
      ensures Linked(g, p[from..], i)
    {
      assert Linked(g, p, from + i);
    }
  }

  lemma {:induction false} PathPush(g: Graph, p: seq<string>, a: string)
    requires Path(g, p) && p != [] && Edge(g, p[|p| - 1], a)
    ensures Path(g, p + [a])
  {
    forall i | 0 <= i < |p + [a]| - 1
      ensures Linked(g, p + [a], i)
    {
      if i < |p| - 1 {
        assert Linked(g, p, i);
      } else {
        assert (p + [a])[i] == p[|p| - 1] && (p + [a])[i + 1] == a;
      }
    }
  }

  predicate ClosedPath(g: Graph, p: seq<string>) {
    |p| >= 2 && Path(g, p) && p[0] == p[|p| - 1]
  }

  ghost predicate Acyclic(g: Graph) {
    forall p: seq<string> :: !ClosedPath(g, p)
  }

  predicate Connects(g: Graph, p: seq<string>, a: string, b: string) {
    |p| >= 2 && Path(g, p) && p[0] == a && p[|p| - 1] == b
  }

  ghost predicate Reaches(g: Graph, a: string, b: string) {
    exists p: seq<string> :: Connects(g, p, a, b)
  }

  predicate Distinct(s: seq<string>) {
    forall i, j :: 0 <= i < j < |s| ==> s[i] != s[j]
  }

  function Elements(s: seq<string>): set<string> {
    set x | x in s
  }

  predicate ListedBefore(g: Graph, order: seq<string>, i: nat)
    requires i < |order| && order[i] in g
  {
    forall d :: d in g[order[i]].dependencies ==> d in order[..i]
  }

  /** Every dependency of a listed step is listed before it. */
  predicate Topological(g: Graph, order: seq<string>) {
    && Distinct(order)
    && (forall i :: 0 <= i < |order| ==> order[i] in g)
    && forall i :: 0 <= i < |order| ==> ListedBefore(g, order, i)
  }

  lemma {:induction false} TopologicalExtend(g: Graph, order: seq<string>, a: string)
    requires Topological(g, order) && a in g && a !in order
    requires forall d :: d in g[a].dependencies ==> d in order
    ensures Topological(g, order + [a])
  {
    var order' := order + [a];
    forall i | 0 <= i < |order'|
      ensures ListedBefore(g, order', i)
    {
      if i < |order| {
        assert ListedBefore(g, order, i);
        assert order'[..i] == order[..i];
      } else {
        assert order'[..i] == order;
      }
    }
  }

  lemma {:induction false} EarlierInOrder(g: Graph, order: seq<string>, i: nat, b: string) returns (j: nat)
    requires Topological(g, order) && i < |order| && Edge(g, order[i], b)
    ensures j < i && order[j] == b
  {
    assert ListedBefore(g, order, i);
    j :| 0 <= j < i && order[..i][j] == b;
  }

  /** Along a path the place in the order goes down. */
  lemma {:induction false} PathDescends(g: Graph, order: seq<string>, p: seq<string>, i: nat) returns (j: nat)
    requires Topological(g, order) && Path(g, p) && |p| >= 2 && i < |order| && order[i] == p[0]
    ensures j < i && order[j] == p[|p| - 1]
    decreases |p|
  {
    assert Linked(g, p, 0);
    var k := EarlierInOrder(g, order, i, p[1]);
    if |p| == 2 {
      j := k;
    } else {
      PathTail(g, p, 1);
      j := PathDescends(g, order, p[1..], k);
    }
  }

  lemma {:induction false} OrderedIsAcyclic(g: Graph, order: seq<string>)
    requires Topological(g, order) && Elements(order) == g.Keys
    ensures Acyclic(g)
  {
    forall p: seq<string> | ClosedPath(g, p)
      ensures false
    {
      assert Linked(g, p, 0);
      assert p[0] in Elements(order);
      var i :| 0 <= i < |order| && order[i] == p[0];
      var j := PathDescends(g, order, p, i);
    }
  }

  // ---------- the depth-first walk ----------

  datatype Walk = Ordered(order: seq<string>) | Cyclic(cycle: seq<string>)

  function Load(stack: seq<seq<string>>): nat {
    if stack == [] then 0 else Load(stack[..|stack| - 1]) + |stack[|stack| - 1]| + 1
  }

  /** `rest` is what an iterator over the dependencies of `a` has yet to yield. */
  predicate Remaining(g: Graph, a: string, rest: seq<string>) {
    a in g && |rest| <= |g[a].dependencies| && rest == g[a].dependencies[|g[a].dependencies| - |rest|..]
  }

  function Consumed(g: Graph, a: string, rest: seq<string>): seq<string>
    requires Remaining(g, a, rest)
  {
    g[a].dependencies[..|g[a].dependencies| - |rest|]
  }

  function Successor(active: seq<string>, k: nat): Option<string> {
    if k + 1 < |active| then Some(active[k + 1]) else None
  }

  /** Everything the iterator of `a` has yielded is finished, or is the next active step. */
  predicate Settled(g: Graph, visited: set<string>, a: string, rest: seq<string>, next: Option<string>) {
    && a !in visited
    && Remaining(g, a, rest)
    && forall d :: d in Consumed(g, a, rest) ==> d in visited || next == Some(d)
  }

  /** The stack of iterators along the active path. */
  ghost predicate OnPath(g: Graph, visited: set<string>, active: seq<string>, stack: seq<seq<string>>) {
    && |stack| == |active|
    && Distinct(active)
    && Path(g, active)
    && forall k :: 0 <= k < |active| ==> Settled(g, visited, active[k], stack[k], Successor(active, k))
  }

  ghost predicate Located(active: seq<string>, positions: map<string, nat>) {
    && positions.Keys == Elements(active)
    && forall k :: 0 <= k < |active| ==> active[k] in positions && positions[active[k]] == k
  }

  lemma {:induction false} StepYields(g: Graph, visited: set<string>, a: string, rest: seq<string>, next: Option<string>)
    requires Settled(g, visited, a, rest, next) && rest != []
    ensures Edge(g, a, rest[0]) && Remaining(g, a, rest[1..])
    ensures Consumed(g, a, rest[1..]) == Consumed(g, a, rest) + [rest[0]]
  {
    var deps := g[a].dependencies;
    assert deps[|deps| - |rest|] == rest[0];
  }

  lemma {:induction false} PopKeepsPath(g: Graph, visited: set<string>, active: seq<string>, stack: seq<seq<string>>)
    requires OnPath(g, visited, active, stack) && active != [] && stack[|stack| - 1] == []
    ensures var top := |stack| - 1;
            && OnPath(g, visited + {active[top]}, active[..top], stack[..top])
            && active[top] in g
            && forall d :: d in g[active[top]].dependencies ==> d in visited
  {
    var top := |stack| - 1;
    assert Settled(g, visited, active[top], stack[top], Successor(active, top));
    assert Consumed(g, active[top], stack[top]) == g[active[top]].dependencies;
    forall k | 0 <= k < top
      ensures Settled(g, visited + {active[top]}, active[..top][k], stack[..top][k], Successor(active[..top], k))
    {
      assert Settled(g, visited, active[k], stack[k], Successor(active, k));
    }
    assert Path(g, active[..top]) by {
      forall k | 0 <= k < top - 1
        ensures Linked(g, active[..top], k)
      {
        assert Linked(g, active, k);
      }
    }
  }

  lemma {:induction false} SkipKeepsPath(g: Graph, visited: set<string>, active: seq<string>, stack: seq<seq<string>>)
    requires OnPath(g, visited, active, stack) && active != [] && stack[|stack| - 1] != []
    requires stack[|stack| - 1][0] in visited
    ensures OnPath(g, visited, active, stack[|stack| - 1 := stack[|stack| - 1][1..]])
  {
    var top := |stack| - 1;
    var stack' := stack[top := stack[top][1..]];
    forall k | 0 <= k < |active|
      ensures Settled(g, visited, active[k], stack'[k], Successor(active, k))
    {
      assert Settled(g, visited, active[k], stack[k], Successor(active, k));
      if k == top {
        StepYields(g, visited, active[k], stack[k], Successor(active, k));
      }
    }
  }

  lemma {:induction false} PushKeepsPath(g: Graph, visited: set<string>, active: seq<string>, stack: seq<seq<string>>)
    requires Closed(g) && OnPath(g, visited, active, stack) && active != [] && stack[|stack| - 1] != []
    requires stack[|stack| - 1][0] !in visited && stack[|stack| - 1][0] !in active
    ensures var top := |stack| - 1;
            var d := stack[top][0];
            d in g && OnPath(g, visited, active + [d], stack[top := stack[top][1..]] + [g[d].dependencies])
  {
    var top := |stack| - 1;
    var next := stack[top][0];
    assert Settled(g, visited, active[top], stack[top], Successor(active, top));
    StepYields(g, visited, active[top], stack[top], Successor(active, top));
    var active' := active + [next];
    var stack' := stack[top := stack[top][1..]] + [g[next].dependencies];
    forall k | 0 <= k < |active'|
      ensures Settled(g, visited, active'[k], stack'[k], Successor(active', k))
    {
      if k < |active| {
        assert Settled(g, visited, active[k], stack[k], Successor(active, k));
      } else {
        assert Consumed(g, next, g[next].dependencies) == [];
      }
    }
    PathPush(g, active, next);
  }

  lemma {:induction false} CycleFound(g: Graph, visited: set<string>, active: seq<string>, stack: seq<seq<string>>, at: nat)
    requires OnPath(g, visited, active, stack) && active != [] && stack[|stack| - 1] != []
    requires at < |active| && active[at] == stack[|stack| - 1][0]
    ensures ClosedPath(g, active[at..] + [active[at]])
  {
    var top := |stack| - 1;
    assert Settled(g, visited, active[top], stack[top], Successor(active, top));
    StepYields(g, visited, active[top], stack[top], Successor(active, top));
    PathTail(g, active, at);
    PathPush(g, active[at..], active[at]);
  }

  lemma {:induction false} PopKeepsPlaces(g: Graph, visited: set<string>, active: seq<string>, positions: map<string, nat>)
    requires Located(active, positions) && Distinct(active) && active != [] && active[|active| - 1] !in visited
    ensures var top := |active| - 1;
            && Located(active[..top], positions - {active[top]})
            && g.Keys - (visited + {active[top]}) - Elements(active[..top]) == g.Keys - visited - Elements(active)
  {
    var top := |active| - 1;
    assert active == active[..top] + [active[top]];
    assert Elements(active) == Elements(active[..top]) + {active[top]};
    assert active[top] !in Elements(active[..top]);
  }

  lemma {:induction false} PushKeepsPlaces(g: Graph, visited: set<string>, active: seq<string>, positions: map<string, nat>, a: string)
    requires Located(active, positions) && a !in active && a !in visited && a in g
    ensures Located(active + [a], positions[a := |active|])
    ensures g.Keys - visited - Elements(active + [a]) < g.Keys - visited - Elements(active)
  {
    assert Elements(active + [a]) == Elements(active) + {a};
    assert a in g.Keys - visited - Elements(active);
  }

  lemma {:induction false} LoadOfTop(stack: seq<seq<string>>, rest: seq<string>)
    requires stack != [] && |rest| < |stack[|stack| - 1]|
    ensures Load(stack[|stack| - 1 := rest]) < Load(stack)
  {
    assert stack[|stack| - 1 := rest][..|stack| - 1] == stack[..|stack| - 1];
  }

  /** The state of the walk from `start` between two looks at the top of the stack. */
  ghost predicate Walking(start: string, g: Graph, visited: set<string>, order: seq<string>,
                          active: seq<string>, positions: map<string, nat>, stack: seq<seq<string>>) {
    && Closed(g)
    && OnPath(g, visited, active, stack) && Located(active, positions)
    && Topological(g, order) && visited == Elements(order)
    && (if active == [] then start in visited else active[0] == start)
  }

  ghost function Unseen(g: Graph, visited: set<string>, active: seq<string>): set<string> {
    g.Keys - visited - Elements(active)
  }

  lemma {:induction false} StartWalk(start: string, g: Graph, visited: set<string>, order: seq<string>)
    requires Closed(g) && start in g && start !in visited && Topological(g, order) && visited == Elements(order)
    ensures Walking(start, g, visited, order, [start], map[start := 0], [g[start].dependencies])
  {
    var stack := [g[start].dependencies];
    assert Consumed(g, start, stack[0]) == [];
    assert Settled(g, visited, start, stack[0], Successor([start], 0));
  }

  lemma {:induction false} FinishStep(g: Graph, visited: set<string>, order: seq<string>, a: string)
    requires Topological(g, order) && visited == Elements(order) && a in g && a !in visited
    requires forall d :: d in g[a].dependencies ==> d in visited
    ensures Topological(g, order + [a]) && visited + {a} == Elements(order + [a])
  {
    TopologicalExtend(g, order, a);
  }

  lemma {:induction false} PopWalks(start: string, g: Graph, visited: set<string>, order: seq<string>,
                 active: seq<string>, positions: map<string, nat>, stack: seq<seq<string>>)
    requires |active| == |stack| > 0 && stack[|stack| - 1] == []
    requires Walking(start, g, visited, order, active, positions, stack)
    ensures var top := |stack| - 1;
            var a := active[top];
            && a in positions
            && Walking(start, g, visited + {a}, order + [a], active[..top], positions - {a}, stack[..top])
            && Unseen(g, visited + {a}, active[..top]) == Unseen(g, visited, active)
            && Load(stack[..top]) < Load(stack)
  {
    var top := |stack| - 1;
    var a := active[top];
    assert a !in visited by {
      assert Settled(g, visited, a, stack[top], Successor(active, top));
    }
    PopKeepsPath(g, visited, active, stack);
    FinishStep(g, visited, order, a);
    PopKeepsPlaces(g, visited, active, positions);
  }

  lemma {:induction false} PushWalks(start: string, g: Graph, visited: set<string>, order: seq<string>,
                  active: seq<string>, positions: map<string, nat>, stack: seq<seq<string>>, d: string)
    requires stack != [] && stack[|stack| - 1] != [] && d == stack[|stack| - 1][0]
    requires Walking(start, g, visited, order, active, positions, stack)
    requires d in g && d !in visited && d !in positions
    ensures Walking(start, g, visited, order, active + [d], positions[d := |active|],
                    stack[|stack| - 1 := stack[|stack| - 1][1..]] + [g[d].dependencies])
    ensures Unseen(g, visited, active + [d]) < Unseen(g, visited, active)
  {
    assert d !in Elements(active);
    PushKeepsPath(g, visited, active, stack);
    PushKeepsPlaces(g, visited, active, positions, d);
  }

  lemma {:induction false} NextIsRegistered(g: Graph, visited: set<string>, active: seq<string>, stack: seq<seq<string>>)
    requires Closed(g) && OnPath(g, visited, active, stack) && stack != [] && stack[|stack| - 1] != []
    ensures stack[|stack| - 1][0] in g
  {
    var top := |stack| - 1;
    assert Settled(g, visited, active[top], stack[top], Successor(active, top));
    StepYields(g, visited, active[top], stack[top], Successor(active, top));
  }

  /** The walk from one step: it ends with the step finished, or with a closed path. */
  method Explore(start: string, g: Graph, visited: set<string>, order: seq<string>)
      returns (walk: Walk, visited': set<string>)
    requires Closed(g) && start in g && start !in visited
    requires Topological(g, order) && visited == Elements(order)
    ensures walk.Cyclic? ==> ClosedPath(g, walk.cycle)
    ensures walk.Ordered? ==>
              && Topological(g, walk.order) && visited' == Elements(walk.order)
              && order <= walk.order && start in visited'
  {
    visited' := visited;
    var dependencyOrder := order;
    var active := [start];
    var positions: map<string, nat> := map[start := 0];
    var stack := [g[start].dependencies];
    StartWalk(start, g, visited, order);
    while |stack| > 0
      invariant Walking(start, g, visited', dependencyOrder, active, positions, stack)
      invariant order <= dependencyOrder
      decreases Unseen(g, visited', active), Load(stack)
    {
      var top := |stack| - 1;
      if |stack[top]| == 0 {
        PopWalks(start, g, visited', dependencyOrder, active, positions, stack);
        var finished := active[top];
        active := active[..top];
        visited' := visited' + {finished};
        dependencyOrder := dependencyOrder + [finished];
        positions := positions - {finished};
        stack := stack[..top];
      } else {
        var dependency := stack[top][0];
        if dependency in positions {
          CycleFound(g, visited', active, stack, positions[dependency]);
          return Cyclic(active[positions[dependency]..] + [dependency]), visited';
        } else if dependency in visited' {
          SkipKeepsPath(g, visited', active, stack);
          LoadOfTop(stack, stack[top][1..]);
          stack := stack[top := stack[top][1..]];
        } else {
          NextIsRegistered(g, visited', active, stack);
          PushWalks(start, g, visited', dependencyOrder, active, positions, stack, dependency);
          positions := positions[dependency := |active|];
          active := active + [dependency];
          stack := stack[top := stack[top][1..]] + [g[dependency].dependencies];
        }
      }
    }
    walk := Ordered(dependencyOrder);
  }

  function Ids(steps: seq<Step>): seq<string> {
    seq(|steps|, i requires 0 <= i < |steps| => steps[i].id)
  }

  ghost predicate Tabled(steps: seq<Step>, g: Graph) {
    forall k :: 0 <= k < |steps| ==> steps[k].id in g && g[steps[k].id] == steps[k]
  }

  /** `g` is the table of the steps by id, and every dependency is registered. */
  ghost predicate Registered(steps: seq<Step>, g: Graph) {
    && Distinct(Ids(steps))
    && g.Keys == Elements(Ids(steps))
    && Tabled(steps, g)
    && Closed(g)
  }

  lemma {:induction false} IdRegistered(steps: seq<Step>, i: nat)
    requires i < |steps|
    ensures steps[i].id in Elements(Ids(steps))
  {
    assert Ids(steps)[i] == steps[i].id;
  }

  /** All steps in dependency order, or a closed path. */
  method DependencyOrder(steps: seq<Step>, g: Graph) returns (walk: Walk)
    requires Registered(steps, g)
    ensures walk.Cyclic? ==> ClosedPath(g, walk.cycle)
    ensures walk.Ordered? ==> Topological(g, walk.order) && Elements(walk.order) == g.Keys
    ensures walk.Ordered? <==> Acyclic(g)
  {
    var visited: set<string> := {};
    var order: seq<string> := [];
    for i := 0 to |steps|
      invariant Topological(g, order) && visited == Elements(order)
      invariant forall k :: 0 <= k < i ==> steps[k].id in visited
    {
      if steps[i].id in visited {
        continue;
      }
      IdRegistered(steps, i);
      ghost var before := order;
      var explored, visited' := Explore(steps[i].id, g, visited, order);
      if explored.Cyclic? {
        return explored;
      }
      assert forall x :: x in before ==> x in explored.order;
      visited, order := visited', explored.order;
    }
    assert forall k :: 0 <= k < |steps| ==> Ids(steps)[k] == steps[k].id;
    OrderedIsAcyclic(g, order);
    walk := Ordered(order);
  }

  // ---------- closures ----------

  lemma {:induction false} EdgeReaches(g: Graph, a: string, b: string)
    requires Edge(g, a, b)
    ensures Reaches(g, a, b)
  {
    assert Connects(g, [a, b], a, b);
  }

  lemma {:induction false} EdgeThenReaches(g: Graph, a: string, d: string, b: string)
    requires Edge(g, a, d) && Reaches(g, d, b)
    ensures Reaches(g, a, b)
  {
    var p :| Connects(g, p, d, b);
    var q := [a] + p;
    forall i | 0 <= i < |q| - 1
      ensures Linked(g, q, i)
    {
      if i > 0 {
        assert Linked(g, p, i - 1);
      }
    }
    assert Connects(g, q, a, b);
  }

  lemma {:induction false} FirstEdge(g: Graph, a: string, b: string) returns (d: string)
    requires Reaches(g, a, b)
    ensures Edge(g, a, d) && (d == b || Reaches(g, d, b))
  {
    var p :| Connects(g, p, a, b);
    d := p[1];
    assert Linked(g, p, 0);
    if |p| > 2 {
      PathTail(g, p, 1);
      assert Connects(g, p[1..], d, b);
    }
  }

  /** `closure` is what is reached through the first `n` dependencies of `a`, together with all its
      direct dependencies. */
  ghost predicate Gathers(g: Graph, a: string, closure: set<string>, n: nat)
    requires a in g && n <= |g[a].dependencies|
  {
    forall b :: b in closure <==> Edge(g, a, b) || exists k :: 0 <= k < n && Reaches(g, g[a].dependencies[k], b)
  }

  ghost predicate IsClosure(g: Graph, a: string, closure: set<string>) {
    forall b :: b in closure <==> Reaches(g, a, b)
  }

  ghost predicate AreClosures(g: Graph, closures: map<string, set<string>>) {
    closures.Keys == g.Keys && forall a :: a in closures ==> IsClosure(g, a, closures[a])
  }

  lemma {:induction false} GatheredIsClosure(g: Graph, a: string, closure: set<string>)
    requires a in g && Gathers(g, a, closure, |g[a].dependencies|)
    ensures IsClosure(g, a, closure)
  {
    var deps := g[a].dependencies;
    forall b
      ensures b in closure <==> Reaches(g, a, b)
    {
      if Reaches(g, a, b) {
        var d := FirstEdge(g, a, b);
        var k :| 0 <= k < |deps| && deps[k] == d;
      }
      if Edge(g, a, b) {
        EdgeReaches(g, a, b);
      }
      if k :| 0 <= k < |deps| && Reaches(g, deps[k], b) {
        assert Edge(g, a, deps[k]);
        EdgeThenReaches(g, a, deps[k], b);
      }
    }
  }

  /** One pass over a dependency order: every closure is defined when it is needed, and is exactly
      what the step reaches by a nonempty path. */
  method Closures(g: Graph, order: seq<string>) returns (closures: map<string, set<string>>)
    requires Topological(g, order) && Elements(order) == g.Keys
    ensures AreClosures(g, closures)
  {
    closures := map[];
    for i := 0 to |order|
      invariant closures.Keys == Elements(order[..i])
      invariant forall a :: a in closures ==> IsClosure(g, a, closures[a])
    {
      var a := order[i];
      var deps := g[a].dependencies;
      var closure := Elements(deps);
      for k := 0 to |deps|
        invariant Gathers(g, a, closure, k)
      {
        assert ListedBefore(g, order, i);
        assert deps[k] in order[..i];
        assert IsClosure(g, deps[k], closures[deps[k]]);
        GatherOne(g, a, closure, closures[deps[k]], k);
        closure := closure + closures[deps[k]];
      }
      GatheredIsClosure(g, a, closure);
      closures := closures[a := closure];
      assert order[..i + 1] == order[..i] + [a];
    }
    assert order[..|order|] == order;
  }

  lemma {:induction false} GatherOne(g: Graph, a: string, closure: set<string>, more: set<string>, k: nat)
    requires a in g && k < |g[a].dependencies| && Gathers(g, a, closure, k)
    requires IsClosure(g, g[a].dependencies[k], more)
    ensures Gathers(g, a, closure + more, k + 1)
  {
  }

  // ---------- the snapshot ----------

  datatype Row = Row(
    step: Step,
    blockedBy: seq<string>,
    ready: bool,
    transitiveDependencies: seq<string>,
    executionBlockedBy: seq<string>,
    executionReady: bool)

  datatype Snapshot =
    | NoStepQueue
    | DuplicateIds
    | UnregisteredDependencies(id: string, unknown: seq<string>)
    | DependencyCycle(cycle: seq<string>)
    | Accepted(rows: seq<Row>, order: seq<string>)

  predicate Open(g: Graph, id: string) {
    id in g && g[id].state != Finished
  }

  /** The ids for which `keep` holds, in order. */
  function Select(ids: seq<string>, keep: set<string>): seq<string> {
    if ids == [] then []
    else Select(ids[..|ids| - 1], keep) + (if ids[|ids| - 1] in keep then [ids[|ids| - 1]] else [])
  }

  lemma {:induction false} SelectHolds(ids: seq<string>, keep: set<string>)
    ensures forall x :: x in Select(ids, keep) <==> x in ids && x in keep
  {
    if ids != [] {
      SelectHolds(ids[..|ids| - 1], keep);
      assert ids == ids[..|ids| - 1] + [ids[|ids| - 1]];
    }
  }

  /** Selecting neither drops nor copies what is kept. */
  lemma {:induction false} SelectCounts(ids: seq<string>, keep: set<string>, x: string)
    ensures multiset(Select(ids, keep))[x] == if x in keep then multiset(ids)[x] else 0
  {
    if ids != [] {
      var init, last := ids[..|ids| - 1], ids[|ids| - 1];
      SelectCounts(init, keep, x);
      assert ids == init + [last];
      assert Select(ids, keep) == Select(init, keep) + (if last in keep then [last] else []);
    }
  }

  /** Selecting keeps the order. */
  lemma {:induction false} SelectKeepsOrder(ids: seq<string>, keep: set<string>) returns (at: seq<nat>)
    ensures Picks(ids, Select(ids, keep), at)
  {
    if ids == [] {
      at := [];
    } else {
      var init, last := ids[..|ids| - 1], ids[|ids| - 1];
      assert ids == init + [last];
      at := SelectKeepsOrder(init, keep);
      if last in keep {
        PicksTake(init, Select(init, keep), at, last);
        at := at + [|init|];
      } else {
        PicksSkip(init, Select(init, keep), at, last);
        assert Select(ids, keep) == Select(init, keep);
      }
    }
  }

  function OpenSet(g: Graph): set<string> {
    set x | x in g && g[x].state != Finished
  }

  /** The ids that are not finished. */
  method OpenOnes(g: Graph, ids: seq<string>) returns (open: seq<string>)
    requires forall x :: x in ids ==> x in g
    ensures open == Select(ids, OpenSet(g))
  {
    open := [];
    for i := 0 to |ids|
      invariant open == Select(ids[..i], OpenSet(g))
    {
      assert ids[..i + 1][..i] == ids[..i];
      if g[ids[i]].state != Finished {
        open := open + [ids[i]];
      }
    }
    assert ids[..|ids|] == ids;
  }

  /** The members of `closure` sorted by their place in the roadmap. */
  method InRoadmapOrder(ids: seq<string>, closure: set<string>) returns (sorted: seq<string>)
    ensures sorted == Select(ids, closure)
  {
    sorted := [];
    for i := 0 to |ids|
      invariant sorted == Select(ids[..i], closure)
    {
      assert ids[..i + 1][..i] == ids[..i];
      if ids[i] in closure {
        sorted := sorted + [ids[i]];
      }
    }
    assert ids[..|ids|] == ids;
  }

  ghost function ReachSet(steps: seq<Step>, g: Graph, a: string): set<string> {
    set x | x in Ids(steps) && Reaches(g, a, x)
  }

  /** What a row says about its step: its unfinished direct dependencies, everything it depends on
      directly or not in the order of the roadmap, the unfinished part of that, and whether it can be
      worked on. */
  ghost predicate RowIsRight(steps: seq<Step>, g: Graph, row: Row) {
    && row.blockedBy == Select(row.step.dependencies, OpenSet(g))
    && (row.ready <==> Executable(row.step.state) && row.blockedBy == [])
    && row.transitiveDependencies == Select(Ids(steps), ReachSet(steps, g, row.step.id))
    && row.executionBlockedBy == Select(row.transitiveDependencies, OpenSet(g))
    && (row.executionReady <==> Executable(row.step.state) && row.executionBlockedBy == [])
  }

  /** The lists of a row leave nothing out: in particular whatever holds up a step is in them. */
  lemma {:induction false} RowMembers(steps: seq<Step>, g: Graph, row: Row)
    requires Registered(steps, g) && RowIsRight(steps, g, row)
    requires row.step.id in g && g[row.step.id] == row.step
    ensures forall x :: x in row.blockedBy <==> Edge(g, row.step.id, x) && Open(g, x)
    ensures forall x :: x in row.transitiveDependencies <==> Reaches(g, row.step.id, x)
    ensures forall x :: x in row.executionBlockedBy <==> Reaches(g, row.step.id, x) && Open(g, x)
  {
    SelectHolds(row.step.dependencies, OpenSet(g));
    SelectHolds(Ids(steps), ReachSet(steps, g, row.step.id));
    SelectHolds(row.transitiveDependencies, OpenSet(g));
    forall x | Reaches(g, row.step.id, x)
      ensures x in Ids(steps)
    {
      ReachedIsRegistered(g, row.step.id, x);
      assert x in Elements(Ids(steps));
    }
  }

  method BuildRow(steps: seq<Step>, g: Graph, closures: map<string, set<string>>, step: Step) returns (row: Row)
    requires Registered(steps, g) && step.id in g && g[step.id] == step
    requires AreClosures(g, closures)
    ensures row.step == step && RowIsRight(steps, g, row)
  {
    var closure := closures[step.id];
    assert closure == ReachSet(steps, g, step.id) by {
      assert IsClosure(g, step.id, closure);
      forall x | Reaches(g, step.id, x)
        ensures x in Ids(steps)
      {
        ReachedIsRegistered(g, step.id, x);
        assert x in Elements(Ids(steps));
      }
    }
    var blockedBy := OpenOnes(g, step.dependencies);
    var transitive := InRoadmapOrder(Ids(steps), closure);
    SelectHolds(Ids(steps), closure);
    assert forall x :: x in transitive ==> x in Elements(Ids(steps));
    var executionBlockedBy := OpenOnes(g, transitive);
    row := Row(step, blockedBy, Executable(step.state) && |blockedBy| == 0, transitive, executionBlockedBy,
               Executable(step.state) && |executionBlockedBy| == 0);
  }

  lemma {:induction false} ReachedIsRegistered(g: Graph, a: string, b: string)
    requires Closed(g) && Reaches(g, a, b)
    ensures b in g
  {
    var p :| Connects(g, p, a, b);
    assert Linked(g, p, |p| - 2);
  }

  ghost predicate Acceptable(steps: seq<Step>, g: Graph) {
    steps != [] && Registered(steps, g) && Acyclic(g)
  }

  ghost predicate Counted(steps: seq<Step>, g: Graph) {
    && g.Keys == Elements(Ids(steps))
    && |g| <= |steps|
    && (|g| == |steps| <==> Distinct(Ids(steps)))
  }

  lemma {:induction false} SizeAfterUpdate(g: Graph, id: string, step: Step)
    ensures |g[id := step]| == if id in g then |g| else |g| + 1
  {
  }

  lemma {:induction false} CountOne(steps: seq<Step>, i: nat, g: Graph)
    requires i < |steps| && Counted(steps[..i], g)
    ensures Counted(steps[..i + 1], g[steps[i].id := steps[i]])
  {
    var g' := g[steps[i].id := steps[i]];
    AddId(steps, i);
    SizeAfterUpdate(g, steps[i].id, steps[i]);
    assert g'.Keys == g.Keys + {steps[i].id};
    assert |steps[..i]| == i && |steps[..i + 1]| == i + 1;
  }

  ghost predicate IndexedUpTo(steps: seq<Step>, i: nat, g: Graph)
    requires i <= |steps|
  {
    Counted(steps[..i], g) && (Distinct(Ids(steps[..i])) ==> Tabled(steps[..i], g))
  }

  lemma {:induction false} TableOne(steps: seq<Step>, i: nat, g: Graph)
    requires i < |steps| && Tabled(steps[..i], g) && Distinct(Ids(steps[..i + 1]))
    ensures Tabled(steps[..i + 1], g[steps[i].id := steps[i]])
  {
    var before, after, ids := steps[..i], steps[..i + 1], Ids(steps[..i + 1]);
    var g' := g[steps[i].id := steps[i]];
    forall k | 0 <= k < |after|
      ensures after[k].id in g' && g'[after[k].id] == after[k]
    {
      if k < i {
        assert before[k] == after[k];
        assert ids[k] != ids[i];
      }
    }
  }

  lemma {:induction false} IndexOne(steps: seq<Step>, i: nat, g: Graph)
    requires i < |steps| && IndexedUpTo(steps, i, g)
    ensures IndexedUpTo(steps, i + 1, g[steps[i].id := steps[i]])
  {
    CountOne(steps, i, g);
    if Distinct(Ids(steps[..i + 1])) {
      AddId(steps, i);
      TableOne(steps, i, g);
    }
  }

  /** The table of steps by id; a later row replaces an earlier one with the same id, which shows
      in the size of the table. */
  method IndexSteps(steps: seq<Step>) returns (g: Graph)
    ensures g.Keys == Elements(Ids(steps))
    ensures |g| == |steps| <==> Distinct(Ids(steps))
    ensures Distinct(Ids(steps)) ==> Tabled(steps, g)
  {
    g := map[];
    for i := 0 to |steps|
      invariant IndexedUpTo(steps, i, g)
    {
      IndexOne(steps, i, g);
      g := g[steps[i].id := steps[i]];
    }
    assert steps[..|steps|] == steps;
  }

  /** The first step, if any, that depends on something unregistered. */
  method FindUnregistered(steps: seq<Step>, g: Graph) returns (at: nat, unknown: seq<string>)
    ensures at <= |steps|
    ensures at < |steps| ==> unknown != [] && forall x :: x in unknown <==> x in steps[at].dependencies && x !in g
    ensures forall k, d :: 0 <= k < at && d in steps[k].dependencies ==> d in g
  {
    unknown := [];
    for i := 0 to |steps|
      invariant forall k, d :: 0 <= k < i && d in steps[k].dependencies ==> d in g
    {
      unknown := Unregistered(g, steps[i].dependencies);
      if |unknown| > 0 {
        return i, unknown;
      }
      forall d | d in steps[i].dependencies
        ensures d in g
      {
        assert d !in unknown;
      }
    }
    at := |steps|;
  }

  lemma {:induction false} AllRegistered(steps: seq<Step>, g: Graph)
    requires g.Keys == Elements(Ids(steps)) && Distinct(Ids(steps))
    requires Tabled(steps, g)
    ensures Registered(steps, g) <==> forall k, d :: 0 <= k < |steps| && d in steps[k].dependencies ==> d in g
  {
    if forall k, d :: 0 <= k < |steps| && d in steps[k].dependencies ==> d in g {
      forall a, d | a in g && d in g[a].dependencies
        ensures d in g
      {
        var k :| 0 <= k < |steps| && Ids(steps)[k] == a;
        assert d in steps[k].dependencies;
      }
    }
  }

  ghost predicate RowFits(steps: seq<Step>, g: Graph, rows: seq<Row>, i: nat)
    requires i < |rows| <= |steps|
  {
    rows[i].step == steps[i] && RowIsRight(steps, g, rows[i])
  }

  ghost predicate RowsFit(steps: seq<Step>, g: Graph, rows: seq<Row>) {
    |rows| <= |steps| && forall i :: 0 <= i < |rows| ==> RowFits(steps, g, rows, i)
  }

  lemma {:induction false} RowsPush(steps: seq<Step>, g: Graph, rows: seq<Row>, row: Row)
    requires |rows| < |steps| && RowsFit(steps, g, rows)
    requires row.step == steps[|rows|] && RowIsRight(steps, g, row)
    ensures RowsFit(steps, g, rows + [row])
  {
    forall i | 0 <= i < |rows + [row]|
      ensures RowFits(steps, g, rows + [row], i)
    {
      assert i < |rows| ==> RowFits(steps, g, rows, i);
    }
  }

  method BuildRows(steps: seq<Step>, g: Graph, closures: map<string, set<string>>) returns (rows: seq<Row>)
    requires Registered(steps, g) && AreClosures(g, closures)
    ensures |rows| == |steps| && RowsFit(steps, g, rows)
  {
    rows := [];
    for i := 0 to |steps|
      invariant |rows| == i && RowsFit(steps, g, rows)
    {
      var row := BuildRow(steps, g, closures, steps[i]);
      RowsPush(steps, g, rows, row);
      rows := rows + [row];
    }
  }

  /** Step `at` is the first with unregistered dependencies, and `unknown` lists them. */
  ghost predicate FirstUnregistered(steps: seq<Step>, at: nat, unknown: seq<string>)
    requires at < |steps|
  {
    && unknown != []
    && (forall x :: x in unknown <==> x in steps[at].dependencies && x !in Elements(Ids(steps)))
    && forall k, d :: 0 <= k < at && d in steps[k].dependencies ==> d in Elements(Ids(steps))
  }

  /** The whole validation: a roadmap is accepted exactly when it has steps, its ids are distinct,
      every dependency is registered and no step depends on itself, directly or not. `g` is the table
      of the steps by id. */
  method TakeSnapshot(steps: seq<Step>) returns (r: Snapshot, g: Graph)
    ensures g.Keys == Elements(Ids(steps)) && (Distinct(Ids(steps)) ==> Tabled(steps, g))
    ensures r.Accepted? <==> Acceptable(steps, g)
    ensures r.NoStepQueue? <==> steps == []
    ensures r.DuplicateIds? <==> !Distinct(Ids(steps))
    ensures r.UnregisteredDependencies? ==>
              exists at :: 0 <= at < |steps| && steps[at].id == r.id && FirstUnregistered(steps, at, r.unknown)
    ensures r.DependencyCycle? ==> Registered(steps, g) && ClosedPath(g, r.cycle)
    ensures r.Accepted? ==>
              && Topological(g, r.order) && Elements(r.order) == Elements(Ids(steps))
              && |r.rows| == |steps| && RowsFit(steps, g, r.rows)
  {
    if |steps| == 0 {
      return NoStepQueue, map[];
    }
    g := IndexSteps(steps);
    if |g| != |steps| {
      return DuplicateIds, g;
    }
    AllRegistered(steps, g);
    var at, unknown := FindUnregistered(steps, g);
    if at < |steps| {
      assert unknown[0] in steps[at].dependencies && unknown[0] !in g;
      assert FirstUnregistered(steps, at, unknown);
      return UnregisteredDependencies(steps[at].id, unknown), g;
    }
    var walk := DependencyOrder(steps, g);
    if walk.Cyclic? {
      return DependencyCycle(walk.cycle), g;
    }
    var closures := Closures(g, walk.order);
    var rows := BuildRows(steps, g, closures);
    r := Accepted(rows, walk.order);
  }

  lemma {:induction false} AddId(steps: seq<Step>, i: nat)
    requires i < |steps|
    ensures Ids(steps[..i + 1]) == Ids(steps[..i]) + [steps[i].id]
    ensures Elements(Ids(steps[..i + 1])) == Elements(Ids(steps[..i])) + {steps[i].id}
    ensures Distinct(Ids(steps[..i + 1])) <==> Distinct(Ids(steps[..i])) && steps[i].id !in Elements(Ids(steps[..i]))
  {
    assert Ids(steps[..i + 1]) == Ids(steps[..i]) + [steps[i].id];
    DistinctPush(Ids(steps[..i]), steps[i].id);
  }

  lemma {:induction false} DistinctPush(ids: seq<string>, id: string)
    ensures Elements(ids + [id]) == Elements(ids) + {id}
    ensures Distinct(ids + [id]) <==> Distinct(ids) && id !in Elements(ids)
  {
    var longer := ids + [id];
    assert longer[|ids|] == id;
    assert forall k :: 0 <= k < |ids| ==> longer[k] == ids[k];
  }

  method Unregistered(g: Graph, deps: seq<string>) returns (unknown: seq<string>)
    ensures forall x :: x in unknown <==> x in deps && x !in g
  {
    unknown := [];
    for i := 0 to |deps|
      invariant forall x :: x in unknown <==> x in deps[..i] && x !in g
    {
      if deps[i] !in g {
        unknown := unknown + [deps[i]];
      }
    }
  }

  // ---------- scheduling ----------

  /** A step that is ready for execution is ready. */
  lemma {:induction false} ExecutionReadyIsReady(steps: seq<Step>, g: Graph, row: Row)
    requires Registered(steps, g) && row.step.id in g && g[row.step.id] == row.step
    requires RowIsRight(steps, g, row) && row.executionReady
    ensures row.ready
  {
    RowMembers(steps, g, row);
    if row.blockedBy != [] {
      var x := row.blockedBy[0];
      EdgeReaches(g, row.step.id, x);
    }
  }

  /** A step can be worked on while it is pending, in progress or at risk. It is ready exactly when, besides,
      all its dependencies are finished. */
  lemma {:induction false} ReadyExactly(steps: seq<Step>, g: Graph, row: Row)
    requires Registered(steps, g) && row.step.id in g && g[row.step.id] == row.step && RowIsRight(steps, g, row)
    ensures row.ready <==>
            && (row.step.state == InProgress || row.step.state == Pending || row.step.state == AtRisk)
            && forall x :: x in row.step.dependencies ==> x in g && g[x].state == Finished
  {
    SelectHolds(row.step.dependencies, OpenSet(g));
    if row.blockedBy != [] {
      var x := row.blockedBy[0];
      assert x in row.step.dependencies && x in OpenSet(g);
    } else {
      forall x | x in row.step.dependencies
        ensures x in g && g[x].state == Finished
      {
        assert x !in row.blockedBy;
      }
    }
  }

  /** It is ready for execution exactly when everything is finished that it depends on, directly or not. */
  lemma {:induction false} ExecutionReadyExactly(steps: seq<Step>, g: Graph, row: Row)
    requires Registered(steps, g) && row.step.id in g && g[row.step.id] == row.step && RowIsRight(steps, g, row)
    ensures row.executionReady <==>
            && (row.step.state == InProgress || row.step.state == Pending || row.step.state == AtRisk)
            && forall x :: Reaches(g, row.step.id, x) ==> x in g && g[x].state == Finished
  {
    RowMembers(steps, g, row);
    if row.executionBlockedBy != [] {
      var x := row.executionBlockedBy[0];
      assert Reaches(g, row.step.id, x) && Open(g, x);
    } else {
      forall x | Reaches(g, row.step.id, x)
        ensures x in g && g[x].state == Finished
      {
        ReachedIsRegistered(g, row.step.id, x);
        assert x !in row.executionBlockedBy;
      }
    }
  }

  lemma {:induction false} ReachedIsEarlier(g: Graph, order: seq<string>, i: nat, b: string) returns (j: nat)
    requires Topological(g, order) && i < |order| && Reaches(g, order[i], b)
    ensures j < i && order[j] == b
  {
    var p :| Connects(g, p, order[i], b);
    j := PathDescends(g, order, p, i);
  }

  /** The first unfinished step of the dependency order is held up by nothing. */
  lemma {:induction false} FirstOpenIsFree(steps: seq<Step>, g: Graph, order: seq<string>, i: nat, row: Row)
    requires Registered(steps, g) && row.step.id in g && g[row.step.id] == row.step && RowIsRight(steps, g, row)
    requires Topological(g, order) && i < |order| && row.step.id == order[i]
    requires forall k :: 0 <= k < i ==> !Open(g, order[k])
    ensures row.executionBlockedBy == []
  {
    RowMembers(steps, g, row);
    if row.executionBlockedBy != [] {
      var x := row.executionBlockedBy[0];
      var j := ReachedIsEarlier(g, order, i, x);
    }
  }

  /** Progress in an accepted roadmap: while something is unfinished and every unfinished step is in an
      executable state, some step is ready for execution. */
  lemma {:induction false} SomeStepCanRun(steps: seq<Step>, g: Graph, order: seq<string>, rows: seq<Row>) returns (i: nat)
    requires Registered(steps, g) && Topological(g, order) && Elements(order) == Elements(Ids(steps))
    requires |rows| == |steps| && RowsFit(steps, g, rows)
    requires exists k :: 0 <= k < |steps| && steps[k].state != Finished
    requires forall k :: 0 <= k < |steps| ==> steps[k].state != Unclear && steps[k].state != Barred
    ensures i < |rows| && rows[i].executionReady && rows[i].step.state != Finished
  {
    var k :| 0 <= k < |steps| && steps[k].state != Finished;
    IdRegistered(steps, k);
    var at :| 0 <= at < |order| && order[at] == steps[k].id;
    var first := FirstOpen(g, order, at);
    assert order[first] in Elements(order);
    i :| 0 <= i < |steps| && Ids(steps)[i] == order[first];
    assert RowFits(steps, g, rows, i);
    FirstOpenIsFree(steps, g, order, first, rows[i]);
  }

  lemma {:induction false} FirstOpen(g: Graph, order: seq<string>, at: nat) returns (first: nat)
    requires at < |order| && Open(g, order[at])
    ensures first <= at && Open(g, order[first]) && forall k :: 0 <= k < first ==> !Open(g, order[k])
  {
    if earlier :| 0 <= earlier < at && Open(g, order[earlier]) {
      first := FirstOpen(g, order, earlier);
    } else {
      first := at;
    }
  }
}
