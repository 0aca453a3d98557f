/**
 The dependency check of a workflow graph: a depth-first search with a visited and an active
 set (reference/diffusers/comfyui_runtime.py, the nested function visit).
 */
module WorkflowGraph {
  type Dependencies = map<string, set<string>>

  /** Every dependency is itself a node. */
  ghost predicate Closed(d: Dependencies) {
    forall node <- d :: d[node] <= d.Keys
  }

  /** Each element depends directly on the next one. */
  ghost predicate Chain(d: Dependencies, path: seq<string>) {
    && (forall i :: 0 <= i < |path| ==> path[i] in d)
    && forall i :: 0 <= i < |path| - 1 ==> path[i + 1] in d[path[i]]
  }

  ghost predicate HasCycle(d: Dependencies) {
    exists path: seq<string> :: |path| > 1 && Chain(d, path) && path[0] == path[|path| - 1]
  }

  /** A rank that every dependency lowers. */
  ghost predicate Ranked(d: Dependencies, nodes: set<string>, rank: map<string, nat>) {
    && nodes <= rank.Keys && nodes <= d.Keys
    && forall node <- nodes :: d[node] <= nodes && forall other <- d[node] :: rank[other] < rank[node]
  }

  /** A node whose dependencies are all ranked can be ranked above them. */
  lemma RankOneMore(d: Dependencies, nodes: set<string>, rank: map<string, nat>, node: string)
    requires Ranked(d, nodes, rank) && node in d && node !in nodes && d[node] <= nodes
    requires forall other <- nodes :: rank[other] < |nodes|
    ensures Ranked(d, nodes + {node}, rank[node := |nodes|])
    ensures forall other <- nodes + {node} :: rank[node := |nodes|][other] < |nodes + {node}|
  {
  }

  lemma {:induction false} RankFallsAlongChain(d: Dependencies, rank: map<string, nat>, path: seq<string>)
    requires Ranked(d, d.Keys, rank) && |path| > 1 && Chain(d, path)
    ensures rank[path[|path| - 1]] < rank[path[0]]
  {
    if |path| > 2 {
      var init := path[..|path| - 1];
      assert Chain(d, init);
      RankFallsAlongChain(d, rank, init);
      assert path[|path| - 2 + 1] in d[path[|path| - 2]];
    }
  }

  lemma RankedIsAcyclic(d: Dependencies, rank: map<string, nat>)
    requires Ranked(d, d.Keys, rank)
    ensures !HasCycle(d)
  {
    if HasCycle(d) {
      var path :| |path| > 1 && Chain(d, path) && path[0] == path[|path| - 1];
      RankFallsAlongChain(d, rank, path);
    }
  }

  ghost function Elements(path: seq<string>): set<string> {
    set node | node in path
  }

  /** A chain that comes back to one of its own elements closes a cycle. */
  lemma BackEdgeIsCycle(d: Dependencies, path: seq<string>, node: string)
    requires Chain(d, path + [node]) && node in Elements(path)
    ensures HasCycle(d)
  {
    var i :| 0 <= i < |path| && path[i] == node;
    var cycle := (path + [node])[i..];
    assert Chain(d, cycle) by {
      forall k | 0 <= k < |cycle| - 1 ensures cycle[k + 1] in d[cycle[k]] {
        assert cycle[k] == (path + [node])[i + k] && cycle[k + 1] == (path + [node])[i + k + 1];
      }
    }
    assert |cycle| > 1 && cycle[0] == cycle[|cycle| - 1];
  }

  lemma StepDown(d: Dependencies, path: seq<string>, node: string)
    requires Closed(d) && Chain(d, path + [node])
    ensures node in d && Elements(path + [node]) == Elements(path) + {node}
    ensures forall other <- d[node] :: Chain(d, path + [node] + [other])
  {
    assert node == (path + [node])[|path|];
  }

  class CycleCheck {
    const dependencies: Dependencies
    var visited: set<string>
    var active: set<string>
    ghost var rank: map<string, nat>

    constructor (dependencies: Dependencies)
      requires Closed(dependencies)
      ensures this.dependencies == dependencies && Valid() && visited == {} && active == {}
    {
      this.dependencies := dependencies;
      visited, active, rank := {}, {}, map[];
    }

    /** Whatever was left behind cannot lie on a cycle. */
    ghost predicate Valid()
      reads this
    {
      && Closed(dependencies)
      && active <= dependencies.Keys && active !! visited
      && Ranked(dependencies, visited, rank)
      && visited <= rank.Keys && forall node <- visited :: rank[node] < |visited|
    }

    /** False stands for the exception; `path` is the stack of calls that are still active. */
    method Visit(node: string, ghost path: seq<string>) returns (ok: bool)
      requires Valid() && active == Elements(path) && Chain(dependencies, path + [node])
      modifies this
      ensures ok ==> Valid() && node in visited && old(visited) <= visited && active == old(active)
      ensures !ok ==> HasCycle(dependencies)
      decreases dependencies.Keys - visited - active
    {
      hide HasCycle, Ranked, Chain, Elements, Closed;
      StepDown(dependencies, path, node);
      if node in active {
        BackEdgeIsCycle(dependencies, path, node);
        return false;
      }
      if node in visited {
        return true;
      }
      active := active + {node};
      ghost var deeper := path + [node];
      var left := dependencies[node];
      while left != {}
        invariant Valid() && active == old(active) + {node} == Elements(deeper) && node !in visited
        invariant old(visited) <= visited && left <= dependencies[node]
        invariant forall other <- dependencies[node] :: other in left || other in visited
        decreases |left|
      {
        var dependency :| dependency in left;
        ok := Visit(dependency, deeper);
        if !ok {
          return false;
        }
        left := left - {dependency};
      }
      Finish(node);
      return true;
    }

    /** All that the node depends on has been visited. */
    method Finish(node: string)
      requires Valid() && node in dependencies && node in active && dependencies[node] <= visited
      modifies this
      ensures Valid() && visited == old(visited) + {node} && active == old(active) - {node}
    {
      hide Ranked;
      RankOneMore(dependencies, visited, rank, node);
      active := active - {node};
      rank := rank[node := |visited|];
      visited := visited + {node};
    }
  }

  /** Visits every node. The search raises exactly when the dependencies contain a cycle. */
  method CheckAcyclic(dependencies: Dependencies) returns (ok: bool)
    requires Closed(dependencies)
    ensures ok <==> !HasCycle(dependencies)
  {
    var check := new CycleCheck(dependencies);
    var left := dependencies.Keys;
    while left != {}
      invariant check.Valid() && check.active == {} && check.dependencies == dependencies
      invariant fresh(check)
      invariant left <= dependencies.Keys && dependencies.Keys - left <= check.visited
      decreases |left|
    {
      var node :| node in left;
      assert Chain(dependencies, [] + [node]);
      ok := check.Visit(node, []);
      if !ok {
        return false;
      }
      left := left - {node};
    }
    RankedIsAcyclic(dependencies, check.rank);
    return true;
  }
}
