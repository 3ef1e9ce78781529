/** The dependency cycle detector of the roadmap validator
    (src/bin/validate_distribution_roadmap.rs). */
module Cycles {
  import opened Common

  datatype Task = Task(name: string)
  type Graph = map<Task, seq<Task>>

  /** `dependencies.get(task)`, empty when the task has no entry. */
  function Dependencies(g: Graph, task: Task): seq<Task> {
    if task in g then g[task] else []
  }

  // ----- The specification -----

  ghost predicate IsPath(g: Graph, path: seq<Task>) {
    forall i :: 0 <= i < |path| - 1 ==> path[i + 1] in Dependencies(g, path[i])
  }

  /** A non-trivial path from the task back to itself. */
  ghost predicate IsCycle(g: Graph, path: seq<Task>, task: Task) {
    |path| > 1 && path[0] == task == path[|path| - 1] && IsPath(g, path)
  }

  ghost predicate OnCycle(g: Graph, task: Task) {
    exists path :: IsCycle(g, path, task)
  }

  ghost predicate Acyclic(g: Graph) {
    forall task :: !OnCycle(g, task)
  }

  /** Every task that is a key or a dependency. */
  function Universe(g: Graph): set<Task> {
    g.Keys + set task, dependency | task in g && dependency in g[task] :: dependency
  }

  // ----- The visited tasks, in an order in which dependencies come first -----

  ghost predicate Finished(g: Graph, order: seq<Task>) {
    forall i, d :: 0 <= i < |order| && d in Dependencies(g, order[i]) ==> d in order[..i]
  }

  lemma FinishedAppend(g: Graph, order: seq<Task>, task: Task)
    requires Finished(g, order) && forall d :: d in Dependencies(g, task) ==> d in order
    ensures Finished(g, order + [task])
  {
    var all := order + [task];
    forall i, d | 0 <= i < |all| && d in Dependencies(g, all[i]) ensures d in all[..i] {
      if i < |order| {
        assert all[..i] == order[..i];
      } else {
        assert all[..i] == order;
      }
    }
  }

  /** A path that starts in a finished prefix stays in it, one place lower each step. */
  lemma {:induction false} PathDescends(g: Graph, order: seq<Task>, path: seq<Task>, n: nat)
    requires Finished(g, order) && IsPath(g, path) && path != [] && n <= |order| && path[0] in order[..n]
    ensures |path| <= n
    ensures forall i :: 0 < i < |path| ==> path[i] in order[..n - 1]
  {
    if |path| > 1 {
      var k :| 0 <= k < n && order[k] == path[0];
      assert path[1] in order[..k];
      forall i | 0 <= i < |path| - 2 ensures path[1..][i + 1] in Dependencies(g, path[1..][i]) {
        assert path[i + 2] in Dependencies(g, path[i + 1]);
      }
      PathDescends(g, order, path[1..], k);
      assert path[1..][0] in order[..k];
      forall i | 0 < i < |path| ensures path[i] in order[..n - 1] {
        assert path[i] == path[1..][i - 1];
      }
    }
  }

  /** Repeating a cycle gives paths of any length. */
  lemma {:induction false} CycleRepeats(g: Graph, cycle: seq<Task>, task: Task, n: nat) returns (path: seq<Task>)
    requires IsCycle(g, cycle, task)
    ensures IsPath(g, path) && |path| > n && path[0] == task == path[|path| - 1]
  {
    if n == 0 {
      path := cycle;
    } else {
      var rest := CycleRepeats(g, cycle, task, n - 1);
      path := cycle + rest[1..];
      forall i | 0 <= i < |path| - 1 ensures path[i + 1] in Dependencies(g, path[i]) {
        if i < |cycle| - 1 {
          assert cycle[i + 1] in Dependencies(g, cycle[i]);
        } else {
          var j := i - (|cycle| - 1);
          assert path[i] == rest[j] && path[i + 1] == rest[j + 1];
          assert rest[j + 1] in Dependencies(g, rest[j]);
        }
      }
    }
  }

  /** No finished task lies on a cycle. */
  lemma FinishedNotOnCycle(g: Graph, order: seq<Task>, task: Task)
    requires Finished(g, order) && task in order
    ensures !OnCycle(g, task)
  {
    if OnCycle(g, task) {
      var cycle :| IsCycle(g, cycle, task);
      var path := CycleRepeats(g, cycle, task, |order|);
      assert order[..|order|] == order;
      PathDescends(g, order, path, |order|);
    }
  }

  lemma CycleTasksAreKeys(g: Graph, task: Task)
    requires OnCycle(g, task)
    ensures task in g
  {
    var cycle :| IsCycle(g, cycle, task);
    assert cycle[1] in Dependencies(g, cycle[0]);
  }

  // ----- The detector -----

  /** The two sets mirror the stack and the finishing order. */
  ghost predicate Consistent(g: Graph, visiting: set<Task>, visited: set<Task>, stack: seq<Task>, order: seq<Task>) {
    && (forall t :: t in visiting <==> t in stack)
    && (forall t :: t in visited <==> t in order)
    && IsPath(g, stack) && Finished(g, order)
    && visiting <= Universe(g) && visiting !! visited
  }

  lemma PushKeeps(g: Graph, visiting: set<Task>, visited: set<Task>, stack: seq<Task>, order: seq<Task>, task: Task)
    requires Consistent(g, visiting, visited, stack, order)
    requires task in Universe(g) && task !in visiting && task !in visited
    requires stack != [] ==> task in Dependencies(g, stack[|stack| - 1])
    ensures Consistent(g, visiting + {task}, visited, stack + [task], order)
  {
  }

  lemma PopKeeps(g: Graph, visiting: set<Task>, visited: set<Task>, stack: seq<Task>, order: seq<Task>, task: Task)
    requires Consistent(g, visiting + {task}, visited, stack + [task], order) && task !in visiting
    requires forall t :: t in visiting <==> t in stack
    requires forall d :: d in Dependencies(g, task) ==> d in visited
    ensures Consistent(g, visiting, visited + {task}, stack, order + [task])
  {
    FinishedAppend(g, order, task);
    var top := stack + [task];
    forall i | 0 <= i < |stack| - 1 ensures stack[i + 1] in Dependencies(g, stack[i]) {
      assert top[i + 1] in Dependencies(g, top[i]);
    }
    assert task in visiting + {task};
  }

  lemma InUniverse(g: Graph, task: Task, dependency: Task)
    requires dependency in Dependencies(g, task)
    ensures dependency in Universe(g)
  {
    assert task in g && dependency in g[task];
  }

  class Detector {
    var visiting: set<Task>
    var visited: set<Task>
    /** The tasks being visited, outermost first. */
    ghost var stack: seq<Task>
    /** The visited tasks, in the order in which they were finished. */
    ghost var order: seq<Task>

    constructor ()
      ensures visiting == {} && visited == {} && stack == [] && order == []
    {
      visiting, visited, stack, order := {}, {}, [], [];
    }

    ghost predicate Valid(g: Graph)
      reads this
    {
      Consistent(g, visiting, visited, stack, order)
    }

    /** The recursive visit. `None` is success; otherwise the named task lies on
        a cycle. */
    method Visit(g: Graph, task: Task) returns (cyclic: Option<Task>)
      requires Valid(g) && task in Universe(g)
      requires stack != [] ==> task in Dependencies(g, stack[|stack| - 1])
      modifies this
      ensures cyclic.None? ==> Valid(g) && visiting == old(visiting) && stack == old(stack)
      ensures cyclic.None? ==> task in visited && old(visited) <= visited
      ensures cyclic.Some? ==> OnCycle(g, cyclic.value)
      decreases |Universe(g) - visiting|, 1
    {
      if task in visited {
        return None;
      }
      if task in visiting {
        ClosedStack(g, stack, task);
        return Some(task);
      }
      cyclic := VisitFresh(g, task);
    }

    /** The visit of a task that is in neither set. */
    method VisitFresh(g: Graph, task: Task) returns (cyclic: Option<Task>)
      requires Valid(g) && task in Universe(g) && task !in visiting && task !in visited
      requires stack != [] ==> task in Dependencies(g, stack[|stack| - 1])
      modifies this
      ensures cyclic.None? ==> Valid(g) && visiting == old(visiting) && stack == old(stack)
      ensures cyclic.None? ==> task in visited && old(visited) <= visited
      ensures cyclic.Some? ==> OnCycle(g, cyclic.value)
      decreases |Universe(g) - visiting|, 0
    {
      ghost var outer, below := visiting, stack;
      Begin(g, task);
      ShrinkingRest(Universe(g), outer, task);
      cyclic := VisitAll(g, task);
      if cyclic.None? {
        Finish(g, task, outer, below);
      }
    }

    /** The task enters `visiting`. */
    method Begin(g: Graph, task: Task)
      requires Valid(g) && task in Universe(g) && task !in visiting && task !in visited
      requires stack != [] ==> task in Dependencies(g, stack[|stack| - 1])
      modifies this`visiting, this`stack
      ensures Valid(g) && visiting == old(visiting) + {task} && stack == old(stack) + [task]
      ensures forall t :: t in old(visiting) <==> t in old(stack)
    {
      PushKeeps(g, visiting, visited, stack, order, task);
      visiting := visiting + {task};
      stack := stack + [task];
    }

    /** The task leaves `visiting` and enters `visited`. */
    method Finish(g: Graph, task: Task, ghost outer: set<Task>, ghost below: seq<Task>)
      requires Valid(g) && visiting == outer + {task} && stack == below + [task]
      requires task !in outer && forall t :: t in outer <==> t in below
      requires forall d :: d in Dependencies(g, task) ==> d in visited
      modifies this
      ensures Valid(g) && visiting == outer && stack == below && visited == old(visited) + {task}
    {
      PopKeeps(g, outer, visited, below, order, task);
      visiting := visiting - {task};
      visited := visited + {task};
      stack := below;
      order := order + [task];
      assert visiting == outer;
    }

    /** The loop over the dependencies of the task on top of the stack. */
    method VisitAll(g: Graph, task: Task) returns (cyclic: Option<Task>)
      requires Valid(g) && stack != [] && stack[|stack| - 1] == task
      modifies this
      ensures cyclic.None? ==> Valid(g) && visiting == old(visiting) && stack == old(stack)
      ensures cyclic.None? ==> old(visited) <= visited && forall d :: d in Dependencies(g, task) ==> d in visited
      ensures cyclic.Some? ==> OnCycle(g, cyclic.value)
      decreases |Universe(g) - visiting|, 2
    {
      var dependencies := Dependencies(g, task);
      for i := 0 to |dependencies|
        invariant Valid(g) && visiting == old(visiting) && stack == old(stack)
        invariant old(visited) <= visited && forall k :: 0 <= k < i ==> dependencies[k] in visited
      {
        InUniverse(g, task, dependencies[i]);
        cyclic := Visit(g, dependencies[i]);
        if cyclic.Some? {
          return;
        }
      }
      return None;
    }
  }

  lemma ShrinkingRest(all: set<Task>, visiting: set<Task>, task: Task)
    requires task in all && task !in visiting
    ensures |all - (visiting + {task})| < |all - visiting|
  {
    assert all - visiting == (all - (visiting + {task})) + {task};
  }

  /** A dependency of the top of the stack that is on the stack closes a cycle. */
  lemma ClosedStack(g: Graph, stack: seq<Task>, task: Task)
    requires IsPath(g, stack) && task in stack && task in Dependencies(g, stack[|stack| - 1])
    ensures OnCycle(g, task)
  {
    var k :| 0 <= k < |stack| && stack[k] == task;
    var cycle := stack[k..] + [task];
    forall i | 0 <= i < |cycle| - 1 ensures cycle[i + 1] in Dependencies(g, cycle[i]) {
      if i < |cycle| - 2 {
        assert stack[k + i + 1] in Dependencies(g, stack[k + i]);
      }
    }
    assert IsCycle(g, cycle, task);
  }

  /** `detect_cycles`: success exactly when the relation is acyclic, and the task
      named by a failure lies on a genuine cycle. `keys` is the map's key order. */
  method DetectCycles(g: Graph, keys: seq<Task>) returns (cyclic: Option<Task>)
    requires forall t :: t in keys <==> t in g
    ensures cyclic.None? <==> Acyclic(g)
    ensures cyclic.Some? ==> OnCycle(g, cyclic.value)
  {
    var detector := new Detector();
    for i := 0 to |keys|
      invariant fresh(detector) && detector.Valid(g) && detector.stack == [] && detector.visiting == {}
      invariant forall k :: 0 <= k < i ==> keys[k] in detector.visited
    {
      assert keys[i] in g;
      cyclic := detector.Visit(g, keys[i]);
      if cyclic.Some? {
        return;
      }
    }
    forall task ensures !OnCycle(g, task) {
      if OnCycle(g, task) {
        CycleTasksAreKeys(g, task);
        assert task in keys;
        assert task in detector.order;
        FinishedNotOnCycle(g, detector.order, task);
      }
    }
    return None;
  }
}
