/** Which containers a task involves: `container_names_in_task`. */
module TaskNames {
  import opened Common
  import opened Graphs
  import opened ConfigModel

  /** The task's own container and its sidecars: where the walk starts. */
  function WalkRoots(root: string, taskDependencies: Option<seq<string>>): set<string> {
    {root} + (set d | d in Listed(taskDependencies))
  }

  /** The stack walk ends on every graph, cyclic ones included, with exactly what is reached. */
  method ContainerNamesInTask(
      containers: map<string, Container>, root: string, taskDependencies: Option<seq<string>>)
    returns (names: set<string>)
    ensures forall n :: n in names <==>
      Reached(DependenciesOf(containers), WalkRoots(root, taskDependencies), n)
    ensures LeastClosed(DependenciesOf(containers), WalkRoots(root, taskDependencies), names)
  {
    hide Walking, Reached, LeastClosed;
    ghost var g := DependenciesOf(containers);
    ghost var roots := WalkRoots(root, taskDependencies);
    ghost var universe := roots + (set u, v | u in g && v in g[u] :: v);
    names := {};
    var stack := [root] + Listed(taskDependencies);
    WalkStarts(g, roots, stack);
    while stack != []
      invariant names <= universe && forall n :: n in stack ==> n in universe
      invariant Walking(g, roots, names, stack)
      decreases universe - names, |stack|
    {
      var name := stack[|stack| - 1];
      ghost var before := stack;
      stack := stack[..|stack| - 1];
      assert before == stack + [name];
      if name !in names {
        WalkExpands(g, roots, names, before, name, stack);
        names := names + {name};
        if name in containers && containers[name].dependencies.Some? {
          stack := stack + containers[name].dependencies.value;
        } else {
          assert stack + Successors(g, name) == stack;
        }
      } else {
        WalkSkips(g, roots, names, before, name, stack);
      }
    }
    assert stack == [];
    WalkEnds(g, roots, names);
  }
}
