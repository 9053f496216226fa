/** The serial engine, `calculateBc`: one working state reused for every
    source, the centrality vector accumulated in place. */
module Serial {
  import opened Vectors
  import opened CsrGraph
  import opened Dependency
  import opened SourcePass

  /** Betweenness centrality of every node of the graph: for each source in
      turn, reset the working arrays, run the source's pass into `bc`, and
      clear the predecessor lists. The result is the sum of every source's
      contribution, in source order. */
  method CalculateBc(graph: Graph) returns (bc: array<real>)
    requires graph.WellFormed()
    ensures fresh(bc)
    ensures bc[..] == SourceSum(graph.View(), 0, graph.nodeCount)
  {
    var nodeCount := graph.GetNodeCount();
    bc := new real[nodeCount](_ => 0.0);
    var predecessor := new seq<int>[nodeCount](_ => []);
    var dependency := new real[nodeCount];
    var sigma := new int[nodeCount];
    var distance := new int[nodeCount];
    ghost var g := graph.View();
    assert bc[..] == Fill(nodeCount, 0.0);
    for s := 0 to nodeCount
      invariant graph.View() == g
      invariant bc[..] == SourceSum(g, 0, s)
      invariant predecessor[..] == Fill(nodeCount, [])
    {
      ResetWork(distance, sigma, dependency);
      ProcessSource(nodeCount, graph.adjacencyListPointers, graph.adjacencyList, s,
                    distance, sigma, predecessor, dependency, bc);
      ClearPredecessors(predecessor);
    }
  }
}
