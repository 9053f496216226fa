/** The graph store: an undirected graph in compressed sparse row form. */
module CsrGraph {

  /** A read-only view of a CSR graph, the form in which both engines read it.
      `offsets` plays the role of `adjacencyListPointers` and `targets` that of
      `adjacencyList`: the neighbours of node `v` are the entries of `targets`
      in the half-open range `[offsets[v], offsets[v + 1])`. */
  datatype Csr = Csr(nodeCount: nat, offsets: seq<int>, targets: seq<int>)
  {
    /** What the engines need of their input and what nothing in the program
        checks: `nodeCount + 1` non-decreasing, non-negative offsets whose
        ranges lie inside `targets`, and every target read is a node. */
    predicate WellFormed()
    {
      && |offsets| == nodeCount + 1
      && 0 <= offsets[0]
      && (forall i, j :: 0 <= i <= j <= nodeCount ==> offsets[i] <= offsets[j])
      && offsets[nodeCount] <= |targets|
      && (forall k :: offsets[0] <= k < offsets[nodeCount] ==> 0 <= targets[k] < nodeCount)
    }
  }

  /** Marks the entries `lo` to `hi - 1` of `rows` as belonging to node `i`,
      leaving the other entries alone. */
  method MarkRow(rows: array<int>, i: int, lo: int, hi: int)
    requires 0 <= lo <= hi <= rows.Length
    modifies rows
    ensures forall j :: lo <= j < hi ==> rows[j] == i
    ensures forall j :: 0 <= j < rows.Length && !(lo <= j < hi) ==> rows[j] == old(rows[j])
  {
    var j := lo;
    while j < hi
      invariant lo <= j <= hi
      invariant forall k :: lo <= k < j ==> rows[k] == i
      invariant forall k :: 0 <= k < rows.Length && !(lo <= k < j) ==> rows[k] == old(rows[k])
    {
      rows[j] := i;
      j := j + 1;
    }
  }

  /** The graph object. `readGraph` is modelled by the constructor, which takes
      the counts and the two integer lines as sequences instead of reading them
      from standard input. */
  class Graph {
    var nodeCount: nat
    var edgeCount: nat
    var adjacencyList: array<int>
    var adjacencyListPointers: array<int>
    /** Set by `ConvertToCOO`; `null` until then. */
    var edgeList1: array?<int>
    var edgeList2: array?<int>

    /** The array sizes `readGraph` allocates. */
    predicate Valid()
      reads this
    {
      && adjacencyListPointers.Length == nodeCount + 1
      && adjacencyList.Length == 2 * edgeCount + 1
      && adjacencyList != adjacencyListPointers
    }

    /** The arrays as the engines see them. */
    function View(): Csr
      reads this, adjacencyListPointers, adjacencyList
    {
      Csr(nodeCount, adjacencyListPointers[..], adjacencyList[..])
    }

    /** A valid graph whose offsets only reach the `2 * edgeCount` targets that
        were actually read. */
    predicate WellFormed()
      reads this, adjacencyListPointers, adjacencyList
    {
      && Valid()
      && View().WellFormed()
      && adjacencyListPointers[nodeCount] <= 2 * edgeCount
    }

    constructor (nodeCount: nat, edgeCount: nat, pointers: seq<int>, targets: seq<int>)
      requires |pointers| == nodeCount + 1
      requires |targets| == 2 * edgeCount
      ensures Valid()
      ensures fresh(adjacencyList) && fresh(adjacencyListPointers)
      ensures this.nodeCount == nodeCount && this.edgeCount == edgeCount
      ensures adjacencyListPointers[..] == pointers
      ensures adjacencyList[..2 * edgeCount] == targets
      ensures edgeList1 == null && edgeList2 == null
    {
      var ptrs := new int[nodeCount + 1];
      var list := new int[2 * edgeCount + 1];
      for i := 0 to nodeCount + 1
        invariant ptrs[..i] == pointers[..i]
      {
        ptrs[i] := pointers[i];
      }
      for i := 0 to 2 * edgeCount
        invariant list[..i] == targets[..i]
        invariant ptrs[..] == pointers
      {
        list[i] := targets[i];
      }
      this.nodeCount := nodeCount;
      this.edgeCount := edgeCount;
      adjacencyListPointers := ptrs;
      adjacencyList := list;
      edgeList1 := null;
      edgeList2 := null;
    }

    function GetNodeCount(): (r: nat)
      reads this
      ensures r == nodeCount
    {
      nodeCount
    }

    function GetEdgeCount(): (r: nat)
      reads this
      ensures r == edgeCount
    {
      edgeCount
    }

    /** Returns the whole target array whatever node is asked for. */
    function GetAdjacencyList(node: int): (r: array<int>)
      reads this
      ensures r == adjacencyList
    {
      adjacencyList
    }

    /** Returns the whole offset array whatever node is asked for. */
    function GetAdjacencyListPointers(node: int): (r: array<int>)
      reads this
      ensures r == adjacencyListPointers
    {
      adjacencyListPointers
    }

    /** Expands the CSR offsets into a per-entry source array: afterwards entry
        `j` of the coordinate form is the directed edge
        `edgeList1[j] -> edgeList2[j]`, and `edgeList2` is the target array
        itself, shared rather than copied. */
    method ConvertToCOO()
      requires Valid()
      requires 0 <= adjacencyListPointers[0]
      requires forall i, j :: 0 <= i <= j <= nodeCount ==> adjacencyListPointers[i] <= adjacencyListPointers[j]
      requires adjacencyListPointers[nodeCount] <= 2 * edgeCount + 1
      modifies `edgeList1, `edgeList2
      ensures Valid()
      ensures edgeList2 == adjacencyList
      ensures edgeList1 != null && fresh(edgeList1)
      ensures edgeList1.Length == 2 * edgeCount + 1
      ensures forall i, j :: 0 <= i < nodeCount && adjacencyListPointers[i] <= j < adjacencyListPointers[i + 1] ==> edgeList1[j] == i
      ensures adjacencyList[..] == old(adjacencyList[..])
      ensures adjacencyListPointers[..] == old(adjacencyListPointers[..])
    {
      edgeList2 := adjacencyList;
      var rows := new int[2 * edgeCount + 1];
      for i := 0 to nodeCount
        modifies rows
        invariant forall i', j :: 0 <= i' < i && adjacencyListPointers[i'] <= j < adjacencyListPointers[i' + 1] ==> rows[j] == i'
      {
        MarkRow(rows, i, adjacencyListPointers[i], adjacencyListPointers[i + 1]);
      }
      edgeList1 := rows;
    }
  }
}
