/** The branch network: a fixed-capacity table of branches, each with an
    adjacency list of directed, weighted connections (newbank.c, section 3,
    "Graph Operations"). */
module Branches {

  /** The branch table holds at most this many branches (`branchGraph[10]`). */
  const MaxBranches: nat := 10

  datatype Branch = Branch(
    branchId: int,
    branchName: string,
    location: string,
    managerName: string,
    phoneNumber: string,
    employeeCount: int)

  /** One directed connection: the target's branch id (never validated) and the distance to it. */
  datatype Edge = Edge(branchId: int, distance: real)

  /** A slot of the branch table: the branch and its connections, most recently added first. */
  datatype BranchNode = BranchNode(data: Branch, connections: seq<Edge>)

  /** The zero-filled slot a global array starts with. */
  const EmptyNode := BranchNode(Branch(0, "", "", "", "", 0), [])

  /** Position of the first branch of `g` whose id is `id`, or -1 when none has it. */
  function FindIndex(g: seq<BranchNode>, id: int): (i: int)
    ensures -1 <= i < |g|
    ensures i == -1 <==> forall j :: 0 <= j < |g| ==> g[j].data.branchId != id
    ensures 0 <= i ==> g[i].data.branchId == id
    ensures 0 <= i ==> forall j :: 0 <= j < i ==> g[j].data.branchId != id
  {
    if |g| == 0 then -1
    else if g[0].data.branchId == id then 0
    else
      var k := FindIndex(g[1..], id);
      if k == -1 then -1 else k + 1
  }

  /** The global branch table `branchGraph` together with `branchCount`. */
  class Graph {
    var nodes: array<BranchNode>
    var count: nat

    ghost predicate Valid()
      reads this
    {
      nodes.Length == MaxBranches && count <= MaxBranches
    }

    /** The occupied prefix of the table: the graph every operation works on. */
    function Snapshot(): (g: seq<BranchNode>)
      reads this, nodes
      requires Valid()
      ensures |g| == count <= MaxBranches
    {
      nodes[..count]
    }

    constructor ()
      ensures Valid() && fresh(nodes)
      ensures Snapshot() == []
    {
      nodes := new BranchNode[MaxBranches](_ => EmptyNode);
      count := 0;
    }

    /** Appends a branch with no connections; a full table is left as it is.
        Duplicate ids are not rejected. */
    method AddBranch(branchId: int, branchName: string, location: string,
                     managerName: string, phoneNumber: string, employeeCount: int)
      requires Valid()
      modifies this, nodes
      ensures Valid() && nodes == old(nodes)
      ensures old(count) == MaxBranches ==> count == old(count) && nodes[..] == old(nodes[..])
      ensures old(count) < MaxBranches ==>
        && count == old(count) + 1
        && nodes[..] == old(nodes[..])[old(count) := BranchNode(Branch(branchId, branchName, location, managerName, phoneNumber, employeeCount), [])]
      ensures old(count) < MaxBranches ==>
        Snapshot() == old(Snapshot()) + [BranchNode(Branch(branchId, branchName, location, managerName, phoneNumber, employeeCount), [])]
    {
      if count >= MaxBranches {
        return;
      }
      nodes[count] := BranchNode(Branch(branchId, branchName, location, managerName, phoneNumber, employeeCount), []);
      count := count + 1;
      assert nodes[..count] == old(nodes[..count]) + [nodes[count - 1]];
    }

    /** Linear scan of the occupied slots for the first branch with this id. */
    method FindBranchIndex(branchId: int) returns (i: int)
      requires Valid()
      ensures i == FindIndex(Snapshot(), branchId)
    {
      var j := 0;
      while j < count
        invariant 0 <= j <= count
        invariant forall k :: 0 <= k < j ==> nodes[k].data.branchId != branchId
      {
        if nodes[j].data.branchId == branchId {
          assert Snapshot()[j] == nodes[j];
          return j;
        }
        j := j + 1;
      }
      return -1;
    }

    /** Puts a connection to `targetBranchId` at the front of the source branch's
        list; an unknown source changes nothing, the target is not checked. */
    method AddConnection(sourceBranchId: int, targetBranchId: int, distance: real)
      requires Valid()
      modifies nodes
      ensures Valid()
      ensures var src := FindIndex(old(Snapshot()), sourceBranchId);
        if src == -1 then nodes[..] == old(nodes[..])
        else nodes[..] == old(nodes[..])[src := old(nodes[src]).(connections := [Edge(targetBranchId, distance)] + old(nodes[src]).connections)]
    {
      var sourceIndex := FindBranchIndex(sourceBranchId);
      if sourceIndex == -1 {
        return;
      }
      nodes[sourceIndex] := nodes[sourceIndex].(connections := [Edge(targetBranchId, distance)] + nodes[sourceIndex].connections);
    }
  }
}
