/** The processes below a root: `descendant_processes` in `scripts/measure_provider_baseline.py`. */
module ProcessTree {

  /** One entry of the process map, in iteration order. */
  datatype Process = Process(id: nat, parent: nat, group: nat)

  /** The keys of a map are distinct. */
  ghost predicate IsMap(processes: seq<Process>) {
    forall i, j :: 0 <= i < j < |processes| ==> processes[i].id != processes[j].id
  }

  ghost predicate IsChild(processes: seq<Process>, parent: nat, child: nat) {
    exists i :: 0 <= i < |processes| && processes[i].parent == parent && processes[i].id == child
  }

  /** Parent links lead from the last process of the chain back to the first. */
  ghost predicate IsChain(processes: seq<Process>, chain: seq<nat>) {
    chain != [] && forall k :: 0 <= k < |chain| - 1 ==> IsChild(processes, chain[k], chain[k + 1])
  }

  ghost predicate Reaches(processes: seq<Process>, root: nat, id: nat) {
    exists chain :: IsChain(processes, chain) && chain[0] == root && chain[|chain| - 1] == id
  }

  lemma ReachesSelf(processes: seq<Process>, root: nat)
    ensures Reaches(processes, root, root)
  {
    assert IsChain(processes, [root]);
  }

  lemma ReachesChild(processes: seq<Process>, root: nat, parent: nat, i: nat)
    requires Reaches(processes, root, parent) && i < |processes| && processes[i].parent == parent
    ensures Reaches(processes, root, processes[i].id)
  {
    var chain :| IsChain(processes, chain) && chain[0] == root && chain[|chain| - 1] == parent;
    var longer := chain + [processes[i].id];
    assert IsChild(processes, parent, processes[i].id);
    forall k | 0 <= k < |longer| - 1
      ensures IsChild(processes, longer[k], longer[k + 1])
    {
      if k < |chain| - 1 {
        assert IsChild(processes, chain[k], chain[k + 1]);
      }
    }
    assert longer[0] == root && longer[|longer| - 1] == processes[i].id;
  }

  /** A set that holds the root and all children of its members holds everything reachable. */
  ghost predicate Closed(processes: seq<Process>, seen: set<nat>) {
    forall i :: 0 <= i < |processes| && processes[i].parent in seen ==> processes[i].id in seen
  }

  lemma {:induction false} ClosedHoldsChain(processes: seq<Process>, seen: set<nat>, chain: seq<nat>)
    requires Closed(processes, seen) && IsChain(processes, chain) && chain[0] in seen
    ensures chain[|chain| - 1] in seen
  {
    if |chain| > 1 {
      assert IsChild(processes, chain[0], chain[0 + 1]);
      forall k | 0 <= k < |chain[1..]| - 1
        ensures IsChild(processes, chain[1..][k], chain[1..][k + 1])
      {
        assert IsChild(processes, chain[k + 1], chain[k + 1 + 1]);
      }
      ClosedHoldsChain(processes, seen, chain[1..]);
    }
  }

  function Ids(processes: seq<Process>): set<nat> {
    set i | 0 <= i < |processes| :: processes[i].id
  }

  ghost predicate DistinctIds(found: seq<Process>) {
    forall i, j :: 0 <= i < j < |found| ==> found[i].id != found[j].id
  }

  /** What holds between two steps of the walk; `open` are the members whose children may be missing. */
  ghost predicate WalkOk(processes: seq<Process>, root: nat, seen: set<nat>, found: seq<Process>) {
    && root in seen && seen == Ids(found) + {root} && root !in Ids(found)
    && DistinctIds(found)
    && (forall p :: p in found ==> p in processes)
    && (forall id :: id in seen ==> Reaches(processes, root, id))
  }

  ghost predicate ClosedExcept(processes: seq<Process>, seen: set<nat>, open: set<nat>) {
    forall i :: 0 <= i < |processes| && processes[i].parent in seen && processes[i].parent !in open ==>
      processes[i].id in seen
  }

  lemma FindOne(processes: seq<Process>, root: nat, seen: set<nat>, found: seq<Process>, i: nat)
    requires WalkOk(processes, root, seen, found) && i < |processes|
    requires processes[i].parent in seen && processes[i].id !in seen
    ensures WalkOk(processes, root, seen + {processes[i].id}, found + [processes[i]])
  {
    var more := found + [processes[i]];
    assert Ids(more) == Ids(found) + {processes[i].id} by {
      assert more[|found|] == processes[i];
      assert forall k :: 0 <= k < |found| ==> more[k] == found[k];
    }
    assert forall k :: 0 <= k < |found| ==> found[k].id in Ids(found);
    ReachesChild(processes, root, processes[i].parent, i);
  }

  lemma {:induction false} FewerUnseen(processes: seq<Process>, seen: set<nat>, id: nat)
    requires id in Ids(processes) && id !in seen
    ensures |Ids(processes) - (seen + {id})| < |Ids(processes) - seen|
  {
    assert Ids(processes) - seen == (Ids(processes) - (seen + {id})) + {id};
  }

  function Elements(s: seq<nat>): set<nat> {
    set i | 0 <= i < |s| :: s[i]
  }

  lemma ElementsPush(s: seq<nat>, x: nat)
    ensures Elements(s + [x]) == Elements(s) + {x}
  {
    assert (s + [x])[|s|] == x;
    assert forall k :: 0 <= k < |s| ==> (s + [x])[k] == s[k];
  }

  /** How many processes the walk has not seen. */
  ghost function Unseen(processes: seq<Process>, seen: set<nat>): nat {
    |Ids(processes) - seen|
  }

  /** Between two rounds: only the children of processes on the frontier may be missing. */
  ghost predicate Round(processes: seq<Process>, root: nat, seen: set<nat>, found: seq<Process>, frontier: seq<nat>) {
    && WalkOk(processes, root, seen, found)
    && Elements(frontier) <= seen
    && ClosedExcept(processes, seen, Elements(frontier))
  }

  /** Within a round: the first `i` processes have been looked at. */
  ghost predicate Scan(
    processes: seq<Process>, root: nat, seen: set<nat>, found: seq<Process>, frontier: seq<nat>, parent: nat, i: nat)
    requires i <= |processes|
  {
    && WalkOk(processes, root, seen, found)
    && parent in seen && Elements(frontier) <= seen
    && ClosedExcept(processes, seen, Elements(frontier) + {parent})
    && (forall j :: 0 <= j < i && processes[j].parent == parent ==> processes[j].id in seen)
  }

  lemma StartScan(processes: seq<Process>, root: nat, seen: set<nat>, found: seq<Process>, frontier: seq<nat>)
    requires Round(processes, root, seen, found, frontier) && frontier != []
    ensures Scan(processes, root, seen, found, frontier[..|frontier| - 1], frontier[|frontier| - 1], 0)
  {
    ElementsPush(frontier[..|frontier| - 1], frontier[|frontier| - 1]);
    assert frontier == frontier[..|frontier| - 1] + [frontier[|frontier| - 1]];
  }

  lemma ScanFinds(
    processes: seq<Process>, root: nat, seen: set<nat>, found: seq<Process>, frontier: seq<nat>, parent: nat, i: nat)
    requires i < |processes| && Scan(processes, root, seen, found, frontier, parent, i)
    requires processes[i].parent == parent && processes[i].id !in seen
    ensures Scan(processes, root, seen + {processes[i].id}, found + [processes[i]], frontier + [processes[i].id],
                 parent, i + 1)
    ensures Unseen(processes, seen + {processes[i].id}) < Unseen(processes, seen)
  {
    FindOne(processes, root, seen, found, i);
    ElementsPush(frontier, processes[i].id);
    assert processes[i].id in Ids(processes);
    FewerUnseen(processes, seen, processes[i].id);
  }

  lemma ScanSkips(
    processes: seq<Process>, root: nat, seen: set<nat>, found: seq<Process>, frontier: seq<nat>, parent: nat, i: nat)
    requires i < |processes| && Scan(processes, root, seen, found, frontier, parent, i)
    requires processes[i].parent != parent || processes[i].id in seen
    ensures Scan(processes, root, seen, found, frontier, parent, i + 1)
  {
  }

  lemma EndScan(
    processes: seq<Process>, root: nat, seen: set<nat>, found: seq<Process>, frontier: seq<nat>, parent: nat)
    requires Scan(processes, root, seen, found, frontier, parent, |processes|)
    ensures Round(processes, root, seen, found, frontier)
  {
  }

  /** Each process reachable from the root through parent links, once, and never the root; also when
      parent links form cycles. */
  method DescendantProcesses(root: nat, processes: seq<Process>) returns (found: seq<Process>)
    requires IsMap(processes)
    ensures DistinctIds(found)
    ensures forall p :: p in found <==> p in processes && p.id != root && Reaches(processes, root, p.id)
  {
    found := [];
    var frontier := [root];
    var seen := {root};
    ReachesSelf(processes, root);
    assert Elements(frontier) == {root} by {
      assert frontier[0] == root;
    }
    while frontier != []
      invariant Round(processes, root, seen, found, frontier)
      decreases Unseen(processes, seen), |frontier|
    {
      StartScan(processes, root, seen, found, frontier);
      var parent := frontier[|frontier| - 1];
      frontier := frontier[..|frontier| - 1];
      ghost var unseen, size := Unseen(processes, seen), |frontier|;
      for i := 0 to |processes|
        invariant Scan(processes, root, seen, found, frontier, parent, i)
        invariant Unseen(processes, seen) < unseen || (Unseen(processes, seen) == unseen && |frontier| == size)
      {
        var p := processes[i];
        if p.parent == parent && p.id !in seen {
          ScanFinds(processes, root, seen, found, frontier, parent, i);
          seen := seen + {p.id};
          frontier := frontier + [p.id];
          found := found + [p];
        } else {
          ScanSkips(processes, root, seen, found, frontier, parent, i);
        }
      }
      EndScan(processes, root, seen, found, frontier, parent);
    }
    EverythingFound(processes, root, seen, found);
  }

  lemma EverythingFound(processes: seq<Process>, root: nat, seen: set<nat>, found: seq<Process>)
    requires IsMap(processes) && WalkOk(processes, root, seen, found) && Closed(processes, seen)
    ensures forall p :: p in found <==> p in processes && p.id != root && Reaches(processes, root, p.id)
  {
    forall p | p in processes && p.id != root && Reaches(processes, root, p.id)
      ensures p in found
    {
      var chain :| IsChain(processes, chain) && chain[0] == root && chain[|chain| - 1] == p.id;
      ClosedHoldsChain(processes, seen, chain);
      var k :| 0 <= k < |found| && found[k].id == p.id;
      assert found[k] in processes;
    }
    forall p | p in found
      ensures p.id != root && Reaches(processes, root, p.id)
    {
      assert p.id in Ids(found);
    }
  }
}
