/** The cross-domain journey graph (setc/ecology/journey.py). */
module Journey {
  import opened Grouping
  import opened Wrappers
  import opened Text

  datatype JourneyStage =
    | AuthorityEvidence | ResearchCreation | IpRights | Commercialization | VentureEnterprise
    | MarketOpportunity | CapitalReadiness | Capital | Transaction | SettlementReference
    | Impact | RegenerativeAllocation | Reinvestment

  datatype Evidence = Evidence(authority: string, reference: string)

  datatype Reference = Reference(
    domain: string,
    objectType: string,
    objectId: string,
    sourceAuthority: string,
    posture: string,
    organizationId: Option<string>,
    evidence: Option<Evidence>)

  datatype JourneyState = JourneyState(dimension: string, state: string, source: Reference)

  datatype JourneyNode = JourneyNode(stage: JourneyStage, reference: Reference, states: seq<JourneyState>)

  datatype JourneyEdge = JourneyEdge(
    source: JourneyNode, target: JourneyNode, relationship: string, evidenceReference: Option<string>)
  {
    /** What every edge the constructor lets through looks like. */
    predicate Valid() {
      && source != target
      && relationship != "" && Trimmed(relationship)
      && (evidenceReference.Some? ==> evidenceReference.value != "" && Trimmed(evidenceReference.value))
    }
  }

  datatype JourneyError =
    | RelationshipRequired | SelfReference | BlankEvidence
    | JourneyIdRequired | NodeExists | NodeMissing | EdgeExists

  /** The edge constructor: checks in order, and trims both texts. */
  function MakeEdge(source: JourneyNode, target: JourneyNode, relationship: string, evidence: Option<string>)
    : (r: Result<JourneyEdge, JourneyError>)
    ensures r.Success? ==> r.value.Valid() && r.value.source == source && r.value.target == target
    ensures r.Success? ==> r.value.relationship == Strip(relationship)
    ensures r.Success? ==> r.value.evidenceReference == if evidence.None? then None else Some(Strip(evidence.value))
    ensures r == Failure(RelationshipRequired) <==> Blank(relationship)
    ensures r == Failure(SelfReference) <==> !Blank(relationship) && source == target
    ensures r == Failure(BlankEvidence)
            <==> !Blank(relationship) && source != target && evidence.Some? && Blank(evidence.value)
    ensures r.Success? <==>
            !Blank(relationship) && source != target && (evidence.Some? ==> !Blank(evidence.value))
  {
    var trimmed := Strip(relationship);
    StripIsTrimmed(relationship);
    if trimmed == "" then Failure(RelationshipRequired)
    else if source == target then Failure(SelfReference)
    else if evidence.None? then Success(JourneyEdge(source, target, trimmed, None))
    else
      StripIsTrimmed(evidence.value);
      if Strip(evidence.value) == "" then Failure(BlankEvidence)
      else Success(JourneyEdge(source, target, trimmed, Some(Strip(evidence.value))))
  }

  /** The graph held by a journey. */
  datatype Graph = Graph(nodes: seq<JourneyNode>, edges: seq<JourneyEdge>)

  /** Duplicate-free nodes and edges, registered endpoints, no self-loops. */
  ghost predicate WellFormed(g: Graph) {
    && Distinct(g.nodes)
    && Distinct(g.edges)
    && forall e :: e in g.edges ==> e.Valid() && e.source in g.nodes && e.target in g.nodes
  }

  // ----- operations as functions of the graph -----

  function WithNode(g: Graph, node: JourneyNode): (Graph, Option<JourneyError>) {
    if node in g.nodes then (g, Some(NodeExists)) else (g.(nodes := g.nodes + [node]), None)
  }

  function WithEdge(g: Graph, edge: JourneyEdge): (Graph, Option<JourneyError>) {
    if edge.source !in g.nodes || edge.target !in g.nodes then (g, Some(NodeMissing))
    else if edge in g.edges then (g, Some(EdgeExists))
    else (g.(edges := g.edges + [edge]), None)
  }

  /** How many of the new nodes come before the first one already in the journey or repeated. */
  function FreshCount(nodes: seq<JourneyNode>, added: seq<JourneyNode>): (n: nat)
    ensures n <= |added|
    decreases |added|
  {
    if added == [] || added[0] in nodes then 0 else 1 + FreshCount(nodes + [added[0]], added[1..])
  }

  function WithNodes(g: Graph, added: seq<JourneyNode>): (Graph, Option<JourneyError>) {
    var n := FreshCount(g.nodes, added);
    (g.(nodes := g.nodes + added[..n]), if n < |added| then Some(NodeExists) else None)
  }

  /**
   `FreshCount` is the length of the longest part of the new nodes that repeats nothing: all
   nodes in it are new and different, and the next one, if any, is not.
   */
  lemma {:induction false} FreshCountIs(nodes: seq<JourneyNode>, added: seq<JourneyNode>)
    requires Distinct(nodes)
    ensures var n := FreshCount(nodes, added);
            && Distinct(nodes + added[..n])
            && (n < |added| ==> added[n] in nodes + added[..n])
    decreases |added|
  {
    if added != [] && added[0] !in nodes {
      FreshCountIs(nodes + [added[0]], added[1..]);
      var n := FreshCount(nodes, added);
      assert nodes + added[..n] == nodes + [added[0]] + added[1..][..n - 1];
    } else {
      assert nodes + added[..0] == nodes;
    }
  }

  class EcologyJourney {
    var journeyId: string
    var nodes: seq<JourneyNode>
    var edges: seq<JourneyEdge>

    ghost function View(): Graph
      reads this
    {
      Graph(nodes, edges)
    }

    ghost predicate Valid()
      reads this
    {
      journeyId != "" && Trimmed(journeyId) && WellFormed(View())
    }

    constructor (id: string)
      requires !Blank(id)
      ensures Valid() && journeyId == Strip(id) && View() == Graph([], [])
    {
      journeyId := Strip(id);
      nodes, edges := [], [];
      StripIsTrimmed(id);
    }

    static method Create(id: string) returns (r: Result<EcologyJourney, JourneyError>)
      ensures r == Failure(JourneyIdRequired) <==> Blank(id)
      ensures r.Failure? ==> Blank(id)
      ensures r.Success? ==> fresh(r.value) && r.value.Valid() && r.value.journeyId == Strip(id)
                             && r.value.View() == Graph([], [])
    {
      if Blank(id) {
        return Failure(JourneyIdRequired);
      }
      var journey := new EcologyJourney(id);
      return Success(journey);
    }

    method AddNode(node: JourneyNode) returns (error: Option<JourneyError>)
      requires Valid()
      modifies this`nodes
      ensures Valid() && (View(), error) == WithNode(old(View()), node)
    {
      if node in nodes {
        return Some(NodeExists);
      }
      nodes := nodes + [node];
      return None;
    }

    method Link(edge: JourneyEdge) returns (error: Option<JourneyError>)
      requires Valid() && edge.Valid()
      modifies this`edges
      ensures Valid() && (View(), error) == WithEdge(old(View()), edge)
    {
      if edge.source !in nodes || edge.target !in nodes {
        return Some(NodeMissing);
      }
      if edge in edges {
        return Some(EdgeExists);
      }
      edges := edges + [edge];
      return None;
    }

    /** Adds the nodes one by one and stops at the first failure, keeping what was added. */
    method Extend(added: seq<JourneyNode>) returns (error: Option<JourneyError>)
      requires Valid()
      modifies this`nodes
      ensures Valid() && (View(), error) == WithNodes(old(View()), added)
    {
      ghost var before := nodes;
      for i := 0 to |added|
        invariant Valid() && edges == old(edges) && nodes == before + added[..i]
        invariant FreshCount(before, added) == i + FreshCount(nodes, added[i..])
      {
        assert added[i..][1..] == added[i + 1..];
        error := AddNode(added[i]);
        if error.Some? {
          return;
        }
        assert before + added[..i] + [added[i]] == before + added[..i + 1];
      }
      assert added[..|added|] == added;
      return None;
    }
  }

  // ----- runs of operations -----

  datatype Operation = AddNodeOp(node: JourneyNode) | LinkOp(edge: JourneyEdge) | ExtendOp(added: seq<JourneyNode>) {
    predicate Valid() {
      LinkOp? ==> edge.Valid()
    }
  }

  function Apply(g: Graph, op: Operation): Graph {
    match op
    case AddNodeOp(node) => WithNode(g, node).0
    case LinkOp(edge) => WithEdge(g, edge).0
    case ExtendOp(added) => WithNodes(g, added).0
  }

  function Run(g: Graph, ops: seq<Operation>): Graph {
    if ops == [] then g else Apply(Run(g, ops[..|ops| - 1]), ops[|ops| - 1])
  }

  /** What is in the graph after an operation: what was in it before and what the operation could add. */
  lemma ApplyAdds(g: Graph, op: Operation, n: JourneyNode, e: JourneyEdge)
    requires WellFormed(g)
    ensures n in Apply(g, op).nodes
            <==> || n in g.nodes || op == AddNodeOp(n)
                 || (op.ExtendOp? && exists i :: 0 <= i < |op.added| && op.added[i] == n && Fresh(g, op.added, i))
    ensures e in Apply(g, op).edges
            <==> e in g.edges || (op == LinkOp(e) && e.source in g.nodes && e.target in g.nodes)
  {
    if op.ExtendOp? {
      ExtendAdds(g, op.added, n);
    }
  }

  /** The first `i` + 1 of the new nodes repeat nothing. */
  ghost predicate Fresh(g: Graph, added: seq<JourneyNode>, i: nat)
    requires i < |added|
  {
    Distinct(g.nodes + added[..i + 1])
  }

  lemma ExtendAdds(g: Graph, added: seq<JourneyNode>, n: JourneyNode)
    requires WellFormed(g)
    ensures n in WithNodes(g, added).0.nodes
            <==> n in g.nodes || exists i :: 0 <= i < |added| && added[i] == n && Fresh(g, added, i)
  {
    var k := FreshCount(g.nodes, added);
    FreshCountIs(g.nodes, added);
    forall i | 0 <= i < |added| ensures Fresh(g, added, i) <==> i < k {
      FreshIff(g.nodes, added, i);
    }
    if n in added[..k] {
      var i :| 0 <= i < k && added[..k][i] == n;
      assert added[i] == n && Fresh(g, added, i);
    }
    if i :| 0 <= i < |added| && added[i] == n && Fresh(g, added, i) {
      assert added[..k][i] == n;
    }
  }

  lemma PrefixDistinct<T>(s: seq<T>, n: nat)
    requires Distinct(s) && n <= |s|
    ensures Distinct(s[..n])
  {
  }

  lemma NotDistinct<T>(s: seq<T>, j: nat, k: nat)
    requires j < k < |s| && s[j] == s[k]
    ensures !Distinct(s)
  {
  }

  lemma FreshIff(nodes: seq<JourneyNode>, added: seq<JourneyNode>, i: nat)
    requires Distinct(nodes) && i < |added|
    ensures Distinct(nodes + added[..i + 1]) <==> i < FreshCount(nodes, added)
  {
    var k := FreshCount(nodes, added);
    FreshCountIs(nodes, added);
    if i < k {
      assert nodes + added[..i + 1] == (nodes + added[..k])[..|nodes| + i + 1];
      PrefixDistinct(nodes + added[..k], |nodes| + i + 1);
    } else {
      RepeatedNode(nodes, added, k, i);
    }
  }

  lemma RepeatedNode(nodes: seq<JourneyNode>, added: seq<JourneyNode>, k: nat, i: nat)
    requires k <= i < |added| && added[k] in nodes + added[..k]
    ensures !Distinct(nodes + added[..i + 1])
  {
    var start, all := nodes + added[..k], nodes + added[..i + 1];
    var j :| 0 <= j < |start| && start[j] == added[k];
    assert all[j] == start[j] && all[|start|] == added[k];
    NotDistinct(all, j, |start|);
  }

  lemma ApplyKeepsWellFormed(g: Graph, op: Operation)
    requires WellFormed(g) && op.Valid()
    ensures WellFormed(Apply(g, op))
    ensures g.nodes <= Apply(g, op).nodes && g.edges <= Apply(g, op).edges
  {
    match op
    case AddNodeOp(node) =>
    case LinkOp(edge) =>
    case ExtendOp(added) =>
      FreshCountIs(g.nodes, added);
      assert forall n :: n in g.nodes ==> n in g.nodes + added[..FreshCount(g.nodes, added)];
  }

  /**
   Whatever is called on an empty journey, and however many of the calls fail, the graph
   stays well-formed, and nothing once added is ever lost or moved.
   */
  lemma {:induction false} RunsStayWellFormed(ops: seq<Operation>, n: nat)
    requires forall i :: 0 <= i < |ops| ==> ops[i].Valid()
    requires n <= |ops|
    ensures WellFormed(Run(Graph([], []), ops))
    ensures var earlier := Run(Graph([], []), ops[..n]);
            earlier.nodes <= Run(Graph([], []), ops).nodes && earlier.edges <= Run(Graph([], []), ops).edges
    decreases |ops|
  {
    var last := |ops| - 1;
    if n == |ops| {
      assert ops[..n] == ops;
    }
    if ops != [] {
      RunsStayWellFormed(ops[..last], if n <= last then n else last);
      ApplyKeepsWellFormed(Run(Graph([], []), ops[..last]), ops[last]);
      if n <= last {
        assert ops[..last][..n] == ops[..n];
      }
    }
  }
}
