/**
 * Scene classification of `initEntities` (Pool/Pool.cpp): each child of the
 * scene root becomes the table surface, an edge box, a ball, or nothing,
 * depending on its name. SceneNode is not part of this model; a node is
 * given by its id, its name, and the center and extents that the program
 * computes from the node's transforms.
 */
module Scene {
  import opened Geometry
  import opened Boxes
  import opened Balls

  datatype SceneNode = SceneNode(nodeId: int, name: string, center: Vec3, extents: Vec3)

  /** What a node becomes; `Throws` is the `substr` with a position past the end of a name shorter than 4. */
  datatype NodeKind = Surface | Edge | BallNode | Ignored | Throws

  predicate EndsWith(s: string, suffix: string) {
    |s| >= |suffix| && s[|s| - |suffix|..] == suffix
  }

  /** The name tests of `initEntities`, in their order. */
  function Classify(name: string): NodeKind {
    if name == "poolsurface" || (|name| >= 8 && name[|name| - 8..] == "FeltEdge") then
      (if name == "poolsurface" then Surface else Edge)
    else if |name| < 4 then Throws
    else if name[|name| - 4..] == "Ball" then BallNode
    else Ignored
  }

  /**
   * Each kind in words: the surface is exactly "poolsurface"; an edge ends
   * in "FeltEdge"; a ball ends in "Ball" and is not an edge; only names
   * shorter than 4 throw.
   */
  lemma ClassifyByName(name: string)
    ensures Classify(name) == Surface <==> name == "poolsurface"
    ensures Classify(name) == Edge <==> name != "poolsurface" && EndsWith(name, "FeltEdge")
    ensures Classify(name) == BallNode <==>
              name != "poolsurface" && !EndsWith(name, "FeltEdge") && EndsWith(name, "Ball")
    ensures Classify(name) == Throws <==> |name| < 4
  {
  }

  /** Everything `initEntities` writes: the surface, the edge and ball vectors, and the node-to-ball index. */
  datatype Entities = Entities(surface: Box, edges: seq<Box>, balls: seq<BallState>, geoToBall: map<int, int>)

  /** A ball as its constructor leaves it: at its center, at rest, no cooldowns. */
  function NewBall(name: string, center: Vec3, radius: real): BallState {
    ResetState(BallState(name, center, radius, center, Zero, Zero, map[]))
  }

  /** One node that does not throw. */
  function AddNode(e: Entities, node: SceneNode): Entities {
    match Classify(node.name)
    case Surface => e.(surface := Box(node.name, node.center, node.extents))
    case Edge => e.(edges := e.edges + [Box(node.name, node.center, node.extents)])
    case BallNode =>
      e.(balls := e.balls + [NewBall(node.name, node.center, 1.0)],
         geoToBall := e.geoToBall[node.nodeId := |e.balls|])
    case _ => e
  }

  /** The loop over the root's children; a throw stops it with the entities added so far and `false`. */
  function LoadNodes(e: Entities, nodes: seq<SceneNode>): (Entities, bool)
    decreases |nodes|
  {
    if nodes == [] then (e, true)
    else if Classify(nodes[0].name) == Throws then (e, false)
    else LoadNodes(AddNode(e, nodes[0]), nodes[1..])
  }

  /** The loading succeeds exactly when no node name is shorter than 4 characters and not a box name. */
  lemma {:induction false} LoadSucceedsIffNoShortName(e: Entities, nodes: seq<SceneNode>)
    ensures LoadNodes(e, nodes).1 <==> forall k :: 0 <= k < |nodes| ==> Classify(nodes[k].name) != Throws
    decreases |nodes|
  {
    if nodes != [] && Classify(nodes[0].name) != Throws {
      LoadSucceedsIffNoShortName(AddNode(e, nodes[0]), nodes[1..]);
      assert forall k :: 1 <= k < |nodes| ==> nodes[k] == nodes[1..][k - 1];
    }
  }

  /** The edge box a single node contributes: one for an edge node, none otherwise. */
  function EdgeOf(node: SceneNode): seq<Box> {
    if Classify(node.name) == Edge then [Box(node.name, node.center, node.extents)] else []
  }

  /** The ball a single node contributes: one radius-1 ball for a ball node, none otherwise. */
  function BallOf(node: SceneNode): seq<BallState> {
    if Classify(node.name) == BallNode then [NewBall(node.name, node.center, 1.0)] else []
  }

  /** The edge boxes of the nodes, in order: the reference for what loading appends to `edges`. */
  function EdgesOf(nodes: seq<SceneNode>): seq<Box>
    decreases |nodes|
  {
    if nodes == [] then [] else EdgeOf(nodes[0]) + EdgesOf(nodes[1..])
  }

  /** The balls of the nodes, in order: the reference for what loading appends to `balls`. */
  function BallsOf(nodes: seq<SceneNode>): seq<BallState>
    decreases |nodes|
  {
    if nodes == [] then [] else BallOf(nodes[0]) + BallsOf(nodes[1..])
  }

  /** Adding one node appends its edge or ball, if any, and nothing else. */
  lemma AddNodeAppends(e: Entities, node: SceneNode)
    requires Classify(node.name) != Throws
    ensures AddNode(e, node).edges == e.edges + EdgeOf(node)
    ensures AddNode(e, node).balls == e.balls + BallOf(node)
  {
  }

  lemma AppendAssociative<T>(a: seq<T>, b: seq<T>, c: seq<T>)
    ensures (a + b) + c == a + (b + c)
  {
  }

  /** A successful load appends exactly the edge boxes of the nodes, in order. */
  lemma {:induction false} LoadAppendsEdges(e: Entities, nodes: seq<SceneNode>)
    requires LoadNodes(e, nodes).1
    ensures LoadNodes(e, nodes).0.edges == e.edges + EdgesOf(nodes)
    decreases |nodes|
  {
    if nodes != [] {
      var e' := AddNode(e, nodes[0]);
      LoadAppendsEdges(e', nodes[1..]);
      AddNodeAppends(e, nodes[0]);
      AppendAssociative(e.edges, EdgeOf(nodes[0]), EdgesOf(nodes[1..]));
    }
  }

  /** A successful load appends exactly the balls of the nodes, in order. */
  lemma {:induction false} LoadAppendsBalls(e: Entities, nodes: seq<SceneNode>)
    requires LoadNodes(e, nodes).1
    ensures LoadNodes(e, nodes).0.balls == e.balls + BallsOf(nodes)
    decreases |nodes|
  {
    if nodes != [] {
      var e' := AddNode(e, nodes[0]);
      LoadAppendsBalls(e', nodes[1..]);
      AddNodeAppends(e, nodes[0]);
      AppendAssociative(e.balls, BallOf(nodes[0]), BallsOf(nodes[1..]));
    }
  }

  /** A successful load appends exactly the edge nodes to the edges and the ball nodes to the balls, in order. */
  lemma LoadAppendsInOrder(e: Entities, nodes: seq<SceneNode>)
    requires LoadNodes(e, nodes).1
    ensures LoadNodes(e, nodes).0.edges == e.edges + EdgesOf(nodes)
    ensures LoadNodes(e, nodes).0.balls == e.balls + BallsOf(nodes)
  {
    LoadAppendsEdges(e, nodes);
    LoadAppendsBalls(e, nodes);
  }

  /** Every entry of the node-to-ball index names a ball that exists. */
  predicate IndexValid(e: Entities) {
    forall id :: id in e.geoToBall ==> 0 <= e.geoToBall[id] < |e.balls|
  }

  /** Adding one node keeps the index valid. */
  lemma AddNodeKeepsIndexValid(e: Entities, node: SceneNode)
    requires IndexValid(e)
    ensures IndexValid(AddNode(e, node))
  {
  }

  /** Loading keeps the index valid and never removes a ball. */
  lemma {:induction false} LoadKeepsIndexValid(e: Entities, nodes: seq<SceneNode>)
    requires IndexValid(e)
    ensures IndexValid(LoadNodes(e, nodes).0)
    ensures |LoadNodes(e, nodes).0.balls| >= |e.balls|
    decreases |nodes|
  {
    if nodes != [] && Classify(nodes[0].name) != Throws {
      LoadKeepsIndexValid(AddNode(e, nodes[0]), nodes[1..]);
    }
  }

  /** A ball node's id is mapped to the index of the ball it just produced, which carries its name. */
  lemma AddBallIndexesIt(e: Entities, node: SceneNode)
    requires Classify(node.name) == BallNode
    ensures var r := AddNode(e, node);
            && node.nodeId in r.geoToBall && r.geoToBall[node.nodeId] == |e.balls|
            && r.balls[|e.balls|].name == node.name && r.balls[|e.balls|].radius == 1.0
  {
  }
}
