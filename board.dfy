/** The puzzle board of src/board.hpp and src/board.cpp: the point/connection
    graph, the chips standing on its nodes, the level loader and the
    drag-and-drop state machine driven by the mouse and the frame clock.
    Rendering (lines, honeycombs, textures, sprites) is not modelled; the
    sprite hit test of `mouseDown` is a parameter. */
module Boards {
  import opened Wrappers
  import opened Pieces
  import opened LevelText
  import opened Routes
  import opened Level
  import opened Baking

  /** Within this squared distance of a chip's node a press picks the chip
      (`distance(mousePos, chipPos) < radius` with a radius of 24). */
  const PickRadiusSquared: real := 576.0

  /** The squared Euclidean distance; it orders points as `std::hypot` and
      `distance` do. */
  function SqDist(a: Vec, b: Vec): (d: real)
    ensures d >= 0.0
    ensures a == b ==> d == 0.0
  {
    (a.x - b.x) * (a.x - b.x) + (a.y - b.y) * (a.y - b.y)
  }

  /** Whether a press at `pos` picks a chip drawn at `at`: close enough to its
      centre, or inside its sprite (`inSprite`, which depends on the texture
      size). */
  function Hits(at: Vec, pos: Vec, inSprite: (Vec, Vec) -> bool): (r: bool)
    ensures SqDist(pos, at) < PickRadiusSquared ==> r
    ensures !inSprite(at, pos) && SqDist(pos, at) >= PickRadiusSquared ==> !r
  {
    SqDist(pos, at) < PickRadiusSquared || inSprite(at, pos)
  }

  /** The chip that `getChipByUid(uid)` finds from index `i` on: the first
      whose uid matches, if any. */
  function ChipIndex(chips: seq<Chip>, uid: int, i: nat): (r: Option<nat>)
    requires i <= |chips|
    ensures r.Some? ==> i <= r.value < |chips| && chips[r.value].uid == uid
    ensures r.Some? ==> forall j :: i <= j < r.value ==> chips[j].uid != uid
    ensures r.None? ==> forall j :: i <= j < |chips| ==> chips[j].uid != uid
    decreases |chips| - i
  {
    if i == |chips| then None
    else if chips[i].uid == uid then Some(i)
    else ChipIndex(chips, uid, i + 1)
  }

  /** The chip that a press at `pos` picks, from index `i` on: the first that
      stands on a node and is hit. */
  function FirstHit(chips: seq<Chip>, node: map<int, Node>, pos: Vec, inSprite: (Vec, Vec) -> bool, i: nat)
    : (r: Option<nat>)
    requires i <= |chips|
    ensures r.Some? ==> i <= r.value < |chips| && chips[r.value].position in node &&
                        Hits(node[chips[r.value].position].Position(), pos, inSprite)
    ensures r.Some? ==> forall j :: i <= j < r.value && chips[j].position in node ==>
                          !Hits(node[chips[j].position].Position(), pos, inSprite)
    ensures r.None? ==> forall j :: i <= j < |chips| && chips[j].position in node ==>
                          !Hits(node[chips[j].position].Position(), pos, inSprite)
    decreases |chips| - i
  {
    if i == |chips| then None
    else if chips[i].position in node && Hits(node[chips[i].position].Position(), pos, inSprite) then Some(i)
    else FirstHit(chips, node, pos, inSprite, i + 1)
  }

  /** Node `t` is one of the nodes nearest to `mp`. */
  ghost predicate Nearest(node: map<int, Node>, mp: Vec, t: int) {
    t in node && forall k :: k in node ==> SqDist(mp, node[t].Position()) <= SqDist(mp, node[k].Position())
  }

  /** The positions of the nodes along `path`, in order. */
  function Route(node: map<int, Node>, path: seq<int>): (r: seq<Vec>)
    requires forall i :: 0 <= i < |path| ==> path[i] in node
    ensures |r| == |path| && forall i :: 0 <= i < |path| ==> r[i] == node[path[i]].Position()
  {
    if path == [] then [] else [node[path[0]].Position()] + Route(node, path[1..])
  }

  /** A count line read with `nextLine` and `std::stoi`; 0 when the text has
      run out. */
  method ReadCount(lines: seq<string>, c: nat, ghost ls: seq<string>, ghost k: nat)
    returns (r: Result<int, Fault>, next: nat, ghost k': nat)
    requires At(lines, c, ls, k)
    ensures r == Count(ls, k)
    ensures k' == if k < |ls| then k + 1 else k
    ensures At(lines, next, ls, k')
  {
    var found, line;
    found, line, next, k' := NextLine(lines, c, ls, k);
    if found {
      r := Num(line);
    } else {
      r := Success(0);
    }
  }

  /** The target loop over the tokens of the target line: the node ids, in
      order, after those in `targets`. */
  method ReadTargetLine(tokens: seq<string>, targets: seq<int>) returns (r: Result<seq<int>, Fault>)
    ensures r == ReadTargets(tokens, targets)
    ensures r.Success? <==> forall t :: t in NonEmpty(tokens) ==> StoI(t).Some?
  {
    var read := targets;
    var j := 0;
    while j < |tokens|
      invariant j <= |tokens|
      invariant ReadTargets(tokens[j..], read) == ReadTargets(tokens, targets)
    {
      assert tokens[j..][1..] == tokens[j + 1..];
      if tokens[j] != [] {
        var targetPoint := Num(tokens[j]);
        if targetPoint.Failure? {
          TargetsAccepted(tokens, targets);
          return Failure(targetPoint.error);
        }
        read := read + [targetPoint.value];
      }
      j := j + 1;
    }
    assert tokens[j..] == [];
    TargetsAccepted(tokens, targets);
    r := Success(read);
  }

  /** A level text as `loadLevel` hands it to `loadFromStream`: its lines,
      of which `nextLine` reads the non-empty ones. */
  ghost function LoadText(text: string, before: Store, wsize: Vec): Result<Store, Fault> {
    Load(NonEmpty(Split(text, '\n')), before, wsize)
  }

  /** A route `findPath` returns on a graph whose edges join nodes runs
      through nodes only, and ends at the goal. */
  lemma RouteOnNodes(s: Store, mover: int, a: int, b: int, p: seq<int>)
    requires forall u, v :: IsEdge(s.adjacency, u, v) ==> u in s.node && v in s.node
    requires PathSpec(s.adjacency, s.chips, mover, a, b, p) && p != []
    ensures forall i :: 0 <= i < |p| ==> p[i] in s.node
    ensures |p| >= 2 && p[0] == a && p[|p| - 1] == b
  {
    forall i | 0 <= i < |p| ensures p[i] in s.node {
      if i + 1 < |p| {
        assert Step(s.adjacency, s.chips, mover, p[i], p[i + 1]);
      } else {
        assert Step(s.adjacency, s.chips, mover, p[i - 1], p[i]);
      }
    }
  }

  /** Moving one chip to a node keeps every chip on a node. */
  lemma MoveKeepsPlaced(chips: seq<Chip>, node: map<int, Node>, j: nat, to: int)
    requires ChipsPlaced(chips, node) && j < |chips| && to in node
    ensures ChipsPlaced(chips[j := chips[j].(position := to)], node)
  {
  }

  /** The board. `Valid` is what every public operation keeps: a consistent
      graph, the baked connections of that graph, a drag that starts from a
      node and an animation whose progress has not passed 1. */
  class Board {
    const wsize: Vec
    var node: map<int, Node>
    var adjacency: Adjacency
    var chips: seq<Chip>
    var targetPositions: seq<int>
    var bakedConnections: seq<(int, int)>
    var drag: DragState

    /** The contents a level load reads and writes. */
    function Contents(): Store
      reads this
    {
      Store(node, adjacency, chips, targetPositions)
    }

    ghost predicate Valid()
      reads this
    {
      Consistent(Contents()) && Baked(adjacency, bakedConnections) &&
      (drag.active ==> drag.origin in node) &&
      (drag.animating ==> drag.phase <= 1.0)
    }

    /** A board for a window of size `wsize`, with nothing on it. */
    constructor(wsize: Vec)
      ensures this.wsize == wsize
      ensures Contents() == Store(map[], map[], [], []) && bakedConnections == [] && drag == Idle
      ensures Valid()
    {
      this.wsize := wsize;
      node, adjacency, chips, targetPositions := map[], map[], [], [];
      bakedConnections := [];
      drag := Idle;
    }

    /** `isDragging()`: a chip is held. */
    function IsDragging(): (r: bool)
      reads this
      ensures r <==> drag.active
    {
      drag.active
    }

    /** `getChipByUid(uid)`: the index of the first chip with that uid
        (the address the source returns), or None for `nullptr`. */
    method GetChipByUid(uid: int) returns (index: Option<nat>)
      ensures index == ChipIndex(chips, uid, 0)
      ensures index.Some? ==> index.value < |chips| && chips[index.value].uid == uid
      ensures index.None? ==> forall j :: 0 <= j < |chips| ==> chips[j].uid != uid
    {
      var i := 0;
      while i < |chips|
        invariant i <= |chips|
        invariant ChipIndex(chips, uid, i) == ChipIndex(chips, uid, 0)
      {
        if chips[i].uid == uid {
          return Some(i);
        }
        i := i + 1;
      }
      return None;
    }

    /** `addPoint(uid, x, y)`: node `uid` is (re)written at (`x`, `y`). */
    method AddPoint(uid: int, x: int, y: int)
      modifies this`node
      ensures node == old(node)[uid := Point(uid, x, y)]
    {
      node := node[uid := Point(uid, x, y)];
    }

    /** `addConnection(from, to)`: each end is listed under the other. */
    method AddConnection(from: int, to: int)
      modifies this`adjacency
      ensures adjacency == Connect(old(adjacency), from, to)
    {
      adjacency := adjacency[from := Neighbours(adjacency, from) + [to]];
      adjacency := adjacency[to := Neighbours(adjacency, to) + [from]];
    }

    /** `placeChip(chipId, pointId)`: a chip on node `pointId`, which
        `node.at` requires to exist. */
    method PlaceChip(chipId: int, pointId: int) returns (err: Option<Fault>)
      modifies this`chips
      ensures pointId in node ==> err == None && chips == old(chips) + [Chip(chipId, pointId)]
      ensures pointId !in node ==> err == Some(UnknownNode) && chips == old(chips)
    {
      if pointId !in node {
        return Some(UnknownNode);
      }
      chips := chips + [Chip(chipId, pointId)];
      return None;
    }

    /** `clear()`: an empty board with no drag. */
    method Clear()
      modifies this
      ensures Contents() == Store(map[], map[], [], []) && bakedConnections == [] && drag == Idle
      ensures Valid()
    {
      chips, node, adjacency, targetPositions := [], map[], map[], [];
      bakedConnections := [];
      drag := Idle;
    }

    /** `update(delta)`: an animation advances by `delta` and ends, resetting
        the whole drag record, once its progress passes 1; without an
        animation nothing happens. */
    method Update(delta: real)
      modifies this`drag
      requires Valid()
      ensures Valid()
      ensures !old(drag).animating ==> drag == old(drag)
      ensures old(drag).animating && old(drag).phase + delta > 1.0 ==> drag == Idle
      ensures old(drag).animating && old(drag).phase + delta <= 1.0 ==>
                drag == old(drag).(phase := old(drag).phase + delta)
    {
      if drag.animating {
        drag := drag.(phase := drag.phase + delta);
        if drag.phase > 1.0 {
          drag := Idle;
        }
      }
    }

    /** The node nearest to `mp` over the `node` map, first in iteration
        order among equals (the strict `<` of `mouseMove`); NoId when there
        are no nodes. The running minimum starts absent, standing for
        `std::numeric_limits<float>::max()`. */
    method Closest(mp: Vec) returns (target: int)
      requires NodesNamed(node)
      ensures node == map[] <==> target == NoId
      ensures node != map[] ==> Nearest(node, mp, target)
    {
      target := NoId;
      var minDist: Option<real> := None;
      var rest := node.Keys;
      while rest != {}
        invariant rest <= node.Keys
        invariant minDist.None? <==> rest == node.Keys
        invariant minDist.None? ==> target == NoId
        invariant minDist.Some? ==> target in node && minDist.value == SqDist(mp, node[target].Position())
        invariant minDist.Some? ==> forall k :: k in node && k !in rest ==> minDist.value <= SqDist(mp, node[k].Position())
        decreases |rest|
      {
        assert (forall y :: y !in rest) ==> rest == {};
        var id :| id in rest;
        var dist := SqDist(mp, node[id].Position());
        if minDist.None? || dist < minDist.value {
          minDist := Some(dist);
          target := id;
        }
        rest := rest - {id};
      }
      if node != map[] {
        assert target in node;
      }
    }

    /** `mouseMove(mp)`: while a chip is held, the cursor is recorded, the
        hovered node becomes a nearest node and the previewed path the route
        `findPath` gives from the drag's origin to it. */
    method MouseMove(mp: Vec)
      modifies this`drag
      requires NodesNamed(node)
      ensures old(Valid()) ==> Valid()
      ensures !old(drag).active ==> drag == old(drag)
      ensures old(drag).active ==> drag == old(drag).(mousePosition := mp, target := drag.target, path := drag.path)
      ensures old(drag).active ==> (drag.target == NoId <==> node == map[])
      ensures old(drag).active && drag.target != NoId ==>
                Nearest(node, mp, drag.target) &&
                PathSpec(adjacency, chips, drag.uid, drag.origin, drag.target, drag.path)
      ensures old(drag).active && drag.target == NoId ==> drag.path == []
    {
      if !drag.active {
        return;
      }
      var target := Closest(mp);
      drag := drag.(mousePosition := mp, target := target);
      if drag.target != NoId {
        var path := FindPath(adjacency, chips, drag.uid, drag.origin, drag.target);
        drag := drag.(path := path);
      } else {
        drag := drag.(path := []);
      }
    }

    /** `mouseUp()`: a held chip is let go. The route `findPath` gives from
        the origin to the hovered node decides: along a route the chip moves
        to that node and the animation follows the route's node positions;
        without one the chip goes back to its origin and nothing is hovered.
        Either way the animation starts from 0 and `snapback` is the chip's
        final node. No other chip moves. */
    method MouseUp() returns (ghost path: seq<int>)
      modifies this`drag, this`chips
      requires Valid()
      ensures Valid()
      ensures !old(drag).active ==> drag == old(drag) && chips == old(chips)
      ensures old(drag).active ==> PathSpec(adjacency, old(chips), old(drag).uid, old(drag).origin, old(drag).target, path)
      ensures old(drag).active && ChipIndex(old(chips), old(drag).uid, 0).None? ==>
                chips == old(chips) && drag == old(drag).(active := false, phase := 0.0)
      ensures old(drag).active && ChipIndex(old(chips), old(drag).uid, 0).Some? ==>
                var j := ChipIndex(old(chips), old(drag).uid, 0).value;
                var d := old(drag);
                if path != [] then
                  (forall i :: 0 <= i < |path| ==> path[i] in node) && d.target in node &&
                  chips == old(chips)[j := old(chips)[j].(position := d.target)] &&
                  drag == d.(active := false, animating := true, phase := 0.0, route := Route(node, path),
                             snapback := node[d.target].Position())
                else
                  chips == old(chips)[j := old(chips)[j].(position := d.origin)] &&
                  drag == d.(active := false, animating := true, phase := 0.0, target := NoId,
                             snapback := node[d.origin].Position())
    {
      path := [];
      if !drag.active {
        return;
      }
      var d := drag;
      var found := FindPath(adjacency, chips, drag.uid, drag.origin, drag.target);
      path := found;
      drag := drag.(phase := 0.0, active := false);
      var index := GetChipByUid(drag.uid);
      if index.None? {
        return;
      }
      var j := index.value;
      if found != [] {
        RouteOnNodes(Contents(), d.uid, d.origin, d.target, found);
        var route := NodePositions(found);
        MoveKeepsPlaced(chips, node, j, d.target);
        chips := chips[j := chips[j].(position := d.target)];
        drag := d.(active := false, animating := true, phase := 0.0, route := route,
                   snapback := node[d.target].Position());
      } else {
        MoveKeepsPlaced(chips, node, j, d.origin);
        chips := chips[j := chips[j].(position := d.origin)];
        drag := d.(active := false, animating := true, phase := 0.0, target := NoId,
                   snapback := node[d.origin].Position());
      }
    }

    /** The positions of the nodes along a path, collected one by one as
        `mouseUp` does (`node.at` finds each). */
    method NodePositions(path: seq<int>) returns (route: seq<Vec>)
      requires forall i :: 0 <= i < |path| ==> path[i] in node
      ensures route == Route(node, path)
      ensures |route| == |path| && forall i :: 0 <= i < |path| ==> route[i] == node[path[i]].Position()
    {
      route := [];
      var i := 0;
      while i < |path|
        invariant i <= |path|
        invariant |route| == i && forall m :: 0 <= m < i ==> route[m] == node[path[m]].Position()
      {
        route := route + [node[path[i]].Position()];
        i := i + 1;
      }
    }

    /** The chip part of `mouseDown(pos)`: the drag is dropped, then the first
        chip on a node that the press hits is picked up, its node becoming
        the origin; when none is hit the held uid becomes NoId. An animation
        in progress is left running. */
    method PickChip(pos: Vec, inSprite: (Vec, Vec) -> bool)
      modifies this`drag
      requires Valid()
      ensures Valid()
      ensures FirstHit(chips, node, pos, inSprite, 0).Some? ==>
                var c := chips[FirstHit(chips, node, pos, inSprite, 0).value];
                drag == old(drag).(active := true, uid := c.uid, origin := c.position, mousePosition := pos,
                                   offset := pos.Minus(node[c.position].Position()))
      ensures FirstHit(chips, node, pos, inSprite, 0).None? ==> drag == old(drag).(active := false, uid := NoId)
    {
      drag := drag.(active := false);
      var i := 0;
      while i < |chips|
        invariant i <= |chips|
        invariant FirstHit(chips, node, pos, inSprite, i) == FirstHit(chips, node, pos, inSprite, 0)
        invariant drag == old(drag).(active := false)
      {
        var chip := chips[i];
        if chip.position in node {
          var chipPos := node[chip.position].Position();
          if Hits(chipPos, pos, inSprite) {
            drag := drag.(active := true, uid := chip.uid, origin := chip.position, mousePosition := pos,
                          offset := pos.Minus(chipPos));
            return;
          }
        }
        i := i + 1;
      }
      drag := drag.(uid := NoId);
    }

    /** `mouseDown(pos)`: a press on a level button (`clicked`, the text of
        that button's level) loads the level; any other press goes to the
        chips. */
    method MouseDown(pos: Vec, clicked: Option<string>, inSprite: (Vec, Vec) -> bool) returns (err: Option<Fault>)
      modifies this
      requires Valid()
      ensures clicked.Some? ==>
                var r := LoadText(clicked.value, Store(map[], map[], [], []), wsize);
                (err.None? <==> r.Success?) && (r.Success? ==> Contents() == r.value && drag == Idle && Valid())
      ensures clicked.None? ==>
                err == None && Valid() && Contents() == old(Contents()) && bakedConnections == old(bakedConnections)
      ensures clicked.None? && FirstHit(chips, node, pos, inSprite, 0).Some? ==>
                var c := chips[FirstHit(chips, node, pos, inSprite, 0).value];
                drag == old(drag).(active := true, uid := c.uid, origin := c.position, mousePosition := pos,
                                   offset := pos.Minus(node[c.position].Position()))
      ensures clicked.None? && FirstHit(chips, node, pos, inSprite, 0).None? ==>
                drag == old(drag).(active := false, uid := NoId)
    {
      if clicked.Some? {
        err := LoadLevel(clicked.value);
        return;
      }
      PickChip(pos, inSprite);
      err := None;
    }

    /** `loadLevel(text, false)`: the board is cleared, then the level read
        from `text`. */
    method LoadLevel(text: string) returns (err: Option<Fault>)
      modifies this
      ensures var r := LoadText(text, Store(map[], map[], [], []), wsize);
              (err.None? <==> r.Success?) && (r.Success? ==> Contents() == r.value && drag == Idle && Valid())
    {
      Clear();
      err := LoadFromStream(text);
    }

    /** `loadFromStream`: the sections read in order, then the nodes
        classified and centred and the connections baked. A fault is what
        `std::stoi` or `node.at` throws; the board it leaves is not
        described. */
    method LoadFromStream(text: string) returns (err: Option<Fault>)
      modifies this`node, this`adjacency, this`chips, this`targetPositions, this`bakedConnections
      requires Valid()
      ensures var r := LoadText(text, old(Contents()), wsize);
              (err.None? <==> r.Success?) && (r.Success? ==> Contents() == r.value && drag == old(drag) && Valid())
    {
      var lines := Split(text, '\n');
      ghost var ls := NonEmpty(lines);
      ghost var before := Contents();
      ghost var held := drag;
      assert lines[0..] == lines;
      var c1: nat, c2: nat, c3: nat;
      ghost var k1: nat, k2: nat, k3: nat;
      err, c1, k1 := LoadHead(lines, ls);
      assert drag == held;
      if err.Some? {
        return;
      }
      ghost var head := Contents();
      assert ReadHead(ls, before) == Success((head, k1));
      err, c2, k2 := LoadLists(lines, c1, ls, k1);
      assert drag == held;
      if err.Some? {
        return;
      }
      ghost var lists := Contents();
      assert ReadLists(ls, head, k1) == Success((lists, k2));
      err, c3, k3 := LoadEdges(lines, c2, ls, k2);
      assert drag == held;
      if err.Some? {
        return;
      }
      assert ReadEdges(ls, lists, k2) == Success((Contents(), k3));
      err := SettleNodes();
      assert drag == held;
      if err.None? {
        LoadConsistent(ls, before, wsize);
        assert Load(ls, before, wsize) == Success(Contents());
        assert before.node.Keys <= node.Keys;
      }
    }

    /** The two count lines and the point section. */
    method LoadHead(lines: seq<string>, ghost ls: seq<string>) returns (err: Option<Fault>, c: nat, ghost k: nat)
      modifies this`node
      requires At(lines, 0, ls, 0)
      ensures var r := ReadHead(ls, old(Contents()));
              (err.None? <==> r.Success?) &&
              (r.Success? ==> Contents() == r.value.0 && k == r.value.1 && At(lines, c, ls, k))
    {
      ghost var before := Contents();
      var chipCount, pointCount;
      chipCount, c, k := ReadCount(lines, 0, ls, 0);
      if chipCount.Failure? {
        return Some(chipCount.error), c, k;
      }
      pointCount, c, k := ReadCount(lines, c, ls, k);
      if pointCount.Failure? {
        return Some(pointCount.error), c, k;
      }
      assert ReadHead(ls, before) ==
        var points := ReadPoints(ls, k, pointCount.value, 0, before.node);
        if points.Success? then Success((before.(node := points.value.0), points.value.1)) else Failure(points.error);
      err, c, k := ReadPointSection(lines, c, ls, k, pointCount.value);
      if err.None? {
        assert Contents() == before.(node := node);
      }
    }

    /** The point loop: point line `i` (from 0) becomes node `i + 1`; a line
        without a comma is skipped but uses up its id; the loop ends early
        when the text runs out. */
    method ReadPointSection(lines: seq<string>, c: nat, ghost ls: seq<string>, ghost k: nat, count: int)
      returns (err: Option<Fault>, next: nat, ghost k': nat)
      modifies this`node
      requires At(lines, c, ls, k)
      ensures var r := ReadPoints(ls, k, count, 0, old(node));
              (err.None? <==> r.Success?) &&
              (r.Success? ==> node == r.value.0 && k' == r.value.1 && At(lines, next, ls, k'))
    {
      next, k' := c, k;
      var i: nat := 0;
      while i < count
        invariant At(lines, next, ls, k')
        invariant ReadPoints(ls, k', count, i, node) == ReadPoints(ls, k, count, 0, old(node))
        decreases count - i
      {
        var found, line, after;
        ghost var k2;
        found, line, after, k2 := NextLine(lines, next, ls, k');
        if !found {
          next := after;
          break;
        }
        var point := Pair(line);
        if point.Failure? {
          return Some(point.error), after, k2;
        }
        if point.value.Some? {
          AddPoint(i + 1, point.value.value.0, point.value.value.1);
        }
        next, k' := after, k2;
        i := i + 1;
      }
      err := None;
    }

    /** The placement line (when there is one) and the target line: the
        targets are cleared first and replaced by the line's ids. */
    method LoadLists(lines: seq<string>, c: nat, ghost ls: seq<string>, ghost k: nat)
      returns (err: Option<Fault>, next: nat, ghost k': nat)
      modifies this`chips, this`targetPositions
      requires At(lines, c, ls, k)
      ensures var r := ReadLists(ls, old(Contents()), k);
              (err.None? <==> r.Success?) &&
              (r.Success? ==> Contents() == r.value.0 && k' == r.value.1 && At(lines, next, ls, k'))
    {
      var found, line;
      found, line, next, k' := NextLine(lines, c, ls, k);
      if found {
        err := PlaceChips(Split(line, ','));
        if err.Some? {
          return;
        }
      }
      targetPositions := [];
      found, line, next, k' := NextLine(lines, next, ls, k');
      if found {
        var targets := ReadTargetLine(Split(line, ','), []);
        if targets.Failure? {
          return Some(targets.error), next, k';
        }
        targetPositions := targets.value;
      }
      err := None;
    }

    /** The placement loop: every non-empty token is the node of the next
        chip, numbered from 1. */
    method PlaceChips(tokens: seq<string>) returns (err: Option<Fault>)
      modifies this`chips
      ensures var r := ReadChips(tokens, 0, node, old(chips));
              (err.None? <==> r.Success?) && (r.Success? ==> chips == r.value)
    {
      var chipId := 0;
      var j := 0;
      while j < |tokens|
        invariant j <= |tokens|
        invariant ReadChips(tokens[j..], chipId, node, chips) == ReadChips(tokens, 0, node, old(chips))
      {
        assert tokens[j..][1..] == tokens[j + 1..];
        if tokens[j] != [] {
          var pointId := Num(tokens[j]);
          if pointId.Failure? {
            return Some(pointId.error);
          }
          chipId := chipId + 1;
          err := PlaceChip(chipId, pointId.value);
          if err.Some? {
            return;
          }
        }
        j := j + 1;
      }
      assert tokens[j..] == [];
      err := None;
    }

    /** The connection count line and the connection section. */
    method LoadEdges(lines: seq<string>, c: nat, ghost ls: seq<string>, ghost k: nat)
      returns (err: Option<Fault>, next: nat, ghost k': nat)
      modifies this`adjacency
      requires At(lines, c, ls, k)
      ensures var r := ReadEdges(ls, old(Contents()), k);
              (err.None? <==> r.Success?) &&
              (r.Success? ==> Contents() == r.value.0 && k' == r.value.1 && At(lines, next, ls, k'))
    {
      var connectionCount;
      connectionCount, next, k' := ReadCount(lines, c, ls, k);
      if connectionCount.Failure? {
        return Some(connectionCount.error), next, k';
      }
      err, next, k' := ReadConnectionSection(lines, next, ls, k', connectionCount.value);
    }

    /** The connection loop, shaped like the point loop. */
    method ReadConnectionSection(lines: seq<string>, c: nat, ghost ls: seq<string>, ghost k: nat, count: int)
      returns (err: Option<Fault>, next: nat, ghost k': nat)
      modifies this`adjacency
      requires At(lines, c, ls, k)
      ensures var r := ReadConnections(ls, k, count, 0, old(adjacency));
              (err.None? <==> r.Success?) &&
              (r.Success? ==> adjacency == r.value.0 && k' == r.value.1 && At(lines, next, ls, k'))
    {
      next, k' := c, k;
      var i: nat := 0;
      while i < count
        invariant At(lines, next, ls, k')
        invariant ReadConnections(ls, k', count, i, adjacency) == ReadConnections(ls, k, count, 0, old(adjacency))
        decreases count - i
      {
        var found, line, after;
        ghost var k2;
        found, line, after, k2 := NextLine(lines, next, ls, k');
        if !found {
          next := after;
          break;
        }
        var ends := Pair(line);
        if ends.Failure? {
          return Some(ends.error), after, k2;
        }
        if ends.value.Some? {
          AddConnection(ends.value.value.0, ends.value.value.1);
        }
        next, k' := after, k2;
        i := i + 1;
      }
      err := None;
    }

    /** What follows the reading: classification, centring and `bake`. */
    method SettleNodes() returns (err: Option<Fault>)
      modifies this`node, this`bakedConnections
      ensures var r := Settle(old(Contents()), wsize);
              (err.None? <==> r.Success?) && (r.Success? ==> Contents() == r.value && Baked(adjacency, bakedConnections))
    {
      ClassifyNodes();
      CentreNodes();
      err := Bake();
    }

    /** Every node becomes an `Intersection`, then every target that is a
        node becomes a `Base`. */
    method ClassifyNodes()
      modifies this`node
      ensures node == Classify(old(node), targetPositions)
    {
      ghost var n0 := node;
      var rest := node.Keys;
      while rest != {}
        invariant rest <= n0.Keys && node.Keys == n0.Keys
        invariant forall k :: k in node ==> node[k] == if k in rest then n0[k] else n0[k].(kind := Intersection)
        decreases |rest|
      {
        assert (forall y :: y !in rest) ==> rest == {};
        var id :| id in rest;
        node := node[id := node[id].(kind := Intersection)];
        rest := rest - {id};
      }
      var t := 0;
      while t < |targetPositions|
        invariant t <= |targetPositions| && node.Keys == n0.Keys
        invariant forall k :: k in node ==>
                    node[k] == n0[k].(kind := if k in targetPositions[..t] then Base else Intersection)
      {
        var targetId := targetPositions[t];
        if targetId in node {
          node := node[targetId := node[targetId].(kind := Base)];
        }
        assert targetPositions[..t + 1] == targetPositions[..t] + [targetId];
        t := t + 1;
      }
      assert targetPositions[..t] == targetPositions;
      forall k | k in node ensures node[k] == Classify(n0, targetPositions)[k] {
      }
    }

    /** The extent of the nodes: the least and the greatest coordinate along
        each axis. `started` stands for the running values having left their
        seeds, `std::numeric_limits<float>::max()` and `lowest()`. */
    method Extent() returns (lo: Vec, hi: Vec)
      requires node != map[]
      ensures lo.x in Coords(node, false) && lo.y in Coords(node, true)
      ensures lo == Vec(Least(Coords(node, false)), Least(Coords(node, true)))
      ensures hi == Vec(Greatest(Coords(node, false)), Greatest(Coords(node, true)))
    {
      var rest := node.Keys;
      var started := false;
      lo, hi := Zero, Zero;
      ghost var kx, ky, hx, hy := 0, 0, 0, 0;
      while rest != {}
        invariant rest <= node.Keys
        invariant started <==> rest != node.Keys
        invariant started ==> kx in node && ky in node && hx in node && hy in node
        invariant started ==> lo == Vec(node[kx].x, node[ky].y) && hi == Vec(node[hx].x, node[hy].y)
        invariant forall k :: k in node && k !in rest ==>
                    lo.x <= node[k].x <= hi.x && lo.y <= node[k].y <= hi.y
        decreases |rest|
      {
        assert (forall y :: y !in rest) ==> rest == {};
        var id :| id in rest;
        var pt := node[id];
        if !started {
          lo, hi := pt.Position(), pt.Position();
          kx, ky, hx, hy := id, id, id, id;
          started := true;
        } else {
          if pt.x < lo.x {
            lo, kx := lo.(x := pt.x), id;
          }
          if hi.x < pt.x {
            hi, hx := hi.(x := pt.x), id;
          }
          if pt.y < lo.y {
            lo, ky := lo.(y := pt.y), id;
          }
          if hi.y < pt.y {
            hi, hy := hi.(y := pt.y), id;
          }
        }
        rest := rest - {id};
      }
      LeastCoord(node, false, kx);
      LeastCoord(node, true, ky);
      GreatestCoord(node, false, hx);
      GreatestCoord(node, true, hy);
    }

    /** Every node moves by the offset from the centre of the nodes' bounding
        box to the centre of the window. With no nodes nothing moves. */
    method CentreNodes()
      modifies this`node
      ensures node == Centre(old(node), wsize)
    {
      if node == map[] {
        return;
      }
      var lo, hi := Extent();
      var boardCenter := Vec((lo.x + hi.x) / 2.0, (lo.y + hi.y) / 2.0);
      var windowCenter := Vec(wsize.x / 2.0, wsize.y / 2.0);
      var boardOffset := windowCenter.Minus(boardCenter);
      assert boardCenter == BoxCentre(node);
      ShiftNodes(boardOffset);
    }

    /** The shifting loop of the centring step: every node moved by
        `offset`. */
    method ShiftNodes(offset: Vec)
      modifies this`node
      ensures node == ShiftAll(old(node), offset)
    {
      var rest := node.Keys;
      while rest != {}
        invariant rest <= old(node).Keys && node.Keys == old(node).Keys
        invariant forall k :: k in node ==> node[k] == if k in rest then old(node)[k] else Shift(old(node)[k], offset)
        decreases |rest|
      {
        assert (forall y :: y !in rest) ==> rest == {};
        var id :| id in rest;
        node := node[id := Shift(node[id], offset)];
        rest := rest - {id};
      }
      forall k | k in node ensures node[k] == ShiftAll(old(node), offset)[k] {
      }
    }

    /** The connection part of `bake`: one entry per `minmax` pair of the
        adjacency lists, a pair already baked skipped, and `node.at` on both
        ends of every new pair. */
    method Bake() returns (err: Option<Fault>)
      modifies this`bakedConnections
      ensures err.None? <==> forall u, v :: IsEdge(adjacency, u, v) ==> u in node && v in node
      ensures err.None? ==> Baked(adjacency, bakedConnections)
    {
      bakedConnections := [];
      var bakedPairs: set<(int, int)> := {};
      var rest := adjacency.Keys;
      while rest != {}
        invariant rest <= adjacency.Keys
        invariant bakedPairs == PairsFrom(adjacency, adjacency.Keys - rest)
        invariant Distinct(bakedConnections) && forall p :: p in bakedConnections <==> p in bakedPairs
        invariant forall p :: p in bakedPairs ==> p.0 in node && p.1 in node
        decreases |rest|
      {
        assert (forall y :: y !in rest) ==> rest == {};
        var from :| from in rest;
        var neighbors := adjacency[from];
        var j := 0;
        while j < |neighbors|
          invariant j <= |neighbors|
          invariant bakedPairs == PairsFrom(adjacency, adjacency.Keys - rest) + PairsOf(from, neighbors[..j])
          invariant Distinct(bakedConnections) && forall p :: p in bakedConnections <==> p in bakedPairs
          invariant forall p :: p in bakedPairs ==> p.0 in node && p.1 in node
        {
          var connection := MinMax(from, neighbors[j]);
          PairsOfStep(from, neighbors, j);
          if connection !in bakedPairs {
            bakedPairs := bakedPairs + {connection};
            if connection.0 !in node || connection.1 !in node {
              assert IsEdge(adjacency, from, neighbors[j]);
              return Some(UnknownNode);
            }
            bakedConnections := bakedConnections + [connection];
          }
          j := j + 1;
        }
        assert neighbors[..j] == neighbors;
        PairsFromAdd(adjacency, adjacency.Keys - rest, from);
        assert adjacency.Keys - (rest - {from}) == (adjacency.Keys - rest) + {from};
        rest := rest - {from};
      }
      assert adjacency.Keys - rest == adjacency.Keys;
      forall u, v | IsEdge(adjacency, u, v) ensures u in node && v in node {
        assert MinMax(u, v) in bakedPairs;
      }
      err := None;
    }
  }
}
