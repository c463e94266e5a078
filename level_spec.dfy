/** What `Board::loadFromStream` (src/board.cpp) makes of a level text,
    stated as functions over the non-blank lines of the text. Each section
    reader follows the loop that reads that section; `Load` chains them,
    classifies the nodes, centres the board and applies the check `bake`
    makes on every connection. */
module Level {
  import opened Wrappers
  import opened Pieces
  import opened LevelText
  import opened Routes

  /** The board contents a load reads and writes. */
  datatype Store = Store(node: map<int, Node>, adjacency: Adjacency, chips: seq<Chip>, targets: seq<int>)

  /** `std::stoi`, with its exceptions as a fault. */
  function Num(s: string): (r: Result<int, Fault>)
    ensures r.Success? <==> StoI(s).Some?
    ensures r.Success? ==> r.value == StoI(s).value && InInt(r.value)
    ensures r.Failure? ==> r.error == BadNumber
  {
    match StoI(s)
    case None => Failure(BadNumber)
    case Some(n) => Success(n)
  }

  /** A count line: the number on line `k`, or 0 when the text has run out. */
  function Count(ls: seq<string>, k: nat): Result<int, Fault> {
    if k < |ls| then Num(ls[k]) else Success(0)
  }

  /** `addPoint(uid, x, y)`: a node at (`x`, `y`); a new node is `Base`, the
      value-initialised type. */
  function Point(uid: int, x: int, y: int): Node {
    Node(uid, x as real, y as real, Base)
  }

  /** A line of two numbers separated by a comma (a point or a connection):
      nothing when the line has no comma, otherwise what `std::stoi` reads
      before and after the first comma, and a fault when either is not a
      number. */
  function Pair(line: string): (r: Result<Option<(int, int)>, Fault>)
    ensures Find(line, ',').None? ==> r == Success(None)
    ensures Find(line, ',').Some? ==>
              var c := Find(line, ',').value;
              (r.Success? <==> StoI(line[..c]).Some? && StoI(line[c + 1..]).Some?) &&
              (r.Success? ==> r.value == Some((StoI(line[..c]).value, StoI(line[c + 1..]).value)))
  {
    match Find(line, ',')
    case None => Success(None)
    case Some(c) =>
      var x :- Num(line[..c]);
      var y :- Num(line[c + 1..]);
      Success(Some((x, y)))
  }

  /** The point loop: line `k` is point `i + 1`, for `i` from `i` to
      `count - 1`; a line without a comma adds nothing but still uses its
      id, and the loop stops early when the lines run out. It returns the
      nodes and the first line after the section. */
  function ReadPoints(ls: seq<string>, k: nat, count: int, i: nat, node: map<int, Node>)
    : (r: Result<(map<int, Node>, nat), Fault>)
    requires k <= |ls|
    ensures r.Success? ==> k <= r.value.1 <= |ls|
    ensures r.Success? ==> node.Keys <= r.value.0.Keys
    ensures r.Success? ==> forall u :: u in node && u <= i ==> r.value.0[u] == node[u]
    ensures r.Success? ==> forall u :: u in r.value.0 ==>
              (u in node && r.value.0[u] == node[u]) || (i < u <= count && r.value.0[u].uid == u)
    decreases count - i
  {
    if count <= i || k == |ls| then Success((node, k))
    else
      var p :- Pair(ls[k]);
      match p
      case None => ReadPoints(ls, k + 1, count, i + 1, node)
      case Some((x, y)) => ReadPoints(ls, k + 1, count, i + 1, node[i + 1 := Point(i + 1, x, y)])
  }

  /** One point line read: a fault when its numbers are not numbers,
      otherwise the rest of the section after it. */
  lemma PointStep(ls: seq<string>, k: nat, count: int, i: nat, node: map<int, Node>)
    requires k < |ls| && i < count
    ensures Pair(ls[k]).Failure? ==> ReadPoints(ls, k, count, i, node).Failure?
    ensures Pair(ls[k]).Success? ==>
              var p := Pair(ls[k]).value;
              ReadPoints(ls, k, count, i, node) ==
              ReadPoints(ls, k + 1, count, i + 1, if p.Some? then node[i + 1 := Point(i + 1, p.value.0, p.value.1)] else node)
  {
  }

  /** Point line `j` of the section (counting from 0) holds two numbers
      when it has a comma, and becomes node `j + 1` at those coordinates. */
  lemma {:induction false} PointLine(ls: seq<string>, k: nat, count: int, i: nat, node: map<int, Node>, j: nat)
    requires k <= |ls| && ReadPoints(ls, k, count, i, node).Success?
    requires i <= j < count && k + (j - i) < |ls|
    ensures var p := Pair(ls[k + (j - i)]);
            var m := ReadPoints(ls, k, count, i, node).value.0;
            p.Success? && (p.value.Some? ==> j + 1 in m && m[j + 1] == Point(j + 1, p.value.value.0, p.value.value.1))
    decreases count - i
  {
    PointStep(ls, k, count, i, node);
    var p := Pair(ls[k]).value;
    var next := if p.Some? then node[i + 1 := Point(i + 1, p.value.0, p.value.1)] else node;
    if j > i {
      assert k + 1 + (j - (i + 1)) == k + (j - i);
      assert ReadPoints(ls, k, count, i, node) == ReadPoints(ls, k + 1, count, i + 1, next);
      PointLine(ls, k + 1, count, i + 1, next, j);
    } else {
      assert k + (j - i) == k;
    }
  }

  /** The placement loop over the comma-separated tokens of one line: each
      non-empty token is a node id, `node.at` must find it, and the chip
      placed there gets the next id after `chipId`. */
  function ReadChips(tokens: seq<string>, chipId: int, node: map<int, Node>, chips: seq<Chip>)
    : (r: Result<seq<Chip>, Fault>)
    ensures r.Success? ==> |chips| <= |r.value| <= |chips| + |tokens| && r.value[..|chips|] == chips
    ensures r.Success? ==> forall j :: |chips| <= j < |r.value| ==>
              r.value[j].position in node && chipId < r.value[j].uid <= chipId + |tokens|
  {
    if tokens == [] then Success(chips)
    else if tokens[0] == [] then ReadChips(tokens[1..], chipId, node, chips)
    else
      var position :- Num(tokens[0]);
      if position !in node then Failure(UnknownNode)
      else ReadChips(tokens[1..], chipId + 1, node, chips + [Chip(chipId + 1, position)])
  }

  /** The target loop: every non-empty token is a node id, kept in order. */
  function ReadTargets(tokens: seq<string>, targets: seq<int>): (r: Result<seq<int>, Fault>)
    ensures r.Success? ==> |targets| <= |r.value| <= |targets| + |tokens| && r.value[..|targets|] == targets
  {
    if tokens == [] then Success(targets)
    else if tokens[0] == [] then ReadTargets(tokens[1..], targets)
    else
      var t :- Num(tokens[0]);
      ReadTargets(tokens[1..], targets + [t])
  }

  /** The connection loop: like the point loop, a line without a comma is
      skipped and the loop stops when the lines run out. */
  function ReadConnections(ls: seq<string>, k: nat, count: int, i: nat, adj: Adjacency)
    : (r: Result<(Adjacency, nat), Fault>)
    requires k <= |ls|
    ensures r.Success? ==> k <= r.value.1 <= |ls|
    ensures r.Success? ==> r.value.1 == LinesUsed(|ls|, k, count, i)
    ensures r.Success? ==> forall u, v :: IsEdge(adj, u, v) ==> IsEdge(r.value.0, u, v)
    decreases count - i
  {
    if count <= i || k == |ls| then Success((adj, k))
    else
      var p :- Pair(ls[k]);
      match p
      case None => ReadConnections(ls, k + 1, count, i + 1, adj)
      case Some((from, to)) => ReadConnections(ls, k + 1, count, i + 1, Connect(adj, from, to))
  }

  /** The line after a counted section read from line `k` of `n`, entry `i`
      on: one line per remaining entry, fewer when the lines run out. */
  function LinesUsed(n: nat, k: nat, count: int, i: nat): nat {
    if count <= i then k
    else if k + (count - i) <= n then k + (count - i)
    else if k <= n then n else k
  }

  /** One connection line read: a fault when its numbers are not numbers;
      otherwise the rest of the section after it, where a line without a
      comma adds no edge but still uses up one of the `count` entries. */
  lemma ConnectionStep(ls: seq<string>, k: nat, count: int, i: nat, adj: Adjacency)
    requires k < |ls| && i < count
    ensures Pair(ls[k]).Failure? ==> ReadConnections(ls, k, count, i, adj).Failure?
    ensures Pair(ls[k]) == Success(None) ==>
              ReadConnections(ls, k, count, i, adj) == ReadConnections(ls, k + 1, count, i + 1, adj)
    ensures Pair(ls[k]).Success? && Pair(ls[k]).value.Some? ==>
              var e := Pair(ls[k]).value.value;
              ReadConnections(ls, k, count, i, adj) == ReadConnections(ls, k + 1, count, i + 1, Connect(adj, e.0, e.1))
  {
  }

  /** Connection line `j` of the section (counting from 0) holds two numbers
      when it has a comma, and its two ends are then listed under each
      other in the adjacency the section produces. */
  lemma {:induction false} ConnectionLine(ls: seq<string>, k: nat, count: int, i: nat, adj: Adjacency, j: nat)
    requires k <= |ls| && ReadConnections(ls, k, count, i, adj).Success?
    requires i <= j < count && k + (j - i) < |ls|
    ensures var p := Pair(ls[k + (j - i)]);
            var r := ReadConnections(ls, k, count, i, adj).value.0;
            p.Success? && (p.value.Some? ==> IsEdge(r, p.value.value.0, p.value.value.1) &&
                                             IsEdge(r, p.value.value.1, p.value.value.0))
    decreases count - i
  {
    ConnectionStep(ls, k, count, i, adj);
    var p := Pair(ls[k]);
    assert p.Success?;
    var next := if p.value.Some? then Connect(adj, p.value.value.0, p.value.value.1) else adj;
    var rest := ReadConnections(ls, k + 1, count, i + 1, next);
    assert ReadConnections(ls, k, count, i, adj) == rest;
    if j > i {
      assert k + 1 + (j - (i + 1)) == k + (j - i);
      ConnectionLine(ls, k + 1, count, i + 1, next, j);
    } else {
      assert k + (j - i) == k;
      if p.value.Some? {
        var e := p.value.value;
        assert IsEdge(next, e.0, e.1) && IsEdge(next, e.1, e.0);
        assert IsEdge(rest.value.0, e.0, e.1) && IsEdge(rest.value.0, e.1, e.0);
      }
    }
  }

  /** The placement line succeeds exactly when every non-empty token is a
      number naming a node. */
  lemma {:induction false} ChipsAccepted(tokens: seq<string>, chipId: int, node: map<int, Node>, chips: seq<Chip>)
    ensures ReadChips(tokens, chipId, node, chips).Success? <==>
              forall t :: t in NonEmpty(tokens) ==> StoI(t).Some? && StoI(t).value in node
  {
    if tokens != [] {
      if tokens[0] == [] {
        ChipsAccepted(tokens[1..], chipId, node, chips);
      } else {
        assert NonEmpty(tokens) == [tokens[0]] + NonEmpty(tokens[1..]);
        if StoI(tokens[0]).Some? && StoI(tokens[0]).value in node {
          var more := chips + [Chip(chipId + 1, StoI(tokens[0]).value)];
          assert ReadChips(tokens, chipId, node, chips) == ReadChips(tokens[1..], chipId + 1, node, more);
          ChipsAccepted(tokens[1..], chipId + 1, node, more);
        }
      }
    }
  }

  /** The numbers `std::stoi` reads from tokens that all hold one. */
  function Numbers(ids: seq<string>): (r: seq<int>)
    requires forall t :: t in ids ==> StoI(t).Some?
    ensures |r| == |ids| && forall j :: 0 <= j < |ids| ==> r[j] == StoI(ids[j]).value
  {
    if ids == [] then [] else [StoI(ids[0]).value] + Numbers(ids[1..])
  }

  /** Chips numbered from `chipId + 1` on, one on each node id in `ids`. */
  function Placed(ids: seq<string>, chipId: int): (r: seq<Chip>)
    requires forall t :: t in ids ==> StoI(t).Some?
    ensures |r| == |ids| && forall j :: 0 <= j < |ids| ==> r[j] == Chip(chipId + j + 1, StoI(ids[j]).value)
  {
    if ids == [] then [] else [Chip(chipId + 1, StoI(ids[0]).value)] + Placed(ids[1..], chipId + 1)
  }

  /** One non-empty token naming a node read. */
  lemma ChipStep(tokens: seq<string>, chipId: int, node: map<int, Node>, chips: seq<Chip>)
    requires tokens != [] && tokens[0] != [] && StoI(tokens[0]).Some? && StoI(tokens[0]).value in node
    ensures ReadChips(tokens, chipId, node, chips) ==
            ReadChips(tokens[1..], chipId + 1, node, chips + [Chip(chipId + 1, StoI(tokens[0]).value)])
  {
  }

  /** A placement line whose tokens all name nodes adds, after the chips
      already there, one chip per non-empty token in token order, with the
      ids that follow `chipId`. */
  lemma {:induction false} ChipIds(tokens: seq<string>, chipId: int, node: map<int, Node>, chips: seq<Chip>)
    requires forall t :: t in NonEmpty(tokens) ==> StoI(t).Some? && StoI(t).value in node
    ensures ReadChips(tokens, chipId, node, chips) == Success(chips + Placed(NonEmpty(tokens), chipId))
  {
    if tokens == [] {
      assert chips + Placed(NonEmpty(tokens), chipId) == chips;
    } else if tokens[0] == [] {
      assert NonEmpty(tokens) == NonEmpty(tokens[1..]);
      ChipIds(tokens[1..], chipId, node, chips);
    } else {
      var ids := NonEmpty(tokens);
      var rest := NonEmpty(tokens[1..]);
      assert ids == [tokens[0]] + rest;
      assert ids[1..] == rest;
      assert forall t :: t in rest ==> t in ids;
      var chip := Chip(chipId + 1, StoI(tokens[0]).value);
      ChipStep(tokens, chipId, node, chips);
      ChipIds(tokens[1..], chipId + 1, node, chips + [chip]);
      var later := Placed(rest, chipId + 1);
      assert Placed(ids, chipId) == [chip] + later;
      assert chips + [chip] + later == chips + ([chip] + later);
    }
  }

  /** The target line succeeds exactly when every non-empty token is a
      number. */
  lemma {:induction false} TargetsAccepted(tokens: seq<string>, targets: seq<int>)
    ensures ReadTargets(tokens, targets).Success? <==> forall t :: t in NonEmpty(tokens) ==> StoI(t).Some?
  {
    if tokens != [] {
      if tokens[0] == [] {
        TargetsAccepted(tokens[1..], targets);
      } else {
        assert NonEmpty(tokens) == [tokens[0]] + NonEmpty(tokens[1..]);
        if StoI(tokens[0]).Some? {
          var more := targets + [StoI(tokens[0]).value];
          assert ReadTargets(tokens, targets) == ReadTargets(tokens[1..], more);
          TargetsAccepted(tokens[1..], more);
        }
      }
    }
  }

  /** One non-empty numeric token read. */
  lemma TargetStep(tokens: seq<string>, targets: seq<int>)
    requires tokens != [] && tokens[0] != [] && StoI(tokens[0]).Some?
    ensures ReadTargets(tokens, targets) == ReadTargets(tokens[1..], targets + [StoI(tokens[0]).value])
  {
  }

  /** A target line whose tokens are all numbers yields those numbers, in
      order, after the targets already read. */
  lemma {:induction false} TargetIds(tokens: seq<string>, targets: seq<int>)
    requires forall t :: t in NonEmpty(tokens) ==> StoI(t).Some?
    ensures ReadTargets(tokens, targets) == Success(targets + Numbers(NonEmpty(tokens)))
  {
    if tokens == [] {
      assert targets + Numbers(NonEmpty(tokens)) == targets;
    } else if tokens[0] == [] {
      assert NonEmpty(tokens) == NonEmpty(tokens[1..]);
      TargetIds(tokens[1..], targets);
    } else {
      var ids := NonEmpty(tokens);
      var rest := NonEmpty(tokens[1..]);
      assert ids == [tokens[0]] + rest;
      assert ids[1..] == rest;
      assert forall u :: u in rest ==> u in ids;
      var t := StoI(tokens[0]).value;
      TargetStep(tokens, targets);
      TargetIds(tokens[1..], targets + [t]);
      var later := Numbers(rest);
      assert Numbers(ids) == [t] + later;
      assert targets + [t] + later == targets + ([t] + later);
    }
  }

  /** Every node becomes an `Intersection`, then every node listed as a
      target becomes a `Base`. */
  function Classify(node: map<int, Node>, targets: seq<int>): (r: map<int, Node>)
    ensures r.Keys == node.Keys
    ensures forall k :: k in r ==> (r[k].kind == Base <==> k in targets)
    ensures forall k :: k in r ==> r[k].uid == node[k].uid && r[k].Position() == node[k].Position()
  {
    map k | k in node :: node[k].(kind := if k in targets then Base else Intersection)
  }

  /** The smallest of a finite non-empty set of coordinates. */
  ghost function Least(xs: set<real>): (m: real)
    requires xs != {}
    ensures m in xs && forall x :: x in xs ==> m <= x
  {
    HasLeast(xs);
    var m :| m in xs && forall x :: x in xs ==> m <= x; m
  }

  /** The largest of a finite non-empty set of coordinates. */
  ghost function Greatest(xs: set<real>): (m: real)
    requires xs != {}
    ensures m in xs && forall x :: x in xs ==> x <= m
  {
    HasGreatest(xs);
    var m :| m in xs && forall x :: x in xs ==> x <= m; m
  }

  lemma {:induction false} HasLeast(xs: set<real>)
    requires xs != {}
    ensures exists m :: m in xs && forall x :: x in xs ==> m <= x
    decreases |xs|
  {
    assert (forall x :: x !in xs) ==> xs == {};
    var y :| y in xs;
    var rest := xs - {y};
    if rest == {} {
      forall x | x in xs ensures y <= x {
        assert x !in rest;
      }
    } else {
      HasLeast(rest);
      var m :| m in rest && forall x :: x in rest ==> m <= x;
      var least := if y < m then y else m;
      forall x | x in xs ensures least <= x {
        if x != y {
          assert x in rest;
        }
      }
      assert least in xs;
    }
  }

  lemma {:induction false} HasGreatest(xs: set<real>)
    requires xs != {}
    ensures exists m :: m in xs && forall x :: x in xs ==> x <= m
    decreases |xs|
  {
    assert (forall x :: x !in xs) ==> xs == {};
    var y :| y in xs;
    var rest := xs - {y};
    if rest == {} {
      forall x | x in xs ensures x <= y {
        assert x !in rest;
      }
    } else {
      HasGreatest(rest);
      var m :| m in rest && forall x :: x in rest ==> x <= m;
      var greatest := if m < y then y else m;
      forall x | x in xs ensures x <= greatest {
        if x != y {
          assert x in rest;
        }
      }
      assert greatest in xs;
    }
  }

  /** One coordinate of a position: `y` when `vertical`, `x` otherwise. */
  function Axis(v: Vec, vertical: bool): real {
    if vertical then v.y else v.x
  }

  /** The coordinates of all nodes along one axis. */
  ghost function Coords(node: map<int, Node>, vertical: bool): set<real> {
    set k | k in node :: Axis(node[k].Position(), vertical)
  }

  ghost function Pick(node: map<int, Node>): (k: int)
    requires node != map[]
    ensures k in node
  {
    assert (forall k :: k !in node) ==> node == map[];
    var k :| k in node; k
  }

  /** The middle of the nodes' extent along one axis. */
  ghost function Mid(node: map<int, Node>, vertical: bool): real
    requires node != map[]
  {
    assert Axis(node[Pick(node)].Position(), vertical) in Coords(node, vertical);
    (Least(Coords(node, vertical)) + Greatest(Coords(node, vertical))) / 2.0
  }

  /** The centre of the bounding box of the nodes. */
  ghost function BoxCentre(node: map<int, Node>): Vec
    requires node != map[]
  {
    Vec(Mid(node, false), Mid(node, true))
  }

  /** A node no other node undercuts holds the least coordinate. */
  lemma LeastCoord(node: map<int, Node>, vertical: bool, k0: int)
    requires k0 in node
    requires forall k :: k in node ==> Axis(node[k0].Position(), vertical) <= Axis(node[k].Position(), vertical)
    ensures Axis(node[k0].Position(), vertical) in Coords(node, vertical)
    ensures Least(Coords(node, vertical)) == Axis(node[k0].Position(), vertical)
  {
    var xs := Coords(node, vertical);
    var m := Axis(node[k0].Position(), vertical);
    assert m in xs;
    forall x | x in xs ensures m <= x {
      var k :| k in node && Axis(node[k].Position(), vertical) == x;
    }
    assert Least(xs) <= m && m <= Least(xs);
  }

  /** A node no other node exceeds holds the greatest coordinate. */
  lemma GreatestCoord(node: map<int, Node>, vertical: bool, k0: int)
    requires k0 in node
    requires forall k :: k in node ==> Axis(node[k].Position(), vertical) <= Axis(node[k0].Position(), vertical)
    ensures Axis(node[k0].Position(), vertical) in Coords(node, vertical)
    ensures Greatest(Coords(node, vertical)) == Axis(node[k0].Position(), vertical)
  {
    var xs := Coords(node, vertical);
    var m := Axis(node[k0].Position(), vertical);
    assert m in xs;
    forall x | x in xs ensures x <= m {
      var k :| k in node && Axis(node[k].Position(), vertical) == x;
    }
    assert Greatest(xs) <= m && m <= Greatest(xs);
  }

  function Shift(n: Node, offset: Vec): Node {
    n.(x := n.x + offset.x, y := n.y + offset.y)
  }

  /** Every node moved by `offset`. */
  function ShiftAll(node: map<int, Node>, offset: Vec): (r: map<int, Node>)
    ensures r.Keys == node.Keys
  {
    map k | k in node :: Shift(node[k], offset)
  }

  /** Moving every node by one offset moves the middle of the extent by it. */
  lemma ShiftedMid(node: map<int, Node>, offset: Vec, vertical: bool)
    requires node != map[]
    ensures ShiftAll(node, offset) != map[]
    ensures Mid(ShiftAll(node, offset), vertical) == Mid(node, vertical) + Axis(offset, vertical)
  {
    var moved := ShiftAll(node, offset);
    var xs := Coords(node, vertical);
    assert Axis(node[Pick(node)].Position(), vertical) in xs;
    var lo, hi := Least(xs), Greatest(xs);
    var kl :| kl in node && Axis(node[kl].Position(), vertical) == lo;
    var kh :| kh in node && Axis(node[kh].Position(), vertical) == hi;
    forall k | k in node
      ensures Axis(moved[k].Position(), vertical) == Axis(node[k].Position(), vertical) + Axis(offset, vertical)
      ensures lo <= Axis(node[k].Position(), vertical) <= hi
    {
      assert Axis(node[k].Position(), vertical) in xs;
    }
    LeastCoord(moved, vertical, kl);
    GreatestCoord(moved, vertical, kh);
  }

  /** The centring step: every node moves by the offset that takes the
      centre of the bounding box to the centre of the window. */
  ghost function Centre(node: map<int, Node>, wsize: Vec): (r: map<int, Node>)
    ensures r.Keys == node.Keys
    ensures forall k :: k in r ==> r[k].uid == node[k].uid && r[k].kind == node[k].kind
    ensures forall j, k :: j in node && k in node ==>
              r[j].x - node[j].x == r[k].x - node[k].x && r[j].y - node[j].y == r[k].y - node[k].y
  {
    if node == map[] then node
    else ShiftAll(node, Vec(wsize.x / 2.0, wsize.y / 2.0).Minus(BoxCentre(node)))
  }

  /** After centring, the centre of the bounding box is the centre of the
      window. */
  lemma CentreLandsOnWindow(node: map<int, Node>, wsize: Vec)
    requires node != map[]
    ensures Centre(node, wsize) != map[]
    ensures BoxCentre(Centre(node, wsize)) == Vec(wsize.x / 2.0, wsize.y / 2.0)
  {
    var centre := BoxCentre(node);
    var offset := Vec(wsize.x / 2.0 - centre.x, wsize.y / 2.0 - centre.y);
    assert offset == Vec(wsize.x / 2.0, wsize.y / 2.0).Minus(centre);
    var moved := ShiftAll(node, offset);
    assert Centre(node, wsize) == moved;
    ShiftedMid(node, offset, false);
    ShiftedMid(node, offset, true);
    assert Mid(moved, false) == centre.x + offset.x;
    assert Mid(moved, true) == centre.y + offset.y;
  }

  /** Centring a non-empty board lands its box centre on the window centre. */
  lemma CentredIfAny(node: map<int, Node>, wsize: Vec)
    ensures node != map[] ==> Centre(node, wsize) != map[] &&
                              BoxCentre(Centre(node, wsize)) == Vec(wsize.x / 2.0, wsize.y / 2.0)
  {
    if node != map[] {
      CentreLandsOnWindow(node, wsize);
    }
  }

  /** Nodes at (0, 0) and (100, 100) centred in a 600 by 600 window both move
      by (250, 250). */
  lemma CentringScenario()
    ensures Centre(map[1 := Node(1, 0.0, 0.0, Base), 2 := Node(2, 100.0, 100.0, Base)], Vec(600.0, 600.0))
         == map[1 := Node(1, 250.0, 250.0, Base), 2 := Node(2, 350.0, 350.0, Base)]
  {
    var node := map[1 := Node(1, 0.0, 0.0, Base), 2 := Node(2, 100.0, 100.0, Base)];
    LeastCoord(node, false, 1);
    GreatestCoord(node, false, 2);
    LeastCoord(node, true, 1);
    GreatestCoord(node, true, 2);
    assert BoxCentre(node) == Vec(50.0, 50.0);
  }

  /** The first two count lines (the chip count is read but not used) and
      the point lines: the nodes, and the line after them. */
  function ReadHead(ls: seq<string>, before: Store): (r: Result<(Store, nat), Fault>)
    ensures r.Success? ==> r.value.1 <= |ls|
    ensures r.Success? ==> r.value.0 == before.(node := r.value.0.node)
    ensures r.Success? ==> before.node.Keys <= r.value.0.node.Keys
    ensures r.Success? ==> forall u :: u in r.value.0.node ==>
              (u in before.node && r.value.0.node[u] == before.node[u]) || (u > 0 && r.value.0.node[u].uid == u)
  {
    var chipCount :- Count(ls, 0);
    var k1 := if 0 < |ls| then 1 else 0;
    var pointCount :- Count(ls, k1);
    var k2 := if k1 < |ls| then k1 + 1 else k1;
    var points :- ReadPoints(ls, k2, pointCount, 0, before.node);
    Success((before.(node := points.0), points.1))
  }

  /** The placement line (chips are added) and the target line (the
      targets are replaced), each only when the text has one. */
  function ReadLists(ls: seq<string>, s: Store, k: nat): (r: Result<(Store, nat), Fault>)
    requires k <= |ls|
    ensures r.Success? ==> k <= r.value.1 <= |ls| && r.value.1 <= k + 2
    ensures r.Success? ==> r.value.0.node == s.node && r.value.0.adjacency == s.adjacency
    ensures r.Success? ==> |s.chips| <= |r.value.0.chips| && r.value.0.chips[..|s.chips|] == s.chips
    ensures r.Success? ==> forall j :: |s.chips| <= j < |r.value.0.chips| ==>
              r.value.0.chips[j].position in s.node && 0 < r.value.0.chips[j].uid
    ensures r.Success? && k + 1 >= |ls| ==> r.value.0.targets == []
  {
    var chips :- if k < |ls| then ReadChips(Split(ls[k], ','), 0, s.node, s.chips) else Success(s.chips);
    var k4 := if k < |ls| then k + 1 else k;
    var targets :- if k4 < |ls| then ReadTargets(Split(ls[k4], ','), []) else Success([]);
    var k5 := if k4 < |ls| then k4 + 1 else k4;
    Success((s.(chips := chips, targets := targets), k5))
  }

  /** The connection count line and the connection lines. */
  function ReadEdges(ls: seq<string>, s: Store, k: nat): (r: Result<(Store, nat), Fault>)
    requires k <= |ls|
    ensures r.Success? ==> k <= r.value.1 <= |ls|
    ensures r.Success? ==> r.value.0 == s.(adjacency := r.value.0.adjacency)
    ensures r.Success? ==> forall u, v :: IsEdge(s.adjacency, u, v) ==> IsEdge(r.value.0.adjacency, u, v)
  {
    var connectionCount :- Count(ls, k);
    var k6 := if k < |ls| then k + 1 else k;
    var connections :- ReadConnections(ls, k6, connectionCount, 0, s.adjacency);
    Success((s.(adjacency := connections.0), connections.1))
  }

  /** What follows the reading: classification, centring, and the `node.at`
      lookups of `bake`, which fail unless both ends of every connection are
      nodes. */
  ghost function Settle(s: Store, wsize: Vec): (r: Result<Store, Fault>)
    ensures r.Success? <==> forall u, v :: IsEdge(s.adjacency, u, v) ==> u in s.node && v in s.node
    ensures r.Success? ==> r.value == s.(node := r.value.node) && r.value.node.Keys == s.node.Keys
    ensures r.Success? ==> forall k :: k in r.value.node ==>
              r.value.node[k].uid == s.node[k].uid && (r.value.node[k].kind == Base <==> k in s.targets)
    ensures r.Success? && s.node != map[] ==> BoxCentre(r.value.node) == Vec(wsize.x / 2.0, wsize.y / 2.0)
  {
    CentredIfAny(Classify(s.node, s.targets), wsize);
    var placed := Centre(Classify(s.node, s.targets), wsize);
    if forall u, v :: IsEdge(s.adjacency, u, v) ==> u in placed && v in placed
    then Success(s.(node := placed))
    else Failure(UnknownNode)
  }

  /** `loadFromStream` on the non-blank lines `ls`, applied to the board
      contents `before`: the sections in order, then `Settle`. */
  ghost function Load(ls: seq<string>, before: Store, wsize: Vec): (r: Result<Store, Fault>)
    ensures r.Success? ==> before.node.Keys <= r.value.node.Keys
    ensures r.Success? ==> |before.chips| <= |r.value.chips| && r.value.chips[..|before.chips|] == before.chips
    ensures r.Success? ==> forall u, v :: IsEdge(r.value.adjacency, u, v) ==> u in r.value.node && v in r.value.node
    ensures r.Success? ==> forall k :: k in r.value.node ==> (r.value.node[k].kind == Base <==> k in r.value.targets)
    ensures r.Success? && r.value.node != map[] ==> BoxCentre(r.value.node) == Vec(wsize.x / 2.0, wsize.y / 2.0)
  {
    var head :- ReadHead(ls, before);
    var lists :- ReadLists(ls, head.0, head.1);
    var edges :- ReadEdges(ls, lists.0, lists.1);
    Settle(edges.0, wsize)
  }

  /** Every node is stored under its own positive id. */
  ghost predicate NodesNamed(node: map<int, Node>) {
    forall k :: k in node ==> k > 0 && node[k].uid == k
  }

  /** Every chip stands on a node. */
  ghost predicate ChipsPlaced(chips: seq<Chip>, node: map<int, Node>) {
    forall i :: 0 <= i < |chips| ==> chips[i].position in node
  }

  /** What the rest of the board relies on: nodes under their own ids, chips
      on nodes, and both ends of every connection nodes. */
  ghost predicate Consistent(s: Store) {
    NodesNamed(s.node) && ChipsPlaced(s.chips, s.node) &&
    forall u, v :: IsEdge(s.adjacency, u, v) ==> u in s.node && v in s.node
  }

  /** The point lines keep nodes under their own ids and lose none. */
  lemma HeadKeeps(ls: seq<string>, before: Store)
    requires NodesNamed(before.node) && ChipsPlaced(before.chips, before.node)
    ensures ReadHead(ls, before).Success? ==>
              var s := ReadHead(ls, before).value.0;
              NodesNamed(s.node) && ChipsPlaced(s.chips, s.node) && before.node.Keys <= s.node.Keys &&
              s.chips == before.chips && s.adjacency == before.adjacency
  {
  }

  /** The placement line puts every new chip on a node. */
  lemma ListsKeep(ls: seq<string>, s: Store, k: nat)
    requires k <= |ls| && ChipsPlaced(s.chips, s.node)
    ensures ReadLists(ls, s, k).Success? ==>
              var t := ReadLists(ls, s, k).value.0;
              ChipsPlaced(t.chips, t.node) && t.node == s.node && t.adjacency == s.adjacency
  {
    if k < |ls| && ReadLists(ls, s, k).Success? {
      var tokens := Split(ls[k], ',');
      ChipsAccepted(tokens, 0, s.node, s.chips);
      ChipIds(tokens, 0, s.node, s.chips);
      var placed := Placed(NonEmpty(tokens), 0);
      forall j | 0 <= j < |placed| ensures placed[j].position in s.node {
        assert NonEmpty(tokens)[j] in NonEmpty(tokens);
      }
    }
  }

  /** A successful load keeps the board consistent and loses no node. */
  lemma LoadConsistent(ls: seq<string>, before: Store, wsize: Vec)
    requires Consistent(before)
    ensures Load(ls, before, wsize).Success? ==>
              Consistent(Load(ls, before, wsize).value) && before.node.Keys <= Load(ls, before, wsize).value.node.Keys
  {
    HeadKeeps(ls, before);
    if ReadHead(ls, before).Success? {
      var head := ReadHead(ls, before).value;
      ListsKeep(ls, head.0, head.1);
    }
  }
}
