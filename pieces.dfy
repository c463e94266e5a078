/** The plain records of the puzzle board (src/board.hpp): points, chips and
    the drag/animation record. Coordinates are exact reals in place of the
    source's `float`. */
module Pieces {

  /** A 2D position (`sf::Vector2f`); its default value is the origin. */
  datatype Vec = Vec(x: real, y: real) {
    function Minus(o: Vec): Vec {
      Vec(x - o.x, y - o.y)
    }
  }

  const Zero: Vec := Vec(0.0, 0.0)

  datatype NodeType = Base | Intersection

  /** A board point. `Base` is the value-initialised type of a fresh point. */
  datatype Node = Node(uid: int, x: real, y: real, kind: NodeType) {
    function Position(): Vec {
      Vec(x, y)
    }
  }

  /** A chip: its identity and the id of the node it stands on; nothing else. */
  datatype Chip = Chip(uid: int, position: int)

  /** The sentinel for "no chip" / "no node". */
  const NoId: int := -1

  /** The drag/animation record. */
  datatype DragState = DragState(
    active: bool,
    animating: bool,
    uid: int,
    origin: int,
    target: int,          // the hovered node, NoId when there is none
    phase: real,          // animation progress
    mousePosition: Vec,
    snapback: Vec,
    path: seq<int>,       // the previewed node ids
    route: seq<Vec>,      // the positions the animation travels through
    offset: Vec)

  /** `DragState{}`. */
  const Idle: DragState :=
    DragState(false, false, NoId, NoId, NoId, 0.0, Zero, Zero, [], [], Zero)

  /** The default record is idle, has no chip, origin or hovered node,
      starts its progress at zero and holds no path or route. */
  lemma IdleDefaults()
    ensures !Idle.active && !Idle.animating
    ensures Idle.uid == NoId && Idle.origin == NoId && Idle.target == NoId
    ensures Idle.phase == 0.0 && Idle.path == [] && Idle.route == []
  {
  }

  /** Why a load or a lookup stops: `std::stoi` rejecting a token
      (std::invalid_argument or std::out_of_range), or `node.at` missing a
      node id (std::out_of_range). Nothing in the program catches either. */
  datatype Fault = BadNumber | UnknownNode
}
