# Cupboards puzzle board in Dafny

This project models the core of a chip puzzle played on a planar graph. Chips
stand on nodes, and the player drags a chip to another node. The move succeeds
only when a breadth-first route through nodes free of other chips joins the
chip's origin to the node it is released over. The model covers:

- **The board** (`board.dfy`, module `Boards`, class `Board`). It holds the
  `node` map, the `adjacency` lists, the `chips` sequence, the
  `targetPositions` list, the connections `bake` keeps and the `drag` record.
  It has the store operations `addPoint`, `addConnection`, `placeChip`,
  `getChipByUid` and `clear`. The drag state machine is `mouseDown`,
  `mouseMove`, `mouseUp` and `update`, plus `isDragging`. The loader is
  `loadLevel` and `loadFromStream`, with its classification, centring and
  `bake` steps.
- **The records of `board.hpp`** (`pieces.dfy`, module `Pieces`): `Node`,
  `Chip` and `DragState`. `DragState{}` is the constant `Idle`.
- **The pathfinder `findPath`** (`routes.dfy`, module `Routes`). It is a
  FIFO breadth-first search with a `visited` set and a `cameFrom` map. A
  neighbour is blocked when a chip other than the dragged one stands on it.
  The goal is checked again before the walk back. `findPath` is proved
  against `PathSpec`, which says:
  - the result is empty when `start == goal` or when no free route exists;
  - otherwise it is a shortest free route with no repeated node.
- **The level text** (`level_text.dfy`, `level_spec.dfy`, modules
  `LevelText` and `Level`). These files model `std::getline` splitting,
  `std::string::find`, `std::stoi` and the `nextLine` reader that skips
  blank lines. `Level.Load` is a functional statement of what
  `loadFromStream` produces; the imperative loader in `Board` is proved equal
  to it.
- **The connection de-duplication of `bake`** (`bake.dfy`, module `Baking`):
  one entry per `minmax` pair.
- **`generateIdenticon`** (`identicon.dfy`, module `Identicon`): the 32-bit
  hash and the grid, mirrored left to right, filled in place.
- **`hexColor` and the `Material` palette** (`colours.dfy`, module
  `Colours`).

Modelling choices:

- `float` coordinates become exact `real`s. `std::hypot` becomes the squared
  distance, which orders points the same way.
- Node and chip ids are unbounded `int`s. The source keys `node` and
  `adjacency` by `uint32_t` and compares the `uint32_t` chip uid with the
  `int` drag uid. The two readings differ only for ids at or above 2^31.
  `NodesNamed` records that every node sits under its own positive id, as
  the loader assigns them. `MouseMove` takes that as its precondition, so
  that the sentinel -1 is never a node id.
- `mouseDown` sets `drag.uid` to `std::numeric_limits<std::size_t>::max()`,
  which is stored in an `int`; that is the sentinel -1 (`NoId`).
- The two exceptions nothing catches are `std::stoi` rejecting a token and
  `node.at` missing an id (in `placeChip`, `bake` and `mouseUp`). They
  become the `Fault` values `BadNumber` and `UnknownNode` in an
  `Option`/`Result`. After a fault the model says nothing about the board,
  because the program ends there.
- `bake` looks up both ends of every connection with `node.at`. So after a
  successful load every connection joins two nodes. This is part of
  `Board.Valid`, and it is why `mouseUp`'s `node.at` calls cannot fail.
- `findPath(s, s)` is empty, not the one-node route `[s]` one might
  expect. The code marks `start` visited and stops when `start` reaches the
  front of the queue. So `cameFrom` never holds `start`, and the result is
  empty. The model follows the code. Releasing a
  chip over its own origin therefore takes the snap-back branch.
- `mouseDown` never looks at `drag.animating`. A new drag can start while an
  animation runs, and the `update` that ends the animation resets the whole
  record, the new drag included. `PickChip` keeps `animating` and `phase`;
  `Update` resets to `Idle`.
- The loops over `unordered_map`s (nearest node, classification, extent,
  shifting, `bake`) take the keys in an order the model leaves open.
  Nearest-node ties are therefore "some node of least distance".

## Model

| member | source | states |
|---|---|---|
| `Pieces.IdleDefaults` | src/board.hpp:43-56 | `DragState{}` is neither active nor animating, has uid, origin and target -1, phase 0 and an empty path and route |
| `Boards.Board.IsDragging` | src/board.hpp:67 | `isDragging()` is true exactly when `drag.active` |
| `Boards.Board.constructor` | src/board.cpp:8-23 | a new board is empty, idle and valid for its window size |
| `Boards.ChipIndex` | src/board.cpp:25-32 | the index of the first chip with the uid; when there is none, no chip has it |
| `Boards.Board.GetChipByUid` | src/board.cpp:25-32 | the loop returns the first chip with the uid, or nothing when no chip has it |
| `Boards.Board.AddPoint` | src/board.cpp:106-109 | `node[uid]` is overwritten with the point at (x, y); nothing else changes |
| `Routes.Connect` | src/board.cpp:111-115 | `to` is appended to the list of `from` and `from` to the list of `to`; duplicates are kept and other lists are unchanged |
| `Boards.Board.AddConnection` | src/board.cpp:111-115 | the adjacency becomes `Connect` of the old one; nothing else changes |
| `Boards.Board.PlaceChip` | src/board.cpp:117-122 | a chip is appended on an existing node; an unknown node is the `node.at` fault and no chip is added |
| `Boards.Board.Clear` | src/board.cpp:560-572 | every collection is empty and the drag is `DragState{}` |
| `Boards.Board.Update` | src/board.cpp:462-473 | without an animation nothing changes; otherwise phase grows by delta, and once it passes 1 the record is `DragState{}`; animating implies phase at most 1 |
| `Routes.OccupiedIff` | src/board.cpp:530-531 | a node is occupied exactly when some chip with a different uid stands on it |
| `Routes.FindPath` | src/board.cpp:510-558 | the result is empty when start equals goal or no free route exists; otherwise it is a shortest free route from start to goal with no repeated node |
| `Routes.PathSpec` | src/board.cpp:510-558 | a non-empty result has at least two nodes, starts at start, ends at goal, and each step follows a connection onto a node no other chip holds |
| `Routes.RouteSteps` | src/board.cpp:530-537 | every step of a route follows a connection onto a node no other chip holds |
| `Routes.Search` | src/board.cpp:512-539 | the queue loop builds a predecessor tree rooted at start over free nodes, with the levels of a breadth-first search |
| `Routes.Visit` | src/board.cpp:516-538 | one dequeue-and-expand round keeps the tree, the closed set and the level order of the queue |
| `Routes.Expand` | src/board.cpp:523-538 | every free unvisited neighbour of the current node is visited, gets it as predecessor and joins the back of the queue |
| `Routes.RouteBound` | src/board.cpp:516-539 | every route of k edges from start ends at a visited node of level at most k |
| `Routes.Retrace` | src/board.cpp:547-557 | the walk back along `cameFrom` terminates, and once reversed it is a shortest free route without repeats |
| `Routes.ChainReversed` | src/board.cpp:547-557 | a predecessor chain read backwards is a shortest route without repeated nodes |
| `Routes.Reversed` | src/board.cpp:556 | element i of the result is element n-1-i of the input |
| `Routes.BlockedStartUnreachable` | src/board.cpp:526-545 | when every neighbour of start is held by another chip and the goal differs from start, the result is empty |
| `Routes.OccupiedGoalUnreachable` | src/board.cpp:541-545 | a goal held by another chip gives the empty result |
| `Routes.NeighbourPath` | src/board.cpp:526-557 | a free neighbour gives the two-node route |
| `Routes.ConnectOneHop` | src/board.cpp:111-115 | after `addConnection(a, b)` each free end is reached from the other in one hop |
| `Routes.LineScenario` | src/board.cpp:510-558 | on the line 1-2-3 a chip on 1 dragged to 3 travels 1, 2, 3 |
| `Routes.BlockedLineScenario` | src/board.cpp:526-545 | with a second chip on 2, the route from 1 to 3 is empty |
| `Boards.SqDist` | src/board.cpp:407 | the squared distance is non-negative and 0 from a point to itself |
| `Boards.Board.Closest` | src/board.cpp:400-414 | -1 exactly when there are no nodes, otherwise a node of least distance to the cursor |
| `Boards.Board.MouseMove` | src/board.cpp:395-424 | no change unless dragging; otherwise the cursor position is recorded, the target is a nearest node or -1, and the path is the `findPath` result from the origin or empty |
| `Boards.Board.NodePositions` | src/board.cpp:441-447 | the route is the node positions along the path, in order |
| `Boards.Route` | src/board.cpp:443-447 | element i of the route is the position of node i of the path |
| `Boards.RouteOnNodes` | src/board.cpp:443-447 | a non-empty `findPath` result on a loaded board runs through nodes only, from origin to target |
| `Boards.Board.MouseUp` | src/board.cpp:426-460 | no change unless dragging; otherwise inactive with phase 0. When the chip exists it animates: along a non-empty path the chip moves to the target and the route follows the path; otherwise it returns to its origin and the target is -1. The snapback is the chip's final node, and no other chip moves |
| `Boards.Hits` | src/board.cpp:352 | within radius 24 of the chip centre a press always hits; outside the radius and the sprite it never does |
| `Boards.FirstHit` | src/board.cpp:344-390 | the first chip, in chip order, that stands on a node and is hit |
| `Boards.Board.PickChip` | src/board.cpp:340-392 | the first hit chip becomes the active drag with its node as origin and the cursor offset; with no hit the drag is inactive with uid -1; `animating` and `phase` are untouched |
| `Boards.Board.MouseDown` | src/board.cpp:329-393 | a press on a level button loads that level; any other press picks a chip as `PickChip` does and leaves the board contents alone |
| `Boards.Board.LoadLevel` | src/board.cpp:574-592 | the board is cleared, then it holds exactly what `Load` gives for the text from an empty board, with an idle drag |
| `Boards.Board.LoadFromStream` | src/board.cpp:594-704 | the board contents become `Load` of the text's non-blank lines, or a fault exactly when `Load` fails; the drag is untouched |
| `LevelText.NextLine` | src/board.cpp:598-603 | the next non-empty line is returned, or nothing once the text is exhausted |
| `LevelText.NonEmpty` | src/board.cpp:598-603 | the non-empty lines, all of them and only them |
| `LevelText.Find` | src/board.cpp:614 | the first position of the character, or none when the string lacks it |
| `LevelText.Split` | src/board.cpp:629 | the pieces between separators, none holding a separator |
| `LevelText.JoinSplit` | src/board.cpp:629 | joining the pieces with the separator gives the text back |
| `LevelText.StoI` | src/board.cpp:608 | a number read by `std::stoi` fits in `int` |
| `LevelText.StoIDecimal` | src/board.cpp:617-618 | every `int` written in decimal and followed by a non-digit is read back |
| `LevelText.StoISkipsSpace` | src/board.cpp:608 | leading white space does not change what `std::stoi` reads |
| `LevelText.NoDigitNoNumber` | src/board.cpp:608 | text without a digit is rejected |
| `Level.Num` | src/board.cpp:608 | a token is a fault exactly when `std::stoi` rejects it |
| `Boards.ReadCount` | src/board.cpp:608-609 | a count line is read with `std::stoi`, or is 0 once the text has run out |
| `Level.Pair` | src/board.cpp:614-618 | a line without a comma is skipped; otherwise the numbers before and after the first comma, or a fault when either is not a number |
| `Boards.Board.LoadHead` | src/board.cpp:605-620 | the two count lines and the point section give `ReadHead` |
| `Level.ReadHead` | src/board.cpp:605-620 | only the nodes change and none is lost; every node is either an old one, unchanged, or a new one stored under its own positive id; the next line is within the text |
| `Boards.Board.ReadPointSection` | src/board.cpp:611-620 | the point loop gives `ReadPoints`: point line i becomes node i+1, and it stops early when the text runs out |
| `Level.ReadPoints` | src/board.cpp:611-620 | only ids from the section's range are added, each under its own id; existing nodes outside them are kept |
| `Level.PointStep` | src/board.cpp:613-619 | one point line read: a fault on bad numbers, otherwise the rest of the section after it |
| `Level.PointLine` | src/board.cpp:611-620 | the j-th point line (from 0), when it has a comma, becomes node j+1 at its coordinates, even when earlier lines were skipped |
| `Level.ReadLists` | src/board.cpp:622-650 | nodes and connections are unchanged; the old chips are kept in front and every new chip has a positive id and stands on a node; at most two lines are used; without a target line there are no targets |
| `Boards.Board.LoadLists` | src/board.cpp:622-650 | the placement and target lines give `ReadLists`; the targets are cleared first |
| `Boards.Board.PlaceChips` | src/board.cpp:622-636 | the placement loop gives `ReadChips` |
| `Level.ReadChips` | src/board.cpp:629-635 | the old chips are kept in front; at most one chip is added per token, and every added chip stands on a node and has an id above `chipId` and at most `chipId` plus the token count |
| `Level.ChipsAccepted` | src/board.cpp:629-635 | the placement line succeeds exactly when every non-empty token is a number naming a node |
| `Level.ChipIds` | src/board.cpp:627-635 | chips get ids 1..k in token order, one per non-empty token, on the nodes named |
| `Boards.ReadTargetLine` | src/board.cpp:638-650 | the target loop gives `ReadTargets`, failing exactly when a non-empty token is not a number |
| `Level.TargetsAccepted` | src/board.cpp:644-649 | the target line succeeds exactly when every non-empty token is a number |
| `Level.ReadTargets` | src/board.cpp:644-649 | the old targets are kept in front, with at most one added per token |
| `Level.TargetIds` | src/board.cpp:638-650 | the targets are the numbers of the non-empty tokens, in order |
| `Boards.Board.LoadEdges` | src/board.cpp:652-664 | the connection count and section give `ReadEdges` |
| `Level.ReadEdges` | src/board.cpp:652-664 | only the adjacency changes, and every connection it had is kept; the next line is within the text |
| `Boards.Board.ReadConnectionSection` | src/board.cpp:655-664 | the connection loop gives `ReadConnections` (whose per-line meaning `Level.ConnectionLine` states) |
| `Level.ReadConnections` | src/board.cpp:655-664 | every connection already listed is kept; the section ends one line per remaining entry later, or at the end of the text |
| `Level.ConnectionStep` | src/board.cpp:657-663 | one connection line read: a fault on bad numbers; a line without a comma adds nothing but uses up an entry; otherwise its two ends are connected and the rest of the section follows |
| `Level.ConnectionLine` | src/board.cpp:655-664 | the j-th connection line (from 0) holds numbers, and when it has a comma both ends are listed under each other in the result, even when earlier lines were skipped |
| `Boards.Board.SettleNodes` | src/board.cpp:666-703 | classification, centring and `bake` give `Settle` |
| `Level.Settle` | src/board.cpp:666-703 | succeeds exactly when both ends of every connection are nodes; only the nodes change, with the same ids; a node is `Base` exactly when it is a target; a non-empty board ends with its box centre on the window centre |
| `Level.Classify` | src/board.cpp:666-671 | a node is `Base` exactly when its id is among the targets, otherwise `Intersection`; ids and positions are unchanged |
| `Boards.Board.ClassifyNodes` | src/board.cpp:666-671 | the two loops give `Classify` |
| `Boards.Board.Extent` | src/board.cpp:673-684 | the least and greatest coordinates of the nodes on each axis |
| `Level.LeastCoord` | src/board.cpp:678-684 | a coordinate no node undercuts is the least one |
| `Level.GreatestCoord` | src/board.cpp:678-684 | a coordinate no node exceeds is the greatest one |
| `Level.Centre` | src/board.cpp:686-701 | every node is moved by one common offset; ids and types are kept |
| `Level.CentreLandsOnWindow` | src/board.cpp:673-701 | after centring, the bounding-box centre is the window centre |
| `Level.CentredIfAny` | src/board.cpp:686-701 | centring a non-empty board leaves it non-empty with its box centre on the window centre |
| `Level.CentringScenario` | src/board.cpp:673-701 | nodes at (0,0) and (100,100) in a 600x600 window both move by (250,250) |
| `Boards.Board.CentreNodes` | src/board.cpp:686-701 | the nodes become `Centre` of the old ones |
| `Boards.Board.ShiftNodes` | src/board.cpp:697-701 | every node is shifted by the offset |
| `Level.LoadConsistent` | src/board.cpp:594-704 | a successful load keeps nodes under their own ids, chips on nodes and connections between nodes |
| `Level.Load` | src/board.cpp:594-704 | a successful load loses no node, keeps the old chips in front, joins only nodes, marks exactly the targets as `Base` and centres a non-empty board on the window |
| `Level.HeadKeeps` | src/board.cpp:611-620 | the point section loses no node and keeps nodes under their ids |
| `Level.ListsKeep` | src/board.cpp:622-650 | every chip the placement line adds stands on a node |
| `Baking.MinMax` | src/board.cpp:45 | the pair of the two ends, smaller first |
| `Boards.Board.Bake` | src/board.cpp:34-65 | one baked connection per `minmax` pair of the adjacency, none twice; a fault exactly when some connection end is not a node |
| `Baking.ConnectPairs` | src/board.cpp:40-63 | `addConnection(a, b)` adds exactly the pair `minmax(a, b)` to the baked pairs |
| `Baking.RepeatedConnectionBakedOnce` | src/board.cpp:40-63 | a connection listed twice or in both directions is baked once |
| `Identicon.HashVectors` | src/identicon.hpp:19-26 | `hash` of 0, 1 and 42 under the 32-bit xor/shift/add/multiply sequence |
| `Identicon.EveryColumnWritten` | src/identicon.hpp:17-36 | every column takes its value from a computed column, itself or its mirror |
| `Identicon.MirrorPair` | src/identicon.hpp:35-36 | computed column c lands in column c and in column Size-1-c, and nowhere else |
| `Identicon.PixelMirrored` | src/identicon.hpp:30-36 | the cell equals its mirror cell, and a computed cell is bit c%16 of the salted hash |
| `Identicon.FiveByFiveFits` | src/identicon.hpp:32 | for 5x5 icons the row and column products fit in 32 bits |
| `Identicon.FillRow` | src/identicon.hpp:30-37 | one row is filled with its computed cells and their mirrors; no other row changes |
| `Identicon.GenerateIdenticon` | src/identicon.hpp:12-41 | the grid is a function of the seed alone, mirrored left to right, with bit c%16 of the salted hash in each computed column |
| `Colours.HexColor` | src/colours.hpp:49-58 | the channels are bytes, alpha is the argument, and r*65536 + g*256 + b is hex mod 2^24 |
| `Colours.Recombine` | src/colours.hpp:53-55 | the three shifted and masked bytes recombine to the low 24 bits |
| `Colours.SameColorIffLowBitsAgree` | src/colours.hpp:53-55 | two values give the same colour exactly when their low 24 bits agree, so bits above 24 are ignored |
| `Colours.PaletteVectors` | src/colours.hpp:8-46 | `Background` is (0x26, 0x32, 0x38, 0xFF); other palette entries give their bytes |

## Left out

- Rendering is not modelled: the polylines and honeycombs of `bake`, chip and hint textures, `draw`, `drawChips`, `drawDraggedChip`, `drawHints` and `drawIdenticon`. So the hint test `chips[i].position == targetPositions[i]` is not modelled either; it only picks a sprite colour.
- `easeOutBounce`, the trail alpha and `lerpColor` are not modelled. They are floating-point `sqrt`/`pow` numerics on the drawing side.
- Boards.Hits: the sprite-bounds test depends on texture sizes, so it is the parameter `inSprite`. The missing-texture `continue` in `mouseDown` is not modelled, because `bake` gives every chip a texture.
- Boards.Board.MouseDown: the level buttons are abstracted. The caller passes the text of the clicked button's level, or nothing.
- Float rounding in `phase += 0.02f` and in the centring arithmetic is not modelled; both are exact `real`s.
- The file branch of `loadLevel` is not modelled (file I/O). Neither is the window and event loop of src/main.cpp, which calls `mouseMove` only while `isDragging()`.
- Boards.Board.LoadFromStream: after a fault the model states nothing about the board, because the program terminates.
- Routes.FindPath: among equally short routes, the model does not fix which one is returned. The choice depends on adjacency order, and `PathSpec` admits any of them.
- Boards.Board.Closest: among equally near nodes, the model does not fix which one is chosen. The source iterates an `unordered_map`, whose order is unspecified.
- `uint32_t` wrap-around of node and chip ids is not modelled. Ids are `int`s, and level files use small positive ids.
- src/button.hpp, src/polyline.hpp, src/honeycomb.hpp, src/honeycomb.cpp and src/utility.hpp are decorative UI and are not part of this model. The level texts in `levels.hpp` are not part of this model either.
