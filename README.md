# Dungeon generator model

This project models the `Dungeon` class of `lib/maze.js`, a procedural dungeon generator. A dungeon is an `h × w` grid of integers, where 0 is empty, 1 is corridor and an id of 2 or more is the inside of that room.

The constructor builds the dungeon in four steps:

1. It fills an empty grid.
2. It tries `rooms` times to place a room. Each room's size is drawn at random. The room's top-left corner is swept from (1, 1) until its rectangle, grown by one cell on every side, meets no non-empty cell.
3. It links every room to the nearest room not yet processed, using an L-shaped corridor: first vertical, then horizontal. It then stamps every room again over the corridors.
4. It picks a spawn room.

`spawnObjects` then scatters objects, one per room, outside the spawn room.

The Dafny model keeps the source's shape:

- `Maze.Dungeon` is a class whose `maze`, `rooms`, `lastRoomId`, `spawn` and `objects` fields are updated by methods with the same loops as the source.
- The grid is a `seq<seq<int>>` field. `CreateEmpty` builds it row by row, and `AppendRoom` reassigns it one cell at a time. `CreateLink` writes a local copy of the grid one cell at a time and assigns the field once, when the walk ends.
- Every `Math.random()` call is the next value of an oracle `rng: nat -> Unit` of exact fractions in [0, 1), and a counter `drawn` counts the draws.
- `Math.floor`/`Math.ceil` of the size, step, index and jitter formulas are computed exactly on those fractions, in module `Chance`.
- Each method is proved against a specification function:
  - `Stamp` and `StampAll` (in module `Layout`) for room stamping;
  - `NearestChoice` for the nearest-room scan;
  - `Carve`, `Link` and `LinkAll` (in module `Corridors`) for corridors.
- Lemmas then prove what those functions promise:
  - rooms stay separated;
  - every room keeps its id after the re-stamp pass;
  - every room except the last is linked to a later room;
  - the early stop in corridor carving never fires.

Two loops in the source end only with probability 1:

- the room sweep, whose step `floor(4·random)` can be 0;
- the rejection loop that picks an unused room in `spawnObjects`.

The model bounds both with a `patience` argument. In `spawnObjects` a loop that runs out ends the call with `complete == false`, and the contract says what the `patience` draws that were rejected had in common. In the constructor, each placement attempt's outcome is recorded in the ghost field `attempts` as `Placed`, `NoSpace` or `GaveUp`; an attempt that gives up is otherwise treated like one that found no space.

## Model

| member | source | states |
|---|---|---|
| Chance.Index | lib/maze.js:37 | `floor(n·r)` for a draw r in [0, 1) is an index below n whenever n > 0 (also used at lines 53 and 141) |
| Chance.RoomSide | lib/maze.js:132-133 | a drawn room side lies in [floor(size/2), size) |
| Chance.Jitter | lib/maze.js:56-57 | the object offset `ceil(r·side/4 − side/4)` lies in [−floor(side/4), 0]: never positive |
| Layout.StampAllInside | lib/maze.js:66-70 | after stamping a separated room list in order, every cell of every room's rectangle holds that room's id, whatever the grid held before |
| Layout.PlacementSeparates | lib/maze.js:140 | a room that does not collide with a grid where every earlier room's cells are occupied stays separated from all of them: no earlier room's cell lies in its grown rectangle |
| Layout.PlaceRoom | lib/maze.js:18-25 | appending a centred, fitting, non-colliding room with the next id keeps the room list well placed (ids 2, 3, … in order, inside the grid, pairwise separated), and the grid becomes the old grid with that room stamped on top |
| Layout.SizedSnoc | lib/maze.js:130-147 | a room whose sides are drawn from [size/2, size) and whose position is 1 or satisfies the sweep's bound at lines 142-147, in each direction, keeps the room list `Sized` |
| Layout.SizedLeavesBorder | lib/maze.js:140-147 | when `roomSize` is below h and w, every placed room ends before the last row and the last column |
| Corridors.VerticalStep | lib/maze.js:106-107 | a vertical step stays on the L-path, leaves A's centre behind, and enters exactly one new cell |
| Corridors.HorizontalStep | lib/maze.js:108-109 | a horizontal step on B's row stays on the L-path, leaves A's centre behind, and enters exactly one new cell |
| Corridors.WalkStep | lib/maze.js:114 | writing 1 into the entered cell keeps the grid equal to the original with exactly the entered cells set to corridor |
| Corridors.WalkAdvance | lib/maze.js:101-115 | one iteration of the walk, taken from a cell that does not hold B's id and before B's centre is reached, keeps the walk's invariant (on the path, inside the grid, exactly the entered cells carved, standing on a corridor once A's centre is left) |
| Corridors.WalkEnds | lib/maze.js:101-115 | wherever the walk stops, the grid is the link from A to B: unchanged if A's centre held B's id, otherwise the whole L-path from A's centre (excluded) to B's centre (included) set to 1 |
| Corridors.WalkComplete | lib/maze.js:110-112 | a walk that has reached B's centre has carved exactly the L-path |
| Corridors.WalkNotStarted | lib/maze.js:102-104 | a walk stopped at A's centre has changed nothing |
| Corridors.DistanceBelowReach | lib/maze.js:76-87 | two centres inside the grid are closer than h·w, so the initial threshold of the nearest-room search never excludes a room |
| Corridors.ExceptIsPrefix | lib/maze.js:118-121 | while room i is processed, a room is in the `except` list exactly when its index is at most i |
| Corridors.NearestIsLater | lib/maze.js:118-125 | the nearest-room choice for room i is a room exactly when i is not the last index, and that room always has a larger index |
| Corridors.ScanRunsForward | lib/maze.js:118-125 | over a whole pass, every room except the last is linked and the last is not, each link going to a later room |
| Corridors.ScannedSnoc | lib/maze.js:119-121 | recording the nearest-room choice for the next room extends the record of choices made so far |
| Corridors.LinkAllSnoc | lib/maze.js:122-124 | linking one more room applies one more link, or none when no room was found, to the grid linked so far |
| Corridors.LinkKeepsMarks | lib/maze.js:101-114 | on a grid where every room centre holds its id or a corridor, the early-stop test at a room's centre fails for any other room, and carving keeps every centre marked |
| Corridors.LinksRunToTheEnd | lib/maze.js:96-125 | on such a grid, with no room linked to itself, no link in the pass meets the early stop at line 102, and the centres stay marked |
| Corridors.StampedCentresMarked | lib/maze.js:18-25 | after the rooms are placed and stamped, every room centre lies in the grid and holds the room's id |
| Corridors.CorridorsRunToTheEnd | lib/maze.js:18-29 | on the grid the constructor hands to the corridor pass, any pass that links each room to a later one carves every corridor in full: the `break` at line 102 never fires |
| Maze.Dungeon.constructor | lib/maze.js:6-33 | the built dungeon keeps its invariant (h × w grid, ids 2, 3, … in order, rooms fitting and pairwise separated, counter one past the last id). It makes exactly `rooms` placement attempts; `attempts` records how each ended, and the rooms are the placed ones in order; the first attempt places a room at (1, 1); every room is `Sized`, with both sides drawn from [roomSize/2, roomSize) and each of x and y either 1 or leaving the room ending before the last column or row but one. `links[i]` is room i's nearest-room choice: every room but the last is linked, each to a later room. The grid is the all-0 grid with the rooms stamped, then every link carved, then the rooms stamped again, so every room cell holds its room's id. The spawn room is one of the rooms and the spawn point is its centre; no objects |
| Maze.Dungeon.PlaceRooms | lib/maze.js:18-25 | the placement loop of the constructor: keeps the invariant, makes exactly `roomCount` attempts, records each outcome so that the rooms are exactly the placed ones in order, places the first room at (1, 1), and keeps every room `Sized`: both sides drawn from [roomSize/2, roomSize), and each of x and y either 1 or leaving the room ending before the last column or row but one. The grid is the empty grid with the placed rooms stamped in order |
| Maze.Dungeon.Attempt | lib/maze.js:19-24 | one attempt: the room list grows by the returned room exactly when it was placed, the grid becomes the empty grid with the longer list stamped, and the invariant and `Sized` are kept; on an empty grid the room is placed at (1, 1) |
| Maze.OutcomesSnoc | lib/maze.js:18-25 | one more attempt extends the room list by its room exactly when it placed one |
| Maze.Dungeon.Random | lib/maze.js:37 | each draw returns the next oracle value and advances the draw counter by one |
| Maze.Dungeon.CreateEmpty | lib/maze.js:181-188 | the grid has h rows of w cells, all 0 |
| Maze.Dungeon.AppendRoom | lib/maze.js:159-165 | every cell in rows [y, y+h) × columns [x, x+w) becomes the room's id; every other cell is unchanged |
| Maze.Dungeon.IsColliding | lib/maze.js:168-178 | true exactly when some non-zero cell lies in the room's rectangle grown by one cell and clipped to the grid |
| Maze.Dungeon.CreateRoom | lib/maze.js:129-156 | sizes are the two drawn sides. A returned room is centred, does not collide and carries the counter's id, and only then does the counter grow by one. A failure happens only after the row has advanced so that y + h ≥ h − 1. A sweep that gives up has used exactly 2 + `patience` draws and leaves the counter alone. On an empty grid the room is placed at (1, 1) |
| Maze.Dungeon.FindNearest | lib/maze.js:73-94 | returns the room closest to the given room among those not in `except` and within the threshold, the lowest index winning ties, or nothing when no room qualifies |
| Maze.Dungeon.CreateLink | lib/maze.js:96-116 | terminates (|y − B.cy| + |x − B.cx| shrinks), and the grid becomes the link from A to B: exactly the L-path cells, A's centre excluded and B's included, set to 1, nothing else changed |
| Maze.Dungeon.ConnectRooms | lib/maze.js:72-126 | sets `links`: entry i is the nearest-room choice for room i with the first i + 1 rooms excluded. Every room but the last is linked, each to a later room. The grid is the old grid with all those links applied in order |
| Maze.Dungeon.LinkEach | lib/maze.js:117-125 | the loop over the rooms: it records each room's nearest-room choice in order, and the grid is the old grid with those links applied in order |
| Maze.Dungeon.RestoreMaze | lib/maze.js:66-70 | the grid is the old grid with every room stamped again in order, and when the rooms are separated, every cell of every room holds that room's id |
| Maze.Dungeon.SetSpawn | lib/maze.js:35-40 | the spawn room is `rooms[floor(n·r)]` for one draw r, so it is one of the rooms; the spawn point is its centre |
| Maze.Dungeon.Furnish | lib/maze.js:28-32 | the constructor's last three steps: the grid becomes the placed grid with every link carved and every room stamped again, every room cell then holds its id, the links run forward, and the spawn point is a room's centre |
| Maze.Dungeon.SpawnObjects | lib/maze.js:43-63 | on a valid dungeon (distinct room ids), overwrites `objects` with at most max(0, min(count, n − 1)) points, exactly that many when no rejection loop gave up. The points come from pairwise distinct rooms, none of them the spawn room. Each x lies in [cx − floor(w/4), cx] and each y in [cy − floor(h/4), cy]. The first point comes from `rooms[0]` whenever that is not the spawn room. When a loop gives up, fewer points are placed, and each of its last `patience` draws named the spawn room or a room already holding an object |
| Maze.ScatterOne | lib/maze.js:52-59 | placing an object in a room not yet used keeps the objects in distinct rooms, away from the spawn room, within their jitter bounds |
| Maze.Dungeon.DrawRoom | lib/maze.js:51-54 | the rejection loop starts from `rooms[0]` and draws only while the candidate is used; it gives up only after exactly `patience` draws, all of which named used rooms |
| Maze.Dungeon.NextObject | lib/maze.js:51-57 | one object: the drawn room and, when it is unused, a point within its jitter bounds |
| Maze.UsedTaken | lib/maze.js:52 | a room found in the used list is the spawn room or a room already holding an object |
| Maze.AllTaken | lib/maze.js:52-54 | when the rejection loop gives up, every draw it made named a taken room |

## Left out

- Debug logging (lib/maze.js:3, 21, 27) and `module.exports` (lib/maze.js:192) are left out: they are plumbing with no effect on the dungeon.
- `Math.random()` is an oracle `rng` of exact fractions num/den with num < den, read in order. The model does not cover floating-point rounding: `Math.floor`/`Math.ceil` of the size, step, index and jitter formulas are computed exactly on the fraction.
- `Math.sqrt` in the nearest-room search is replaced by comparing squared distances against (h·w)². For non-negative values this gives the same order.
- Maze.Dungeon.CreateRoom: the sweep gets at most `patience` steps and then reports `GaveUp`. The source loops until a position is found or no row is left, which happens with probability 1 but is not guaranteed, since a step can be 0.
- Maze.Dungeon.SpawnObjects: each rejection loop gets at most `patience` draws. If it runs out, the method stops with the objects placed so far and `complete == false`, so the exact count is proved only when `complete` holds. When it does not hold, the contract says that each of the last `patience` draws named the spawn room or a room already holding an object. The source loops until an unused room comes up.
- Maze.Dungeon.constructor: it requires at least one room attempt, `2 <= roomSize <= h` and `roomSize <= w`. The source does not validate its parameters:
  - with no room placed, `setSpawn` dereferences `undefined`;
  - a drawn side of h or more, possible whenever `roomSize > h`, makes the first room, placed at (1, 1), run past the last row, and stamping it throws. A drawn width of w or more, possible whenever `roomSize > w`, runs past the last column instead, and stamping it silently lengthens the row arrays.
  - with `roomSize` 0 or 1, every drawn side is 0. Every room is then empty, is placed at (1, 1) with centre (1, 1), and stamps nothing. On a grid of at least 2 rows, every link stops at once, because its walk starts on the target's centre, and the final grid is all 0. With h = 1 and two or more rooms, the first link's test at lib/maze.js:102 reads a row that does not exist and throws.
  The model excludes those inputs and does not capture that behaviour. Rooms with no cells are outside `Fits`, which needs both sides to be at least 1.
- Maze.Dungeon.PlaceRooms: a sweep that gives up after `patience` steps counts as a failed attempt, and the next attempt starts. The source would have kept sweeping, so from that point on the model reads different draws than the source. The `attempts` record marks each such attempt as `GaveUp`.
- Maze.Dungeon.CreateEmpty: it requires the grid to start empty, as it is in the constructor, the only caller.
- Fractional numbers are not modelled. `roomSize`, the number of placement attempts `roomCount` and the object `count` are integers in the model. In the source a fractional number of attempts or objects acts as its ceiling, because the loops at lib/maze.js:18 and lib/maze.js:50 run while `i` is below it: `new Dungeon(h, w, 2.5, s)` makes 3 attempts, and `spawnObjects(2.5)` on a dungeon of 5 rooms places 3 objects. A fractional `roomSize` changes the side formula at lib/maze.js:132-133, and is not modelled either.
- `objects` is `[]` before the first `spawnObjects` call, where the source leaves it undefined.
- Reachability is not proved: that every room can be reached from every other room through corridors and rooms. The model proves which links are made and exactly which cells each carves, but not that the union of those paths is connected.
- `indexOf` in the source compares room objects by reference. The model compares room values. This is the same test, because `SpawnObjects` requires the dungeon invariant, which keeps room ids distinct. The same holds for the `except` test in `findNearest` (lib/maze.js:80): `ConnectRooms` requires `Numbered`, whose distinct ids make membership in `except` the same as an index at most i (`ExceptIsPrefix`).
- Object jitter is never positive (lib/maze.js:56-57), so every object lies at or above and to the left of its room's centre. The constructor does not validate its parameters. The model follows the code in both.
