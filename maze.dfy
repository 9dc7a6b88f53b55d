/** The dungeon generator: one object that owns the cell grid, the room list
    and the id counter, builds them in its constructor and answers requests
    for spawn and object positions. */
module Maze {
  import opened Chance
  import opened Layout
  import opened Corridors

  /** How one attempt to place a room ended. */
  datatype Placement =
    | Placed(room: Room)
    /** The sweep moved past the last row a room of this height fits in;
        `row` is the row it had reached. */
    | NoSpace(row: int)
    /** The sweep used up its allowance of steps (see `patience`). */
    | GaveUp

  class Dungeon {
    const h: nat
    const w: nat
    const roomSize: nat
    /** The sequence of Math.random() results: the n-th call returns rng(n). */
    const rng: nat -> Unit

    var maze: Grid
    var rooms: seq<Room>
    var lastRoomId: int
    /** How many random numbers have been drawn so far. */
    var drawn: nat
    var spawn: Option<Spawn>
    var objects: seq<Point>
    /** The empty grid the constructor starts from. */
    ghost var blank: Grid
    /** How each attempt to place a room ended, in order. */
    ghost var attempts: seq<Placement>
    /** links[i] is the room that room i was linked to, if any. */
    ghost var links: seq<Option<nat>>

    /** The state the constructor establishes and the later requests keep:
        an h x w grid, rooms with ids 2, 3, ... that fit and are separated,
        and the counter one past the last id. */
    ghost predicate Valid()
      reads this
    {
      WellFormed(maze, h, w) && WellPlaced(rooms, h, w) && lastRoomId == |rooms| + 2
    }

    /** Builds the dungeon: an empty grid, up to roomCount rooms, corridors
        between them, the rooms stamped again, and a spawn point. */
    constructor (h: nat, w: nat, roomCount: nat, roomSize: nat, rng: nat -> Unit, patience: nat)
      requires roomCount >= 1
      requires 2 <= roomSize && roomSize <= h && roomSize <= w
      ensures this.h == h && this.w == w && this.roomSize == roomSize && this.rng == rng
      ensures Valid()
      ensures 1 <= |rooms| <= roomCount
      ensures |attempts| == roomCount && Outcomes(attempts, rooms)
      ensures attempts[0].Placed? && attempts[0].room.x == 1 && attempts[0].room.y == 1
      ensures Sized(rooms, roomSize, h, w)
      ensures forall k, i, j :: 0 <= k < |rooms| && InRect(rooms[k], i, j) ==> maze[i][j] == rooms[k].id
      ensures forall k :: 0 <= k < |rooms| ==> CentreIn(rooms[k], h, w)
      ensures |links| == |rooms| && LinksIn(rooms, links) && Scanned(rooms, h, w, links)
      ensures forall i :: 0 <= i < |rooms| ==> (i < |rooms| - 1 <==> links[i].Some?)
      ensures forall i :: 0 <= i < |rooms| && links[i].Some? ==> i < links[i].value
      ensures WellFormed(blank, h, w) && AllZero(blank)
      ensures maze == StampAll(LinkAll(StampAll(blank, rooms), h, w, rooms, links), rooms)
      ensures spawn.Some? && spawn.value.room in rooms
      ensures spawn.value.x == spawn.value.room.cx && spawn.value.y == spawn.value.room.cy
      ensures objects == []
    {
      this.h := h;
      this.w := w;
      this.roomSize := roomSize;
      this.rng := rng;
      maze := [];
      rooms := [];
      lastRoomId := 2;
      drawn := 0;
      spawn := None;
      objects := [];
      blank := [];
      attempts := [];
      links := [];
      new;
      CreateEmpty();
      blank := maze;
      PlaceRooms(roomCount, patience);
      Furnish();
    }

    /** Carves the corridors between the placed rooms, stamps the rooms again
        over them and picks the spawn room. */
    method Furnish()
      requires WellFormed(maze, h, w) && WellPlaced(rooms, h, w) && |rooms| > 0
      modifies this`maze, this`links, this`spawn, this`drawn
      ensures WellFormed(maze, h, w)
      ensures forall k :: 0 <= k < |rooms| ==> CentreIn(rooms[k], h, w)
      ensures |links| == |rooms| && LinksIn(rooms, links) && Scanned(rooms, h, w, links)
      ensures forall i :: 0 <= i < |rooms| ==> (i < |rooms| - 1 <==> links[i].Some?)
      ensures forall i :: 0 <= i < |rooms| && links[i].Some? ==> i < links[i].value
      ensures maze == StampAll(LinkAll(old(maze), h, w, rooms, links), rooms)
      ensures forall k, i, j :: 0 <= k < |rooms| && InRect(rooms[k], i, j) ==> maze[i][j] == rooms[k].id
      ensures spawn.Some? && spawn.value.room in rooms
      ensures spawn.value.x == spawn.value.room.cx && spawn.value.y == spawn.value.room.cy
    {
      forall k | 0 <= k < |rooms|
        ensures CentreIn(rooms[k], h, w)
      {
        CentreInside(rooms[k], h, w);
      }
      ConnectRooms();
      RestoreMaze();
      SetSpawn();
    }

    /** One placement attempt: a room is drawn and swept into place and, when it
        is placed, stamped onto the grid and appended to the room list. */
    method Attempt(ghost g0: Grid, patience: nat) returns (placed: Placement)
      requires Valid() && Sized(rooms, roomSize, h, w)
      requires 2 <= roomSize && roomSize <= h && roomSize <= w
      requires WellFormed(g0, h, w) && maze == StampAll(g0, rooms)
      requires rooms == [] ==> AllZero(maze)
      modifies this`maze, this`rooms, this`lastRoomId, this`drawn
      ensures Valid() && Sized(rooms, roomSize, h, w)
      ensures maze == StampAll(g0, rooms)
      ensures rooms == if placed.Placed? then old(rooms) + [placed.room] else old(rooms)
      ensures old(rooms) == [] ==> placed.Placed? && placed.room.x == 1 && placed.room.y == 1
    {
      placed := CreateRoom(patience);
      if placed.Placed? {
        var r := placed.room;
        PlaceRoom(g0, h, w, rooms, r);
        SizedSnoc(rooms, roomSize, h, w, r);
        AppendRoom(r);
        rooms := rooms + [r];
      }
    }

    /** Makes roomCount attempts to place a room on the empty grid, stamping
        and recording each room that is placed. */
    method PlaceRooms(roomCount: nat, patience: nat)
      requires roomCount >= 1
      requires 2 <= roomSize && roomSize <= h && roomSize <= w
      requires WellFormed(maze, h, w) && AllZero(maze) && rooms == [] && lastRoomId == 2
      modifies this`maze, this`rooms, this`lastRoomId, this`drawn, this`attempts
      ensures Valid() && 1 <= |rooms| <= roomCount
      ensures |attempts| == roomCount && Outcomes(attempts, rooms)
      ensures attempts[0].Placed? && attempts[0].room.x == 1 && attempts[0].room.y == 1
      ensures Sized(rooms, roomSize, h, w)
      ensures maze == StampAll(old(maze), rooms)
    {
      attempts := [];
      var i := 0;
      while i < roomCount
        invariant 0 <= i <= roomCount
        invariant Valid()
        invariant maze == StampAll(old(maze), rooms)
        invariant |attempts| == i && Outcomes(attempts, rooms)
        invariant i > 0 ==> attempts[0].Placed? && attempts[0].room.x == 1 && attempts[0].room.y == 1
        invariant |rooms| <= i && (i > 0 ==> |rooms| > 0)
        invariant Sized(rooms, roomSize, h, w)
      {
        if rooms == [] {
          assert AllZero(maze);
        }
        ghost var before := rooms;
        var placed := Attempt(old(maze), patience);
        OutcomesSnoc(attempts, before, placed);
        attempts := attempts + [placed];
        i := i + 1;
      }
    }

    /** The next random number. */
    method Random() returns (r: Unit)
      modifies this`drawn
      ensures r == rng(old(drawn)) && drawn == old(drawn) + 1
    {
      r := rng(drawn);
      drawn := drawn + 1;
    }

    /** Fills the fresh grid with h rows of w empty cells. */
    method CreateEmpty()
      requires maze == []
      modifies this`maze
      ensures WellFormed(maze, h, w) && AllZero(maze)
    {
      var i := 0;
      while i < h
        invariant 0 <= i <= h
        invariant WellFormed(maze, i, w) && AllZero(maze)
      {
        var row: seq<int> := [];
        var j := 0;
        while j < w
          invariant 0 <= j <= w && |row| == j
          invariant forall c :: 0 <= c < j ==> row[c] == 0
        {
          row := row + [0];
          j := j + 1;
        }
        maze := maze + [row];
        i := i + 1;
      }
    }

    /** Writes the room's id into every cell of its rectangle. */
    method AppendRoom(room: Room)
      requires WellFormed(maze, h, w)
      requires 0 <= room.y && room.y + room.h <= h && 0 <= room.x && room.x + room.w <= w
      modifies this`maze
      ensures WellFormed(maze, h, w)
      ensures forall i, j :: 0 <= i < h && 0 <= j < w ==>
        maze[i][j] == if InRect(room, i, j) then room.id else old(maze)[i][j]
      ensures maze == Stamp(old(maze), room)
    {
      var i := room.y;
      while i < room.y + room.h
        invariant room.y <= i <= room.y + room.h
        invariant WellFormed(maze, h, w)
        invariant forall r, c :: 0 <= r < h && 0 <= c < w ==>
          maze[r][c] == if room.y <= r < i && room.x <= c < room.x + room.w then room.id else old(maze)[r][c]
      {
        var j := room.x;
        while j < room.x + room.w
          invariant room.x <= j <= room.x + room.w
          invariant WellFormed(maze, h, w)
          invariant forall r, c :: 0 <= r < h && 0 <= c < w ==>
            maze[r][c] == if (room.y <= r < i && room.x <= c < room.x + room.w) || (r == i && room.x <= c < j)
                          then room.id else old(maze)[r][c]
        {
          maze := maze[i := maze[i][j := room.id]];
          j := j + 1;
        }
        i := i + 1;
      }
      GridExt(maze, Stamp(old(maze), room), h, w);
    }

    /** Whether some non-empty cell lies in the room's rectangle inflated by one
        cell, the inflated rectangle being clipped to the grid. */
    method IsColliding(room: Room) returns (c: bool)
      requires WellFormed(maze, h, w)
      ensures c == Colliding(maze, h, w, room)
    {
      var i := Max(0, room.y - 1);
      while i < Min(h, room.y + room.h + 1)
        invariant 0 <= i
        invariant forall r, s :: 0 <= r < i && r < h && 0 <= s < w && InMargin(room, r, s) ==> maze[r][s] == 0
      {
        var j := Max(0, room.x - 1);
        while j < Min(w, room.x + room.w + 1)
          invariant 0 <= i < h && 0 <= j
          invariant forall r, s :: 0 <= r < i && r < h && 0 <= s < w && InMargin(room, r, s) ==> maze[r][s] == 0
          invariant forall s :: 0 <= s < j && s < w && InMargin(room, i, s) ==> maze[i][s] == 0
        {
          if maze[i][j] != 0 {
            assert InMargin(room, i, j);
            return true;
          }
          j := j + 1;
        }
        i := i + 1;
      }
      return false;
    }

    /** Draws a room's height and width, then sweeps candidate corners from
        (1, 1): each step moves right by a random 0 to 3 cells, wrapping to
        the start of the next row at the right edge, until the room no longer
        collides or no row is left. */
    method CreateRoom(patience: nat) returns (p: Placement)
      requires WellFormed(maze, h, w)
      modifies this`lastRoomId, this`drawn
      ensures drawn >= old(drawn) + 2
      ensures var rh, rw := RoomSide(rng(old(drawn)), roomSize), RoomSide(rng(old(drawn) + 1), roomSize);
        match p
        case Placed(room) =>
          && room.id == old(lastRoomId) && lastRoomId == old(lastRoomId) + 1
          && room.h == rh && room.w == rw && Centred(room)
          && !Colliding(maze, h, w, room)
          && 1 <= room.x && (room.x == 1 || room.x + rw < w - 1)
          && 1 <= room.y && (room.y == 1 || room.y + rh < h - 1)
        case NoSpace(row) =>
          lastRoomId == old(lastRoomId) && 2 <= row && h - 1 <= row + rh
        case GaveUp =>
          lastRoomId == old(lastRoomId) && drawn == old(drawn) + 2 + patience
      ensures AllZero(maze) ==> p.Placed? && p.room.x == 1 && p.room.y == 1
    {
      var r1 := Random();
      var r2 := Random();
      var rh := RoomSide(r1, roomSize);
      var rw := RoomSide(r2, roomSize);
      var x, y := 1, 1;
      var colliding := IsColliding(Room(lastRoomId, x, y, rw, rh, 0, 0));
      var tries := 0;
      while colliding
        invariant 1 <= x && (x == 1 || x + rw < w - 1)
        invariant 1 <= y && (y == 1 || y + rh < h - 1)
        invariant colliding == Colliding(maze, h, w, Room(lastRoomId, x, y, rw, rh, 0, 0))
        invariant tries <= patience && drawn == old(drawn) + 2 + tries
        invariant lastRoomId == old(lastRoomId)
        invariant AllZero(maze) ==> !colliding && x == 1 && y == 1
        decreases patience - tries
      {
        if tries == patience {
          return GaveUp;
        }
        var r := Random();
        tries := tries + 1;
        x := x + Index(r, 4);
        if x + rw >= w - 1 {
          x := 1;
          y := y + 1;
          if y + rh >= h - 1 {
            return NoSpace(y);
          }
        }
        colliding := IsColliding(Room(lastRoomId, x, y, rw, rh, 0, 0));
      }
      p := Placed(Room(lastRoomId, x, y, rw, rh, x + rw / 2, y + rh / 2));
      lastRoomId := lastRoomId + 1;
    }

    /** The index of the room nearest to `room` by centre distance among the
        rooms not in `except` and closer than h * w; the first one found wins
        a tie. None when there is no such room. */
    method FindNearest(room: Room, except: seq<Room>) returns (nearest: Option<nat>)
      ensures NearestChoice(rooms, room, except, Reach(h, w), nearest)
    {
      var limit := Reach(h, w);
      var inearest := -1;
      var imin := limit;
      for i := 0 to |rooms|
        invariant -1 <= inearest < i
        invariant inearest == -1 ==> imin == limit && forall k :: 0 <= k < i ==> !Eligible(rooms, room, except, limit, k)
        invariant inearest != -1 ==>
          && Eligible(rooms, room, except, limit, inearest)
          && imin == Dist2(room, rooms[inearest])
          && (forall k :: 0 <= k < i && Eligible(rooms, room, except, limit, k) ==> imin <= Dist2(room, rooms[k]))
          && (forall k :: 0 <= k < inearest && Eligible(rooms, room, except, limit, k) ==> imin < Dist2(room, rooms[k]))
      {
        if rooms[i] in except {
          continue;
        }
        var dist := Dist2(room, rooms[i]);
        if dist < imin {
          inearest := i;
          imin := dist;
        }
      }
      nearest := if inearest == -1 then None else Some(inearest);
    }

    /** Carves the corridor from a's centre to b's centre: one cell at a time,
        vertically to b's row and then horizontally to b's column, writing a
        corridor into every cell it enters, and stopping at once if the cell
        it stands on already holds b's id. */
    method CreateLink(a: Room, b: Room)
      requires WellFormed(maze, h, w) && CentreIn(a, h, w) && CentreIn(b, h, w)
      requires b.id != 1
      modifies this`maze
      ensures WellFormed(maze, h, w)
      ensures maze == Link(old(maze), h, w, a, b)
    {
      var dx := if a.cx > b.cx then -1 else 1;
      var dy := if a.cy > b.cy then -1 else 1;
      var x, y := a.cx, a.cy;
      var g := maze;
      while true
        invariant Walking(g, old(maze), h, w, a, b, x, y)
        decreases Gap(y, b.cy) + Gap(x, b.cx)
      {
        if g[y][x] == b.id {
          break;
        }
        if y != b.cy {
          WalkAdvance(g, old(maze), h, w, a, b, x, y, x, y + dy);
          y := y + dy;
        } else if x != b.cx {
          WalkAdvance(g, old(maze), h, w, a, b, x, y, x + dx, y);
          x := x + dx;
        } else {
          break;
        }
        g := g[y := g[y][x := 1]];
      }
      WalkEnds(g, old(maze), h, w, a, b, x, y);
      maze := g;
    }

    /** Links every room, in list order, to the nearest room not yet processed,
        and records in links which room each one was linked to. */
    method ConnectRooms()
      requires WellFormed(maze, h, w) && Numbered(rooms, h, w)
      requires forall k :: 0 <= k < |rooms| ==> CentreIn(rooms[k], h, w)
      modifies this`maze, this`links
      ensures WellFormed(maze, h, w)
      ensures |links| == |rooms| && LinksIn(rooms, links)
      ensures Scanned(rooms, h, w, links)
      ensures forall i :: 0 <= i < |rooms| ==> (i < |rooms| - 1 <==> links[i].Some?)
      ensures forall i :: 0 <= i < |rooms| && links[i].Some? ==> i < links[i].value
      ensures maze == LinkAll(old(maze), h, w, rooms, links)
    {
      ghost var chosen := LinkEach();
      ScanRunsForward(rooms, h, w, chosen);
      links := chosen;
    }

    /** The loop of ConnectRooms: chosen[i] is the room that room i was linked to. */
    method LinkEach() returns (ghost chosen: seq<Option<nat>>)
      requires WellFormed(maze, h, w) && Numbered(rooms, h, w)
      requires forall k :: 0 <= k < |rooms| ==> CentreIn(rooms[k], h, w)
      modifies this`maze
      ensures WellFormed(maze, h, w)
      ensures |chosen| == |rooms| && LinksIn(rooms, chosen)
      ensures Scanned(rooms, h, w, chosen)
      ensures maze == LinkAll(old(maze), h, w, rooms, chosen)
    {
      var rs := rooms;
      var except: seq<Room> := [];
      chosen := [];
      var i := 0;
      while i < |rs|
        invariant 0 <= i <= |rs| && except == rs[..i] && |chosen| == i
        invariant WellFormed(maze, h, w) && LinksIn(rs, chosen)
        invariant Scanned(rs, h, w, chosen)
        invariant maze == LinkAll(old(maze), h, w, rs, chosen)
      {
        except := except + [rs[i]];
        assert except == rs[..i + 1];
        var nearest := FindNearest(rs[i], except);
        NearestIsLater(rs, h, w, i, nearest);
        if nearest.Some? {
          CreateLink(rs[i], rs[nearest.value]);
        }
        LinkAllSnoc(old(maze), h, w, rs, chosen, nearest);
        ScannedSnoc(rs, h, w, chosen, nearest);
        chosen := chosen + [nearest];
        i := i + 1;
      }
    }

    /** Stamps every room again, in list order. */
    method RestoreMaze()
      requires WellFormed(maze, h, w)
      requires forall k :: 0 <= k < |rooms| ==> Fits(rooms[k], h, w)
      modifies this`maze
      ensures WellFormed(maze, h, w)
      ensures maze == StampAll(old(maze), rooms)
      ensures Separated(rooms) ==>
        forall k, i, j :: 0 <= k < |rooms| && InRect(rooms[k], i, j) && 0 <= i < h && 0 <= j < w ==> maze[i][j] == rooms[k].id
    {
      var i := 0;
      while i < |rooms|
        invariant 0 <= i <= |rooms|
        invariant WellFormed(maze, h, w)
        invariant maze == StampAll(old(maze), rooms[..i])
      {
        AppendRoom(rooms[i]);
        assert rooms[..i + 1][..i] == rooms[..i];
        i := i + 1;
      }
      assert rooms[..i] == rooms;
      if Separated(rooms) {
        forall k, a, b | 0 <= k < |rooms| && InRect(rooms[k], a, b) && 0 <= a < h && 0 <= b < w
          ensures maze[a][b] == rooms[k].id
        {
          StampAllInside(old(maze), rooms, k, a, b);
        }
      }
    }

    /** Picks the spawn room with one random draw; the spawn point is its centre. */
    method SetSpawn()
      requires |rooms| > 0
      modifies this`spawn, this`drawn
      ensures drawn == old(drawn) + 1
      ensures var k := Index(rng(old(drawn)), |rooms|);
        k < |rooms| && spawn == Some(Spawn(rooms[k], rooms[k].cx, rooms[k].cy))
      ensures spawn.Some? && spawn.value.room in rooms
      ensures spawn.value.x == spawn.value.room.cx && spawn.value.y == spawn.value.room.cy
    {
      var r := Random();
      var room := rooms[Index(r, |rooms|)];
      spawn := Some(Spawn(room, room.cx, room.cy));
    }

    /** The rejection loop of spawnObjects: starting from rooms[0], draws room
        indices until one is not in used, giving up after patience draws. */
    method DrawRoom(used: seq<Room>, patience: nat) returns (k: nat)
      requires |rooms| > 0
      modifies this`drawn
      ensures k < |rooms| && old(drawn) <= drawn <= old(drawn) + patience
      ensures drawn == old(drawn) ==> k == 0
      ensures rooms[0] !in used ==> k == 0 && drawn == old(drawn)
      ensures drawn > old(drawn) ==> k == Index(rng(drawn - 1), |rooms|)
      ensures rooms[k] in used ==> drawn == old(drawn) + patience
      ensures Rejected(rooms, used, rng, old(drawn), drawn - 1)
    {
      k := 0;
      var tries := 0;
      while rooms[k] in used && tries < patience
        invariant 0 <= k < |rooms| && tries <= patience
        invariant drawn == old(drawn) + tries && (tries == 0 ==> k == 0)
        invariant rooms[0] !in used ==> tries == 0
        invariant tries > 0 ==> k == Index(rng(drawn - 1), |rooms|)
        invariant Rejected(rooms, used, rng, old(drawn), drawn - 1)
        decreases patience - tries
      {
        var r := Random();
        k := Index(r, |rooms|);
        tries := tries + 1;
      }
    }

    /** One object of spawnObjects: a room drawn by the rejection loop and, when
        that room is not used yet, a point jittered towards its top-left corner. */
    method NextObject(used: seq<Room>, patience: nat) returns (k: nat, p: Point)
      requires |rooms| > 0
      modifies this`drawn
      ensures k < |rooms| && old(drawn) <= drawn
      ensures rooms[0] !in used ==> k == 0
      ensures rooms[k] !in used ==>
        rooms[k].cx - rooms[k].w / 4 <= p.x <= rooms[k].cx && rooms[k].cy - rooms[k].h / 4 <= p.y <= rooms[k].cy
      ensures rooms[k] in used ==> drawn == old(drawn) + patience && (patience == 0 ==> k == 0)
      ensures rooms[k] in used && patience > 0 ==> k == Index(rng(drawn - 1), |rooms|)
      ensures rooms[k] in used ==> Rejected(rooms, used, rng, old(drawn), drawn - 1)
    {
      k := DrawRoom(used, patience);
      p := Point(0, 0);
      if rooms[k] !in used {
        var room := rooms[k];
        var rx := Random();
        var ry := Random();
        p := Point(room.cx + Jitter(rx, room.w), room.cy + Jitter(ry, room.h));
      }
    }

    /** Chooses up to count object positions, one per room, never in the
        spawn room and never twice in the same room. The first candidate is
        the first room; a used room is replaced by random rooms until an
        unused one comes up, at most `patience` draws per object. Each
        position is the room's centre moved up and left by a random offset of
        at most a quarter of the room's side. */
    method SpawnObjects(count: int, patience: nat) returns (points: seq<Point>, complete: bool, ghost sources: seq<nat>)
      requires Valid() && spawn.Some?
      modifies this`objects, this`drawn
      ensures objects == points && |sources| == |points|
      ensures |points| <= Max(0, Min(count, |rooms| - 1))
      ensures complete ==> |points| == Max(0, Min(count, |rooms| - 1))
      ensures Scattered(rooms, spawn.value.room, sources, points)
      ensures |sources| > 0 && rooms[0] != spawn.value.room ==> sources[0] == 0
      ensures !complete ==> |points| < Max(0, Min(count, |rooms| - 1)) && old(drawn) + patience <= drawn
      ensures !complete ==> AllTakenFrom(rooms, spawn.value.room, sources, rng, drawn - patience, patience)
    {
      var rs, avoid := rooms, spawn.value.room;
      var n := count;
      if n >= |rs| - 1 {
        n := |rs| - 1;
      }
      var used := [avoid];
      points := [];
      sources := [];
      complete := true;
      var i := 0;
      while complete && i < n
        invariant 0 <= i && |points| == |sources| == i && i <= Max(0, n)
        invariant Scattered(rs, avoid, sources, points)
        invariant |sources| > 0 && rs[0] != avoid ==> sources[0] == 0
        invariant Used(rs, avoid, sources, used)
        invariant old(drawn) <= drawn
        invariant !complete ==> i < n && old(drawn) + patience <= drawn
        invariant !complete ==> AllTakenFrom(rs, avoid, sources, rng, drawn - patience, patience)
        decreases n - i, complete
      {
        assert i == 0 ==> used == [avoid];
        var k, p := NextObject(used, patience);
        if rs[k] in used {
          AllTaken(rs, avoid, sources, used, rng, drawn - patience, patience, k);
          complete := false;
        } else {
          var room := rs[k];
          ScatterOne(rs, avoid, sources, points, used, k, p);
          points := points + [p];
          sources := sources + [k];
          used := used + [room];
          i := i + 1;
        }
      }
      objects := points;
    }
  }

  /** rs is the list of rooms that the placement attempts ps produced, in order. */
  ghost predicate Outcomes(ps: seq<Placement>, rs: seq<Room>)
    decreases |ps|
  {
    if ps == [] then rs == []
    else
      var last := ps[|ps| - 1];
      if last.Placed? then |rs| > 0 && rs[|rs| - 1] == last.room && Outcomes(ps[..|ps| - 1], rs[..|rs| - 1])
      else Outcomes(ps[..|ps| - 1], rs)
  }

  /** One more attempt adds its room, if it placed one, after the others. */
  lemma OutcomesSnoc(ps: seq<Placement>, rs: seq<Room>, p: Placement)
    requires Outcomes(ps, rs)
    ensures Outcomes(ps + [p], if p.Placed? then rs + [p.room] else rs)
  {
    assert (ps + [p])[..|ps|] == ps;
    if p.Placed? {
      assert (rs + [p.room])[..|rs|] == rs;
    }
  }

  /** Object a sits in room sources[a], which is not the avoided room, at most a
      quarter of the room's side above and left of its centre; no two objects
      share a room. */
  ghost predicate Scattered(rs: seq<Room>, avoid: Room, sources: seq<nat>, points: seq<Point>)
  {
    && |sources| == |points|
    && (forall a :: 0 <= a < |sources| ==>
      && sources[a] < |rs|
      && rs[sources[a]] != avoid
      && rs[sources[a]].cx - rs[sources[a]].w / 4 <= points[a].x <= rs[sources[a]].cx
      && rs[sources[a]].cy - rs[sources[a]].h / 4 <= points[a].y <= rs[sources[a]].cy)
    && (forall a, b :: 0 <= a < b < |sources| ==> rs[sources[a]] != rs[sources[b]])
  }

  /** The used list is the avoided room followed by the rooms already holding an object. */
  ghost predicate Used(rs: seq<Room>, avoid: Room, sources: seq<nat>, used: seq<Room>)
  {
    && |used| == |sources| + 1 && used[0] == avoid
    && forall a :: 0 <= a < |sources| ==> sources[a] < |rs| && used[a + 1] == rs[sources[a]]
  }

  /** Room k is the avoided room or already holds an object. */
  ghost predicate Taken(rs: seq<Room>, avoid: Room, sources: seq<nat>, k: nat)
  {
    k < |rs| && (rs[k] == avoid || exists a :: 0 <= a < |sources| && sources[a] < |rs| && rs[sources[a]] == rs[k])
  }

  /** A room found in the used list is taken. */
  lemma UsedTaken(rs: seq<Room>, avoid: Room, sources: seq<nat>, used: seq<Room>, k: nat)
    requires Used(rs, avoid, sources, used) && k < |rs| && rs[k] in used
    ensures Taken(rs, avoid, sources, k)
  {
    var m :| 0 <= m < |used| && used[m] == rs[k];
    if m > 0 {
      assert sources[m - 1] < |rs| && rs[sources[m - 1]] == rs[k];
    }
  }

  /** Every draw read from rng at positions [from, to) names a room in used. */
  ghost predicate Rejected(rs: seq<Room>, used: seq<Room>, rng: nat -> Unit, from: int, to: int)
  {
    forall t: nat :: from <= t < to ==> Index(rng(t), |rs|) < |rs| && rs[Index(rng(t), |rs|)] in used
  }

  /** Each of the count draws read from rng at d, d + 1, … names a taken room,
      and with no draw at all, rooms[0] is taken. */
  ghost predicate AllTakenFrom(rs: seq<Room>, avoid: Room, sources: seq<nat>, rng: nat -> Unit, d: int, count: nat)
  {
    && (forall t: nat :: d <= t < d + count ==> Taken(rs, avoid, sources, Index(rng(t), |rs|)))
    && (count == 0 ==> Taken(rs, avoid, sources, 0))
  }

  /** When the rejection loop gives up, each of its patience draws, read from
      rng at d, d + 1, …, named a taken room; with no draw, rooms[0] was taken. */
  lemma AllTaken(rs: seq<Room>, avoid: Room, sources: seq<nat>, used: seq<Room>, rng: nat -> Unit, d: nat, patience: nat, k: nat)
    requires Used(rs, avoid, sources, used) && k < |rs| && rs[k] in used
    requires patience == 0 ==> k == 0
    requires patience > 0 ==> k == Index(rng(d + patience - 1), |rs|)
    requires Rejected(rs, used, rng, d, d + patience - 1)
    ensures AllTakenFrom(rs, avoid, sources, rng, d, patience)
  {
    UsedTaken(rs, avoid, sources, used, k);
    forall t | d <= t < d + patience
      ensures Taken(rs, avoid, sources, Index(rng(t), |rs|))
    {
      if t < d + patience - 1 {
        UsedTaken(rs, avoid, sources, used, Index(rng(t), |rs|));
      }
    }
  }

  /** Adding an object in a room that is not yet used keeps the objects scattered. */
  lemma ScatterOne(rs: seq<Room>, avoid: Room, sources: seq<nat>, points: seq<Point>, used: seq<Room>, k: nat, p: Point)
    requires Scattered(rs, avoid, sources, points) && Used(rs, avoid, sources, used)
    requires k < |rs| && rs[k] !in used
    requires rs[k].cx - rs[k].w / 4 <= p.x <= rs[k].cx && rs[k].cy - rs[k].h / 4 <= p.y <= rs[k].cy
    ensures Scattered(rs, avoid, sources + [k], points + [p])
    ensures Used(rs, avoid, sources + [k], used + [rs[k]])
  {
    var s' := sources + [k];
    forall a, b | 0 <= a < b < |s'|
      ensures rs[s'[a]] != rs[s'[b]]
    {
      if b == |sources| {
        assert used[a + 1] == rs[s'[a]];
      }
    }
  }
}
