/** The dungeon's values: rooms, points, the spawn record and the cell grid,
    with the rectangle geometry that room placement and stamping rely on. */
module Layout {

  datatype Option<T> = None | Some(value: T)

  /** A room: its id (2, 3, 4, ... in creation order), top-left corner (x, y),
      width w, height h and centre (cx, cy). */
  datatype Room = Room(id: int, x: int, y: int, w: nat, h: nat, cx: int, cy: int)

  datatype Point = Point(x: int, y: int)

  /** The chosen starting room and the coordinate inside it. */
  datatype Spawn = Spawn(room: Room, x: int, y: int)

  /** Rows of cells: 0 is empty, 1 is corridor, an id >= 2 is the interior of that room. */
  type Grid = seq<seq<int>>

  function Min(a: int, b: int): int { if a < b then a else b }

  function Max(a: int, b: int): int { if a < b then b else a }

  /** g has H rows of W cells each. */
  predicate WellFormed(g: Grid, H: nat, W: nat)
  {
    |g| == H && forall i :: 0 <= i < H ==> |g[i]| == W
  }

  predicate AllZero(g: Grid)
  {
    forall i, j :: 0 <= i < |g| && 0 <= j < |g[i]| ==> g[i][j] == 0
  }

  /** Cell (row i, column j) lies in the room's rectangle. */
  predicate InRect(r: Room, i: int, j: int)
  {
    r.y <= i < r.y + r.h && r.x <= j < r.x + r.w
  }

  /** Cell (i, j) lies in the room's rectangle inflated by one cell on every side. */
  predicate InMargin(r: Room, i: int, j: int)
  {
    r.y - 1 <= i < r.y + r.h + 1 && r.x - 1 <= j < r.x + r.w + 1
  }

  /** Some non-empty cell of the grid lies in the room's inflated rectangle. */
  ghost predicate Colliding(g: Grid, H: nat, W: nat, r: Room)
    requires WellFormed(g, H, W)
  {
    exists i, j :: 0 <= i < H && 0 <= j < W && InMargin(r, i, j) && g[i][j] != 0
  }

  /** The centre is floor(x + w/2), floor(y + h/2). */
  predicate Centred(r: Room)
  {
    r.cx == r.x + r.w / 2 && r.cy == r.y + r.h / 2
  }

  /** A non-empty room whose rectangle lies inside the grid, away from row and column 0. */
  predicate Fits(r: Room, H: nat, W: nat)
  {
    1 <= r.x && 1 <= r.y && 1 <= r.w && 1 <= r.h && r.x + r.w <= W && r.y + r.h <= H
  }

  /** No room's rectangle meets the inflated rectangle of a room placed after it. */
  ghost predicate Separated(rs: seq<Room>)
  {
    forall a, b, i, j :: 0 <= a < b < |rs| && InRect(rs[a], i, j) ==> !InMargin(rs[b], i, j)
  }

  /** Ids 2, 3, 4, ... in list order, every room centred and inside the grid. */
  predicate Numbered(rs: seq<Room>, H: nat, W: nat)
  {
    forall k :: 0 <= k < |rs| ==> rs[k].id == k + 2 && Fits(rs[k], H, W) && Centred(rs[k])
  }

  /** Every room has sides drawn from [size/2, size) and was swept to a column
      that is either the first one or leaves the room ending before column W - 1,
      and likewise for its row. */
  predicate Sized(rs: seq<Room>, size: nat, H: nat, W: nat)
  {
    forall k :: 0 <= k < |rs| ==>
      && size / 2 <= rs[k].w < size && size / 2 <= rs[k].h < size
      && (rs[k].x == 1 || rs[k].x + rs[k].w < W - 1)
      && (rs[k].y == 1 || rs[k].y + rs[k].h < H - 1)
  }

  /** Appending a room of the drawn size at a swept position keeps the list sized. */
  lemma SizedSnoc(rs: seq<Room>, size: nat, H: nat, W: nat, r: Room)
    requires Sized(rs, size, H, W)
    requires size / 2 <= r.w < size && size / 2 <= r.h < size
    requires (r.x == 1 || r.x + r.w < W - 1) && (r.y == 1 || r.y + r.h < H - 1)
    ensures Sized(rs + [r], size, H, W)
  {
    forall k | 0 <= k < |rs + [r]|
      ensures size / 2 <= (rs + [r])[k].w < size
    {
      if k < |rs| {
        assert (rs + [r])[k] == rs[k];
      }
    }
  }

  /** When rooms are drawn smaller than the grid, a sized room list keeps the
      last row and the last column free of rooms. */
  lemma SizedLeavesBorder(rs: seq<Room>, size: nat, H: nat, W: nat)
    requires Sized(rs, size, H, W) && size < H && size < W
    ensures forall k :: 0 <= k < |rs| ==> rs[k].x + rs[k].w < W && rs[k].y + rs[k].h < H
  {
  }

  /** The room list the generator keeps: numbered, and rooms pairwise separated. */
  ghost predicate WellPlaced(rs: seq<Room>, H: nat, W: nat)
  {
    Numbered(rs, H, W) && Separated(rs)
  }

  /** The grid with the room's rectangle (clipped to the grid) set to the room's id. */
  function Stamp(g: Grid, r: Room): (g': Grid)
    ensures |g'| == |g| && forall i :: 0 <= i < |g| ==> |g'[i]| == |g[i]|
  {
    seq(|g|, i requires 0 <= i < |g| =>
      seq(|g[i]|, j requires 0 <= j < |g[i]| => if InRect(r, i, j) then r.id else g[i][j]))
  }

  /** The grid after stamping every room of rs, in list order. */
  function StampAll(g: Grid, rs: seq<Room>): (g': Grid)
    ensures |g'| == |g| && forall i :: 0 <= i < |g| ==> |g'[i]| == |g[i]|
  {
    if rs == [] then g else Stamp(StampAll(g, rs[..|rs| - 1]), rs[|rs| - 1])
  }

  /** Two grids of the same shape that agree on every cell are equal. */
  lemma GridExt(g1: Grid, g2: Grid, H: nat, W: nat)
    requires WellFormed(g1, H, W) && WellFormed(g2, H, W)
    requires forall i, j :: 0 <= i < H && 0 <= j < W ==> g1[i][j] == g2[i][j]
    ensures g1 == g2
  {
    forall i | 0 <= i < H
      ensures g1[i] == g2[i]
    {
      assert forall j :: 0 <= j < W ==> g1[i][j] == g2[i][j];
    }
  }

  /** Once rooms are separated, stamping them all leaves each cell of each
      room's rectangle holding that room's id, whatever the grid held before. */
  lemma {:induction false} StampAllInside(g: Grid, rs: seq<Room>, k: int, i: int, j: int)
    requires Separated(rs)
    requires 0 <= k < |rs| && InRect(rs[k], i, j)
    requires 0 <= i < |g| && 0 <= j < |g[i]|
    ensures StampAll(g, rs)[i][j] == rs[k].id
  {
    var n := |rs| - 1;
    var prefix := rs[..n];
    if k < n {
      assert !InMargin(rs[n], i, j);
      assert prefix[k] == rs[k];
      assert Separated(prefix) by {
        forall a, b, i', j' | 0 <= a < b < |prefix| && InRect(prefix[a], i', j')
          ensures !InMargin(prefix[b], i', j')
        {
          assert prefix[a] == rs[a] && prefix[b] == rs[b];
        }
      }
      StampAllInside(g, prefix, k, i, j);
    }
  }

  /** A room that does not collide with a grid in which every earlier room's
      cells are occupied keeps the room list separated when appended. */
  lemma PlacementSeparates(g: Grid, H: nat, W: nat, rs: seq<Room>, r: Room)
    requires WellFormed(g, H, W) && Separated(rs)
    requires forall k :: 0 <= k < |rs| ==> Fits(rs[k], H, W)
    requires forall k, i, j :: 0 <= k < |rs| && InRect(rs[k], i, j) && 0 <= i < H && 0 <= j < W ==> g[i][j] != 0
    requires !Colliding(g, H, W, r)
    ensures Separated(rs + [r])
  {
    var rs' := rs + [r];
    forall a, b, i, j | 0 <= a < b < |rs'| && InRect(rs'[a], i, j)
      ensures !InMargin(rs'[b], i, j)
    {
      if b < |rs| {
        assert rs'[a] == rs[a] && rs'[b] == rs[b];
      } else {
        assert rs'[a] == rs[a] && rs'[b] == r;
        assert g[i][j] != 0;
        if InMargin(r, i, j) {
          assert false;
        }
      }
    }
  }

  /** Appending a centred, fitting room with the next id that does not collide
      with the stamped grid keeps the room list well placed, and stamping the
      longer list is stamping the new room last. */
  lemma PlaceRoom(g0: Grid, H: nat, W: nat, rs: seq<Room>, r: Room)
    requires WellFormed(g0, H, W) && WellPlaced(rs, H, W)
    requires Fits(r, H, W) && Centred(r) && r.id == |rs| + 2
    requires !Colliding(StampAll(g0, rs), H, W, r)
    ensures WellPlaced(rs + [r], H, W)
    ensures StampAll(g0, rs + [r]) == Stamp(StampAll(g0, rs), r)
  {
    var g := StampAll(g0, rs);
    forall k, i, j | 0 <= k < |rs| && InRect(rs[k], i, j) && 0 <= i < H && 0 <= j < W
      ensures g[i][j] != 0
    {
      StampAllInside(g0, rs, k, i, j);
    }
    PlacementSeparates(g, H, W, rs, r);
    assert (rs + [r])[..|rs|] == rs;
  }
}
