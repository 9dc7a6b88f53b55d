/** Corridor carving: choosing the room to link each room to, and the L-shaped
    path of corridor cells between two room centres. */
module Corridors {
  import opened Layout

  /** Squared distance between the two room centres. */
  function Dist2(a: Room, b: Room): int
  {
    (a.cx - b.cx) * (a.cx - b.cx) + (a.cy - b.cy) * (a.cy - b.cy)
  }

  /** The square of the search's initial threshold h * w. */
  function Reach(H: nat, W: nat): int
  {
    (H * W) * (H * W)
  }

  /** Room k is a candidate neighbour of `from`: not excluded, and strictly
      closer than the threshold. */
  ghost predicate Eligible(rs: seq<Room>, from: Room, except: seq<Room>, limit: int, k: int)
  {
    0 <= k < |rs| && rs[k] !in except && Dist2(from, rs[k]) < limit
  }

  /** `r` is what the nearest-room scan yields: None when no room is eligible,
      otherwise an eligible room at least as close as every eligible room and
      strictly closer than every eligible room before it in the list. */
  ghost predicate NearestChoice(rs: seq<Room>, from: Room, except: seq<Room>, limit: int, r: Option<nat>)
  {
    match r
    case None =>
      forall k :: 0 <= k < |rs| ==> !Eligible(rs, from, except, limit, k)
    case Some(n) =>
      Eligible(rs, from, except, limit, n)
      && (forall k :: Eligible(rs, from, except, limit, k) ==> Dist2(from, rs[n]) <= Dist2(from, rs[k]))
      && (forall k :: 0 <= k < n && Eligible(rs, from, except, limit, k) ==> Dist2(from, rs[n]) < Dist2(from, rs[k]))
  }

  /** v lies after s, up to and including t, on the way from s to t. */
  predicate Between(s: int, v: int, t: int)
  {
    (s < v <= t) || (t <= v < s)
  }

  /** v lies on the closed segment between s and t. */
  predicate Within(s: int, v: int, t: int)
  {
    (s <= v <= t) || (t <= v <= s)
  }

  /** (x, y) is a point the walk from a's centre to b's centre passes: on
      column a.cx between the two rows, or on row b.cy between the two columns. */
  predicate OnTheWay(a: Room, b: Room, x: int, y: int)
  {
    (x == a.cx && Within(a.cy, y, b.cy)) || (y == b.cy && Within(a.cx, x, b.cx))
  }

  /** Cell (i, j) has been entered by the walk once it stands at (x, y). */
  predicate Carved(a: Room, b: Room, x: int, y: int, i: int, j: int)
  {
    (j == a.cx && Between(a.cy, i, y)) || (i == b.cy && Between(a.cx, j, x))
  }

  /** Cell (i, j) is on the L-shaped path from a's centre to b's centre: first
      along column a.cx to row b.cy, then along row b.cy to column b.cx.
      a's centre is excluded, b's centre included. */
  predicate OnPath(a: Room, b: Room, i: int, j: int)
  {
    Carved(a, b, b.cx, b.cy, i, j)
  }

  /** A vertical step of the walk enters exactly one new cell, moves away from
      a's centre and stays on the way. */
  lemma VerticalStep(a: Room, b: Room, x: int, y: int)
    requires OnTheWay(a, b, x, y) && y != b.cy
    ensures var y' := y + (if a.cy > b.cy then -1 else 1);
      && x == a.cx && OnTheWay(a, b, x, y') && y' != a.cy
      && forall i, j :: Carved(a, b, x, y', i, j) <==> Carved(a, b, x, y, i, j) || (i == y' && j == x)
  {
    var y' := y + (if a.cy > b.cy then -1 else 1);
    forall i, j
      ensures Carved(a, b, x, y', i, j) <==> Carved(a, b, x, y, i, j) || (i == y' && j == x)
    {
      assert Between(a.cy, i, y') <==> Between(a.cy, i, y) || i == y';
    }
  }

  /** A horizontal step of the walk, on b's row, does the same. */
  lemma HorizontalStep(a: Room, b: Room, x: int, y: int)
    requires OnTheWay(a, b, x, y) && y == b.cy && x != b.cx
    ensures var x' := x + (if a.cx > b.cx then -1 else 1);
      && OnTheWay(a, b, x', y) && x' != a.cx
      && forall i, j :: Carved(a, b, x', y, i, j) <==> Carved(a, b, x, y, i, j) || (i == y && j == x')
  {
    var x' := x + (if a.cx > b.cx then -1 else 1);
    forall i, j
      ensures Carved(a, b, x', y, i, j) <==> Carved(a, b, x, y, i, j) || (i == y && j == x')
    {
      assert Between(a.cx, j, x') <==> Between(a.cx, j, x) || j == x';
    }
  }

  /** g is g0 with every cell the walk has entered, standing at (x, y), set to corridor. */
  ghost predicate Walked(g: Grid, g0: Grid, H: nat, W: nat, a: Room, b: Room, x: int, y: int)
    requires WellFormed(g, H, W) && WellFormed(g0, H, W)
  {
    forall i, j :: 0 <= i < H && 0 <= j < W ==> g[i][j] == if Carved(a, b, x, y, i, j) then 1 else g0[i][j]
  }

  /** Marking the cell a step enters extends the walk by that step. */
  lemma WalkStep(g: Grid, g0: Grid, H: nat, W: nat, a: Room, b: Room, x: int, y: int, x': int, y': int)
    requires WellFormed(g, H, W) && WellFormed(g0, H, W) && Walked(g, g0, H, W, a, b, x, y)
    requires 0 <= y' < H && 0 <= x' < W
    requires forall i, j :: Carved(a, b, x', y', i, j) <==> Carved(a, b, x, y, i, j) || (i == y' && j == x')
    ensures WellFormed(g[y' := g[y'][x' := 1]], H, W)
    ensures Walked(g[y' := g[y'][x' := 1]], g0, H, W, a, b, x', y')
  {
  }

  /** A walk that has reached b's centre has carved the whole path. */
  lemma WalkComplete(g: Grid, g0: Grid, H: nat, W: nat, a: Room, b: Room)
    requires WellFormed(g, H, W) && WellFormed(g0, H, W) && Walked(g, g0, H, W, a, b, b.cx, b.cy)
    ensures g == Carve(g0, a, b)
  {
    GridExt(g, Carve(g0, a, b), H, W);
  }

  /** A walk still at a's centre has changed nothing. */
  lemma WalkNotStarted(g: Grid, g0: Grid, H: nat, W: nat, a: Room, b: Room)
    requires WellFormed(g, H, W) && WellFormed(g0, H, W) && Walked(g, g0, H, W, a, b, a.cx, a.cy)
    ensures g == g0
  {
    GridExt(g, g0, H, W);
  }

  /** The distance between s and t on one axis. */
  function Gap(s: int, t: int): nat
  {
    if s < t then t - s else s - t
  }

  /** Where the walk goes from (x, y): along a's column towards b's row, then
      along b's row towards b's column. */
  function Step(a: Room, b: Room, x: int, y: int): Point
  {
    if y != b.cy then Point(x, y + (if a.cy > b.cy then -1 else 1))
    else Point(x + (if a.cx > b.cx then -1 else 1), y)
  }

  /** The state of the walk from a to b over the grid g0, standing at (x, y):
      it has carved exactly the cells it entered, it stands on the way inside the
      grid, and once it has left a's centre it stands on a corridor and a's
      centre did not hold b's id. */
  ghost predicate Walking(g: Grid, g0: Grid, H: nat, W: nat, a: Room, b: Room, x: int, y: int)
  {
    && WellFormed(g, H, W) && WellFormed(g0, H, W)
    && CentreIn(a, H, W) && OnTheWay(a, b, x, y) && 0 <= y < H && 0 <= x < W
    && Walked(g, g0, H, W, a, b, x, y)
    && ((x != a.cx || y != a.cy) ==> g[y][x] == 1 && g0[a.cy][a.cx] != b.id)
  }

  /** A step taken from a cell that does not hold b's id, before reaching b's
      centre, keeps the walk's state, with the entered cell now a corridor. */
  lemma WalkAdvance(g: Grid, g0: Grid, H: nat, W: nat, a: Room, b: Room, x: int, y: int, x': int, y': int)
    requires CentreIn(a, H, W) && CentreIn(b, H, W)
    requires Walking(g, g0, H, W, a, b, x, y) && g[y][x] != b.id && (y != b.cy || x != b.cx)
    requires Point(x', y') == Step(a, b, x, y)
    ensures 0 <= y' < H && 0 <= x' < W && Walking(g[y' := g[y'][x' := 1]], g0, H, W, a, b, x', y')
  {
    var p := Step(a, b, x, y);
    if y != b.cy {
      VerticalStep(a, b, x, y);
    } else {
      HorizontalStep(a, b, x, y);
    }
    WalkStep(g, g0, H, W, a, b, x, y, p.x, p.y);
    if x == a.cx && y == a.cy {
      assert !Carved(a, b, x, y, y, x);
    }
  }

  /** The walk stops at a cell holding b's id or at b's centre; either way the
      grid is then the link from a to b. */
  lemma WalkEnds(g: Grid, g0: Grid, H: nat, W: nat, a: Room, b: Room, x: int, y: int)
    requires CentreIn(a, H, W) && b.id != 1
    requires Walking(g, g0, H, W, a, b, x, y) && (g[y][x] == b.id || (x == b.cx && y == b.cy))
    ensures g == Link(g0, H, W, a, b)
  {
    if x == a.cx && y == a.cy {
      assert !Carved(a, b, x, y, y, x);
    }
    if g0[a.cy][a.cx] == b.id {
      WalkNotStarted(g, g0, H, W, a, b);
    } else {
      WalkComplete(g, g0, H, W, a, b);
    }
  }

  /** The grid with every cell of the path from a to b set to corridor. */
  function Carve(g: Grid, a: Room, b: Room): (g': Grid)
    ensures |g'| == |g| && forall i :: 0 <= i < |g| ==> |g'[i]| == |g[i]|
  {
    seq(|g|, i requires 0 <= i < |g| =>
      seq(|g[i]|, j requires 0 <= j < |g[i]| => if OnPath(a, b, i, j) then 1 else g[i][j]))
  }

  /** The centre of the room lies in the grid. */
  predicate CentreIn(r: Room, H: nat, W: nat)
  {
    0 <= r.cy < H && 0 <= r.cx < W
  }

  /** Linking a to b: nothing when a's centre already holds b's id, the path otherwise. */
  function Link(g: Grid, H: nat, W: nat, a: Room, b: Room): (g': Grid)
    requires WellFormed(g, H, W) && CentreIn(a, H, W)
  {
    if g[a.cy][a.cx] == b.id then g else Carve(g, a, b)
  }

  /** Every recorded link names a room of the list. */
  predicate LinksIn(rs: seq<Room>, links: seq<Option<nat>>)
  {
    |links| <= |rs| && forall m :: 0 <= m < |links| && links[m].Some? ==> links[m].value < |rs|
  }

  /** The grid after linking room m to room links[m] for every m, in order. */
  function LinkAll(g: Grid, H: nat, W: nat, rs: seq<Room>, links: seq<Option<nat>>): (g': Grid)
    requires WellFormed(g, H, W) && LinksIn(rs, links)
    requires forall k :: 0 <= k < |rs| ==> CentreIn(rs[k], H, W)
    ensures WellFormed(g', H, W)
  {
    if links == [] then g
    else
      var n := |links| - 1;
      var before := LinkAll(g, H, W, rs, links[..n]);
      match links[n]
      case None => before
      case Some(k) => Link(before, H, W, rs[n], rs[k])
  }

  /** Every room's centre cell holds the room's id or a corridor. */
  ghost predicate CentresMarked(g: Grid, rs: seq<Room>)
    requires forall k :: 0 <= k < |rs| ==> 0 <= rs[k].cy < |g| && 0 <= rs[k].cx < |g[rs[k].cy]|
  {
    forall k :: 0 <= k < |rs| ==> g[rs[k].cy][rs[k].cx] in {rs[k].id, 1}
  }

  /** A room of the list lies in the grid together with its centre. */
  lemma CentreInside(r: Room, H: nat, W: nat)
    requires Fits(r, H, W) && Centred(r)
    ensures InRect(r, r.cy, r.cx) && CentreIn(r, H, W)
  {
  }

  /** Two centres inside an H x W grid are closer than h * w, so the threshold
      never hides a room. */
  lemma DistanceBelowReach(a: Room, b: Room, H: nat, W: nat)
    requires CentreIn(a, H, W) && CentreIn(b, H, W)
    ensures Dist2(a, b) < Reach(H, W)
  {
    var dx := if a.cx < b.cx then b.cx - a.cx else a.cx - b.cx;
    var dy := if a.cy < b.cy then b.cy - a.cy else a.cy - b.cy;
    SquareOfDifference(a.cx, b.cx, dx);
    SquareOfDifference(a.cy, b.cy, dy);
    SumOfSquares(dx, dy);
    ProductBound(H, W);
    SquareStrict(dx + dy, H * W);
  }

  lemma SquareOfDifference(u: int, v: int, d: int)
    requires d == u - v || d == v - u
    ensures (u - v) * (u - v) == d * d
  {
  }

  lemma SumOfSquares(dx: int, dy: int)
    requires 0 <= dx && 0 <= dy
    ensures dx * dx + dy * dy <= (dx + dy) * (dx + dy)
  {
    assert (dx + dy) * (dx + dy) == dx * dx + 2 * (dx * dy) + dy * dy;
  }

  lemma ProductBound(H: int, W: int)
    requires 1 <= H && 1 <= W
    ensures (H - 1) + (W - 1) < H * W
  {
    assert H * W == (H - 1) * (W - 1) + (H - 1) + (W - 1) + 1;
  }

  lemma SquareStrict(s: int, t: int)
    requires 0 <= s < t
    ensures s * s < t * t
  {
    assert s * s <= s * t;
    assert s * t < t * t;
  }

  /** The `except` list built so far holds exactly the first i + 1 rooms, so a
      room is excluded exactly when its index is at most i. */
  lemma ExceptIsPrefix(rs: seq<Room>, i: int, k: int)
    requires forall m :: 0 <= m < |rs| ==> rs[m].id == m + 2
    requires 0 <= i < |rs| && 0 <= k < |rs|
    ensures rs[k] in rs[..i + 1] <==> k <= i
  {
    if k <= i {
      assert rs[..i + 1][k] == rs[k];
    }
    if rs[k] in rs[..i + 1] {
      var m :| 0 <= m < i + 1 && rs[..i + 1][m] == rs[k];
      assert rs[m].id == rs[k].id;
    }
  }

  /** Every room but the last is linked, and always to a room after it in the
      list; the last room is linked to nothing. */
  lemma NearestIsLater(rs: seq<Room>, H: nat, W: nat, i: int, r: Option<nat>)
    requires Numbered(rs, H, W)
    requires 0 <= i < |rs|
    requires NearestChoice(rs, rs[i], rs[..i + 1], Reach(H, W), r)
    ensures i < |rs| - 1 <==> r.Some?
    ensures r.Some? ==> i < r.value < |rs|
  {
    if i < |rs| - 1 {
      CentreInside(rs[i], H, W);
      CentreInside(rs[i + 1], H, W);
      DistanceBelowReach(rs[i], rs[i + 1], H, W);
      ExceptIsPrefix(rs, i, i + 1);
      assert Eligible(rs, rs[i], rs[..i + 1], Reach(H, W), i + 1);
    } else if r.Some? {
      ExceptIsPrefix(rs, i, r.value);
      assert false;
    }
    if r.Some? {
      ExceptIsPrefix(rs, i, r.value);
    }
  }

  /** Linking room n to another room k of a list whose centres are marked: the
      stop check fails at n's centre, and the centres stay marked afterwards. */
  lemma LinkKeepsMarks(g: Grid, H: nat, W: nat, rs: seq<Room>, n: int, k: int)
    requires WellFormed(g, H, W) && Numbered(rs, H, W)
    requires 0 <= n < |rs| && 0 <= k < |rs| && n != k
    requires forall q :: 0 <= q < |rs| ==> CentreIn(rs[q], H, W)
    requires CentresMarked(g, rs)
    ensures g[rs[n].cy][rs[n].cx] != rs[k].id
    ensures CentresMarked(Link(g, H, W, rs[n], rs[k]), rs)
  {
    var after := Carve(g, rs[n], rs[k]);
    forall q | 0 <= q < |rs|
      ensures after[rs[q].cy][rs[q].cx] in {rs[q].id, 1}
    {
      assert g[rs[q].cy][rs[q].cx] in {rs[q].id, 1};
    }
  }

  /** When every centre holds its room's id or a corridor and no room links to
      itself, the check that stops a link early never succeeds: each link runs
      its whole path, and the centres stay marked. */
  lemma {:induction false} LinksRunToTheEnd(g: Grid, H: nat, W: nat, rs: seq<Room>, links: seq<Option<nat>>)
    requires WellFormed(g, H, W) && Numbered(rs, H, W) && LinksIn(rs, links)
    requires forall m :: 0 <= m < |links| ==> links[m] != Some(m)
    requires forall k :: 0 <= k < |rs| ==> CentreIn(rs[k], H, W)
    requires CentresMarked(g, rs)
    ensures CentresMarked(LinkAll(g, H, W, rs, links), rs)
    ensures forall m :: 0 <= m < |links| && links[m].Some? ==>
      LinkAll(g, H, W, rs, links[..m])[rs[m].cy][rs[m].cx] != rs[links[m].value].id
  {
    if links != [] {
      var n := |links| - 1;
      var prefix := links[..n];
      assert links == prefix + [links[n]];
      LinksRunToTheEnd(g, H, W, rs, prefix);
      LinkAllSnoc(g, H, W, rs, prefix, links[n]);
      var before := LinkAll(g, H, W, rs, prefix);
      if links[n].Some? {
        LinkKeepsMarks(before, H, W, rs, n, links[n].value);
      }
      forall m | 0 <= m < |links| && links[m].Some?
        ensures LinkAll(g, H, W, rs, links[..m])[rs[m].cy][rs[m].cx] != rs[links[m].value].id
      {
        if m < n {
          assert links[..m] == prefix[..m];
          assert prefix[m] == links[m];
        } else {
          assert links[..m] == prefix;
        }
      }
    }
  }

  /** Linking one more room extends the links made so far. */
  lemma LinkAllSnoc(g: Grid, H: nat, W: nat, rs: seq<Room>, links: seq<Option<nat>>, next: Option<nat>)
    requires WellFormed(g, H, W) && LinksIn(rs, links) && |links| < |rs|
    requires next.Some? ==> next.value < |rs|
    requires forall k :: 0 <= k < |rs| ==> CentreIn(rs[k], H, W)
    ensures LinksIn(rs, links + [next])
    ensures LinkAll(g, H, W, rs, links + [next]) ==
      match next
      case None => LinkAll(g, H, W, rs, links)
      case Some(k) => Link(LinkAll(g, H, W, rs, links), H, W, rs[|links|], rs[k])
  {
    var links' := links + [next];
    assert links'[..|links|] == links;
  }

  /** Entry m of links is the nearest-room choice made for room m, whose
      excluded rooms are the first m + 1 of the list. */
  ghost predicate Scanned(rs: seq<Room>, H: nat, W: nat, links: seq<Option<nat>>)
    requires |links| <= |rs|
  {
    forall m :: 0 <= m < |links| ==> NearestChoice(rs, rs[m], rs[..m + 1], Reach(H, W), links[m])
  }

  /** Recording the choice for the next room extends a scan. */
  lemma ScannedSnoc(rs: seq<Room>, H: nat, W: nat, links: seq<Option<nat>>, next: Option<nat>)
    requires |links| < |rs| && Scanned(rs, H, W, links)
    requires NearestChoice(rs, rs[|links|], rs[..|links| + 1], Reach(H, W), next)
    ensures Scanned(rs, H, W, links + [next])
  {
    var links' := links + [next];
    forall m | 0 <= m < |links'|
      ensures NearestChoice(rs, rs[m], rs[..m + 1], Reach(H, W), links'[m])
    {
      if m < |links| {
        assert links'[m] == links[m];
      }
    }
  }

  /** A complete scan links every room but the last, each to a later room. */
  lemma ScanRunsForward(rs: seq<Room>, H: nat, W: nat, links: seq<Option<nat>>)
    requires Numbered(rs, H, W) && |links| == |rs| && Scanned(rs, H, W, links)
    ensures forall i :: 0 <= i < |rs| ==> (i < |rs| - 1 <==> links[i].Some?)
    ensures forall i :: 0 <= i < |rs| && links[i].Some? ==> i < links[i].value < |rs|
  {
    forall i | 0 <= i < |rs|
      ensures (i < |rs| - 1 <==> links[i].Some?) && (links[i].Some? ==> i < links[i].value < |rs|)
    {
      NearestIsLater(rs, H, W, i, links[i]);
    }
  }

  /** Stamping separated, fitting rooms marks every room's centre with its id. */
  lemma StampedCentresMarked(g: Grid, H: nat, W: nat, rs: seq<Room>)
    requires WellFormed(g, H, W) && WellPlaced(rs, H, W)
    ensures forall k :: 0 <= k < |rs| ==> CentreIn(rs[k], H, W)
    ensures CentresMarked(StampAll(g, rs), rs)
  {
    forall k | 0 <= k < |rs|
      ensures CentreIn(rs[k], H, W) && StampAll(g, rs)[rs[k].cy][rs[k].cx] == rs[k].id
    {
      CentreInside(rs[k], H, W);
      StampAllInside(g, rs, k, rs[k].cy, rs[k].cx);
    }
  }

  /** On the grid holding the placed rooms, linking each room to a later one
      never meets the early stop: every corridor is carved in full. */
  lemma CorridorsRunToTheEnd(g: Grid, H: nat, W: nat, rs: seq<Room>, links: seq<Option<nat>>)
    requires WellFormed(g, H, W) && WellPlaced(rs, H, W) && LinksIn(rs, links)
    requires forall m :: 0 <= m < |links| && links[m].Some? ==> m < links[m].value
    ensures forall k :: 0 <= k < |rs| ==> CentreIn(rs[k], H, W)
    ensures forall m :: 0 <= m < |links| && links[m].Some? ==>
      LinkAll(StampAll(g, rs), H, W, rs, links[..m])[rs[m].cy][rs[m].cx] != rs[links[m].value].id
  {
    StampedCentresMarked(g, H, W, rs);
    LinksRunToTheEnd(StampAll(g, rs), H, W, rs, links);
  }
}
