/** The positions a selection worker visits, and the action it records
    while visiting them. A range is swept floor by floor, z falling from the
    floor of its start corner to the floor of its end corner (so from the
    deeper floor up, z = 0 being the highest); on each floor x is the outer
    loop and y the inner one; with compensated selection the box moves one
    square diagonally (+1, +1) after each floor at or above the ground
    floor. A list of positions is visited in list order. */
module Sweep {
  import opened Tiles

  /** Positions (x, y, z) for y0 <= y < y1, in increasing y. */
  function Column(x: int, y0: int, y1: int, z: int): (r: seq<Position>)
    decreases y1 - y0
  {
    if y1 <= y0 then [] else Column(x, y0, y1 - 1, z) + [Position(x, y1 - 1, z)]
  }

  /** One floor of the box [x0, x1) x [y0, y1): columns in increasing x. */
  function Block(x0: int, x1: int, y0: int, y1: int, z: int): (r: seq<Position>)
    decreases x1 - x0
  {
    if x1 <= x0 then [] else Block(x0, x1 - 1, y0, y1, z) + Column(x1 - 1, y0, y1, z)
  }

  /** Whether the box moves after the floor z has been swept. */
  predicate Shifts(z: int, compensated: bool)
  {
    compensated && z <= GROUND_LAYER
  }

  /** A corner moved d squares diagonally (x and y both grow by d). */
  function Shifted(p: Position, d: int): Position
  {
    p.(x := p.x + d, y := p.y + d)
  }

  /** A corner of the box after the floor z has been swept. */
  function MovedAfter(p: Position, z: int, compensated: bool): Position
  {
    if Shifts(z, compensated) then Shifted(p, 1) else p
  }

  /** Floors z, z - 1, ..., zEnd of the box with inclusive corners s and e
      (their z is ignored), moving the box after each floor as Shifts says. */
  function Range(z: int, zEnd: int, s: Position, e: Position, compensated: bool): (r: seq<Position>)
    decreases z - zEnd + 1
  {
    if z < zEnd then []
    else
      Block(s.x, e.x + 1, s.y, e.y + 1, z) +
      Range(z - 1, zEnd, MovedAfter(s, z, compensated), MovedAfter(e, z, compensated), compensated)
  }

  /** The positions a worker visits: its list when it was given one,
      otherwise its range from floor start.z to floor end.z, z falling. */
  function Visits(start: Position, end: Position, positions: Option<seq<Position>>, compensated: bool): (r: seq<Position>)
    ensures positions.Some? ==> r == positions.value
  {
    if positions.Some? then positions.value else Range(start.z, end.z, start, end, compensated)
  }

  function Min(a: int, b: int): int { if a <= b then a else b }

  /** How far the box has moved by the time floor z is swept, when the
      sweep started at floor zStart: one square for every floor in (z, zStart]
      that is at or above the ground floor. */
  function Offset(zStart: int, z: int, compensated: bool): (d: nat)
    ensures !compensated ==> d == 0
  {
    if compensated && z < Min(zStart, GROUND_LAYER) then Min(zStart, GROUND_LAYER) - z else 0
  }

  /** Sweeping floor z (z <= zStart) adds one to the offset exactly when the
      box moves after z. */
  lemma OffsetStep(zStart: int, z: int, compensated: bool)
    requires z <= zStart
    ensures Offset(zStart, z - 1, compensated) == Offset(zStart, z, compensated) + (if Shifts(z, compensated) then 1 else 0)
  {
  }

  /** Once the sweep has run past floor last (or never started), the offset
      is the final one. */
  lemma OffsetPast(zStart: int, z: int, last: int, compensated: bool)
    requires z == last || (z == zStart && zStart <= last)
    ensures Offset(zStart, z, compensated) == Offset(zStart, last, compensated)
  {
  }

  /** The offset a sweep from z reaches at a lower floor w: the move after
      z, if any, plus the offset a sweep from z - 1 reaches there. */
  lemma OffsetBelow(z: int, w: int, compensated: bool)
    requires w < z
    ensures Offset(z, w, compensated) == (if Shifts(z, compensated) then 1 else 0) + Offset(z - 1, w, compensated)
  {
  }

  lemma {:induction false} ColumnContains(x: int, y0: int, y1: int, z: int, p: Position)
    ensures p in Column(x, y0, y1, z) <==> p.x == x && y0 <= p.y < y1 && p.z == z
    decreases y1 - y0
  {
    if y1 > y0 {
      ColumnContains(x, y0, y1 - 1, z, p);
    }
  }

  lemma {:induction false} BlockContains(x0: int, x1: int, y0: int, y1: int, z: int, p: Position)
    ensures p in Block(x0, x1, y0, y1, z) <==> x0 <= p.x < x1 && y0 <= p.y < y1 && p.z == z
    decreases x1 - x0
  {
    if x1 > x0 {
      BlockContains(x0, x1 - 1, y0, y1, z, p);
      ColumnContains(x1 - 1, y0, y1, z, p);
    }
  }

  /** Exactly which positions a range sweep visits: every floor from z to
      zEnd (z falling), each within the box as moved by the floors swept
      before it. */
  lemma {:induction false} RangeContains(z: int, zEnd: int, s: Position, e: Position, compensated: bool, p: Position)
    ensures p in Range(z, zEnd, s, e, compensated) <==>
      zEnd <= p.z <= z &&
      s.x + Offset(z, p.z, compensated) <= p.x <= e.x + Offset(z, p.z, compensated) &&
      s.y + Offset(z, p.z, compensated) <= p.y <= e.y + Offset(z, p.z, compensated)
    decreases z - zEnd + 1
  {
    if z >= zEnd {
      var s', e' := MovedAfter(s, z, compensated), MovedAfter(e, z, compensated);
      assert Range(z, zEnd, s, e, compensated) ==
        Block(s.x, e.x + 1, s.y, e.y + 1, z) + Range(z - 1, zEnd, s', e', compensated);
      BlockContains(s.x, e.x + 1, s.y, e.y + 1, z, p);
      RangeContains(z - 1, zEnd, s', e', compensated, p);
      if p.z < z {
        OffsetBelow(z, p.z, compensated);
      } else {
        assert Offset(z, p.z, compensated) == 0;
      }
    }
  }

  /** The positions a worker visits lie on the floors it was given: its list
      when it has one, otherwise floors end.z to start.z, each in the box as
      moved so far. */
  lemma VisitsFloors(start: Position, end: Position, positions: Option<seq<Position>>, compensated: bool)
    ensures positions.Some? ==> Visits(start, end, positions, compensated) == positions.value
    ensures positions.None? ==> forall p :: p in Visits(start, end, positions, compensated) ==>
      end.z <= p.z <= start.z &&
      start.x + Offset(start.z, p.z, compensated) <= p.x <= end.x + Offset(start.z, p.z, compensated) &&
      start.y + Offset(start.z, p.z, compensated) <= p.y <= end.y + Offset(start.z, p.z, compensated)
  {
    if positions.None? {
      forall p | p in Visits(start, end, positions, compensated)
        ensures end.z <= p.z <= start.z &&
          start.x + Offset(start.z, p.z, compensated) <= p.x <= end.x + Offset(start.z, p.z, compensated) &&
          start.y + Offset(start.z, p.z, compensated) <= p.y <= end.y + Offset(start.z, p.z, compensated)
      {
        RangeContains(start.z, end.z, start, end, compensated, p);
      }
    }
  }

  /** The sweep order: larger z (deeper floors) first, then increasing x, then increasing y. */
  predicate Before(p: Position, q: Position)
  {
    p.z > q.z || (p.z == q.z && (p.x < q.x || (p.x == q.x && p.y < q.y)))
  }

  predicate Ordered(ps: seq<Position>)
  {
    forall i, j :: 0 <= i < j < |ps| ==> Before(ps[i], ps[j])
  }

  lemma OrderedAppend(a: seq<Position>, b: seq<Position>)
    requires Ordered(a) && Ordered(b)
    requires forall p, q :: p in a && q in b ==> Before(p, q)
    ensures Ordered(a + b)
  {
    forall i, j | 0 <= i < j < |a + b| ensures Before((a + b)[i], (a + b)[j]) {
      if j < |a| {
        assert (a + b)[i] == a[i] && (a + b)[j] == a[j];
      } else if i >= |a| {
        assert (a + b)[i] == b[i - |a|] && (a + b)[j] == b[j - |a|];
      } else {
        assert (a + b)[i] in a && (a + b)[j] in b;
      }
    }
  }

  lemma {:induction false} ColumnOrdered(x: int, y0: int, y1: int, z: int)
    ensures Ordered(Column(x, y0, y1, z))
    decreases y1 - y0
  {
    if y1 > y0 {
      var col, last := Column(x, y0, y1 - 1, z), Position(x, y1 - 1, z);
      ColumnOrdered(x, y0, y1 - 1, z);
      forall p, q | p in col && q in [last] ensures Before(p, q) {
        ColumnContains(x, y0, y1 - 1, z, p);
      }
      OrderedAppend(col, [last]);
    }
  }

  lemma {:induction false} BlockOrdered(x0: int, x1: int, y0: int, y1: int, z: int)
    ensures Ordered(Block(x0, x1, y0, y1, z))
    decreases x1 - x0
  {
    if x1 > x0 {
      BlockOrdered(x0, x1 - 1, y0, y1, z);
      ColumnOrdered(x1 - 1, y0, y1, z);
      forall p, q | p in Block(x0, x1 - 1, y0, y1, z) && q in Column(x1 - 1, y0, y1, z)
        ensures Before(p, q)
      {
        BlockContains(x0, x1 - 1, y0, y1, z, p);
        ColumnContains(x1 - 1, y0, y1, z, q);
      }
      OrderedAppend(Block(x0, x1 - 1, y0, y1, z), Column(x1 - 1, y0, y1, z));
    }
  }

  /** A range sweep from zStart to z is the sweep from zStart to z + 1
      followed by floor z, with the box moved by the offset reached at z. */
  lemma {:induction false} RangeSnoc(zStart: int, z: int, s: Position, e: Position, compensated: bool)
    requires z <= zStart
    ensures var d := Offset(zStart, z, compensated);
      Range(zStart, z, s, e, compensated) ==
      Range(zStart, z + 1, s, e, compensated) + Block(s.x + d, e.x + d + 1, s.y + d, e.y + d + 1, z)
    decreases zStart - z
  {
    if z == zStart {
      assert Range(zStart, z, s, e, compensated) == Block(s.x, e.x + 1, s.y, e.y + 1, zStart) + [];
    } else {
      RangeSnoc(zStart - 1, z, MovedAfter(s, zStart, compensated), MovedAfter(e, zStart, compensated), compensated);
      RangeSnocStep(zStart, z, s, e, compensated);
    }
  }

  /** The inductive step of RangeSnoc: from the sweep that starts one floor
      after zStart to the whole sweep. */
  lemma RangeSnocStep(zStart: int, z: int, s: Position, e: Position, compensated: bool)
    requires z < zStart
    requires var s', e', d' := MovedAfter(s, zStart, compensated), MovedAfter(e, zStart, compensated), Offset(zStart - 1, z, compensated);
      Range(zStart - 1, z, s', e', compensated) ==
      Range(zStart - 1, z + 1, s', e', compensated) + Block(s'.x + d', e'.x + d' + 1, s'.y + d', e'.y + d' + 1, z)
    ensures var d := Offset(zStart, z, compensated);
      Range(zStart, z, s, e, compensated) ==
      Range(zStart, z + 1, s, e, compensated) + Block(s.x + d, e.x + d + 1, s.y + d, e.y + d + 1, z)
  {
    var s', e' := MovedAfter(s, zStart, compensated), MovedAfter(e, zStart, compensated);
    var d, d' := Offset(zStart, z, compensated), Offset(zStart - 1, z, compensated);
    OffsetBelow(zStart, z, compensated);
    assert s'.x + d' == s.x + d && s'.y + d' == s.y + d && e'.x + d' == e.x + d && e'.y + d' == e.y + d;
    Regroup(Range(zStart, z, s, e, compensated), Range(zStart, z + 1, s, e, compensated),
            Block(s.x, e.x + 1, s.y, e.y + 1, zStart),
            Range(zStart - 1, z, s', e', compensated), Range(zStart - 1, z + 1, s', e', compensated),
            Block(s.x + d, e.x + d + 1, s.y + d, e.y + d + 1, z));
  }

  /** If a = p + r, r = r' + q and a' = p + r', then a = a' + q. */
  lemma Regroup<T>(a: seq<T>, a': seq<T>, p: seq<T>, r: seq<T>, r': seq<T>, q: seq<T>)
    requires a == p + r && r == r' + q && a' == p + r'
    ensures a == a' + q
  {
    assert p + (r' + q) == p + r' + q;
  }

  /** A range sweep visits its positions strictly in sweep order, so each at
      most once; with RangeContains this pins the visit sequence down. */
  lemma {:induction false} RangeOrdered(z: int, zEnd: int, s: Position, e: Position, compensated: bool)
    ensures Ordered(Range(z, zEnd, s, e, compensated))
    decreases z - zEnd + 1
  {
    if z >= zEnd {
      var s', e' := MovedAfter(s, z, compensated), MovedAfter(e, z, compensated);
      var layer := Block(s.x, e.x + 1, s.y, e.y + 1, z);
      var rest := Range(z - 1, zEnd, s', e', compensated);
      BlockOrdered(s.x, e.x + 1, s.y, e.y + 1, z);
      RangeOrdered(z - 1, zEnd, s', e', compensated);
      forall p, q | p in layer && q in rest ensures Before(p, q) {
        BlockContains(s.x, e.x + 1, s.y, e.y + 1, z, p);
        RangeContains(z - 1, zEnd, s', e', compensated, q);
      }
      OrderedAppend(layer, rest);
    }
  }

  /** The tiles of the map as the worker sees them: a partial function from
      positions to tile states. */
  function StatesOf(grid: map<Position, Tile>): (m: map<Position, TileState>)
    reads grid.Values
    ensures m.Keys == grid.Keys
    ensures forall p :: p in grid ==> m[p] == grid[p].state
  {
    map p | p in grid :: grid[p].state
  }

  /** The snapshot view agrees with the live tiles of the map. */
  ghost predicate Shows(grid: map<Position, Tile>, view: map<Position, TileState>)
    reads grid.Values
  {
    grid.Keys == view.Keys && forall p :: p in grid ==> grid[p].state == view[p]
  }

  /** The action a worker records while visiting ps: one whole-tile select
      change per position that holds a tile, in visit order. */
  function Recorded(view: map<Position, TileState>, ps: seq<Position>): (r: Action)
    decreases |ps|
  {
    if ps == [] then []
    else
      var p := ps[|ps| - 1];
      Recorded(view, ps[..|ps| - 1]) +
      (if p in view then [Change(Selected(view[p]))] else [])
  }

  /** Visiting one more position adds at most its one change at the end. */
  lemma RecordedSnoc(view: map<Position, TileState>, ps: seq<Position>, p: Position)
    ensures Recorded(view, ps + [p]) ==
            Recorded(view, ps) + (if p in view then [Change(Selected(view[p]))] else [])
  {
    assert (ps + [p])[..|ps|] == ps;
  }

  lemma {:induction false} RecordedAppend(view: map<Position, TileState>, ps: seq<Position>, qs: seq<Position>)
    ensures Recorded(view, ps + qs) == Recorded(view, ps) + Recorded(view, qs)
    decreases |qs|
  {
    if qs != [] {
      var n := |qs| - 1;
      assert (ps + qs)[..|ps + qs| - 1] == ps + qs[..n];
      RecordedAppend(view, ps, qs[..n]);
    } else {
      assert ps + qs == ps;
    }
  }

  /** The action after one more step of the innermost loop: the change for
      (x, y, z), if that position holds a tile, goes after those before it. */
  lemma RecordedColumnStep(view: map<Position, TileState>, acc: Action, x: int, y0: int, y: int, z: int)
    requires y0 <= y
    ensures var p := Position(x, y, z);
      acc + Recorded(view, Column(x, y0, y + 1, z)) ==
      acc + Recorded(view, Column(x, y0, y, z)) + (if p in view then [Change(Selected(view[p]))] else [])
  {
    var p := Position(x, y, z);
    RecordedSnoc(view, Column(x, y0, y, z), p);
  }

  /** The action after one more column of a floor. */
  lemma RecordedBlockStep(view: map<Position, TileState>, acc: Action, x0: int, x: int, y0: int, y1: int, z: int)
    requires x0 <= x
    ensures acc + Recorded(view, Block(x0, x + 1, y0, y1, z)) ==
            acc + Recorded(view, Block(x0, x, y0, y1, z)) + Recorded(view, Column(x, y0, y1, z))
  {
    RecordedAppend(view, Block(x0, x, y0, y1, z), Column(x, y0, y1, z));
  }

  /** When every visited position holds a tile, the action has one change per
      position, in the same order, each a selected copy of that tile. */
  lemma {:induction false} RecordedAllPresent(view: map<Position, TileState>, ps: seq<Position>)
    requires forall p :: p in ps ==> p in view
    ensures |Recorded(view, ps)| == |ps|
    ensures forall i :: 0 <= i < |ps| ==> Recorded(view, ps)[i] == Change(Selected(view[ps[i]]))
    decreases |ps|
  {
    if ps != [] {
      var n := |ps| - 1;
      var init := ps[..n];
      assert forall p :: p in init ==> p in ps;
      RecordedAllPresent(view, init);
      assert ps[n] in ps;
      var r := Recorded(view, ps);
      assert r == Recorded(view, init) + [Change(Selected(view[ps[n]]))];
      forall i | 0 <= i < |ps| ensures r[i] == Change(Selected(view[ps[i]])) {
        if i < n {
          assert init[i] == ps[i];
        }
      }
    }
  }

  /** The action never holds more changes than positions visited, and every
      change in it is a selected copy of some visited tile. */
  lemma {:induction false} RecordedSelected(view: map<Position, TileState>, ps: seq<Position>)
    ensures |Recorded(view, ps)| <= |ps|
    ensures forall c :: c in Recorded(view, ps) ==>
      exists p :: p in ps && p in view && c == Change(Selected(view[p]))
    decreases |ps|
  {
    if ps != [] {
      var n := |ps| - 1;
      RecordedSelected(view, ps[..n]);
      forall c | c in Recorded(view, ps)
        ensures exists p :: p in ps && p in view && c == Change(Selected(view[p]))
      {
        if c in Recorded(view, ps[..n]) {
          var p :| p in ps[..n] && p in view && c == Change(Selected(view[p]));
          assert p in ps;
        } else {
          assert ps[n] in ps;
        }
      }
    }
  }

  /** Every visited position that holds a tile contributes its change: with
      RecordedSelected, a change is in the action exactly when it is the
      selected copy of a visited tile. */
  lemma {:induction false} RecordedComplete(view: map<Position, TileState>, ps: seq<Position>, p: Position)
    requires p in ps && p in view
    ensures Change(Selected(view[p])) in Recorded(view, ps)
    decreases |ps|
  {
    var n := |ps| - 1;
    if ps[n] != p {
      assert p in ps[..n] by {
        var i :| 0 <= i < |ps| && ps[i] == p;
        assert ps[..n][i] == p;
      }
      RecordedComplete(view, ps[..n], p);
    }
  }

  /** Positions without a tile are skipped: they add nothing to the action. */
  lemma RecordedAllAbsent(view: map<Position, TileState>, ps: seq<Position>)
    requires forall p :: p in ps ==> p !in view
    ensures Recorded(view, ps) == []
  {
    var r := Recorded(view, ps);
    RecordedSelected(view, ps);
    assert forall i :: 0 <= i < |r| ==> r[i] in r;
  }
}
