/** Moving a box against the tile map: src/game/collision.cpp, over exact reals. */
module Collision {
  import opened Numbers

  datatype Vec = Vec(x: real, y: real)

  const TILE_SOLID := 1
  const TILE_NOHOOK := 3

  /** The game layer; `NoTiles` is a null tile pointer. */
  datatype TileMap = NoTiles | Tiles(width: int, height: int, tiles: seq<int>) {
    predicate Valid() {
      Tiles? ==> 0 < width && 0 < height && |tiles| == width * height
    }
  }

  /** `round_to_int` */
  function RoundToInt(f: real): int {
    if f > 0.0 then Truncate(f + 0.5) else Truncate(f - 0.5)
  }

  /** Integer division of C++. */
  function TruncatingDiv(a: int, b: int): int
    requires b > 0
  {
    if a >= 0 then a / b else -((-a) / b)
  }

  function Clamp(v: int, lo: int, hi: int): int {
    if v < lo then lo else if hi < v then hi else v
  }

  /** The column (or row) of the tile that a coordinate falls on, among `n`. */
  function Cell(c: int, n: int): (i: int)
    requires n > 0
    ensures 0 <= i < n
  {
    Clamp(TruncatingDiv(c, 32), 0, n - 1)
  }

  lemma TileIndex(nx: int, ny: int, width: int, height: int)
    requires 0 <= nx < width && 0 <= ny < height
    ensures 0 <= ny * width + nx < width * height
  {
    assert ny * width <= (height - 1) * width;
  }

  function GetTile(map_: TileMap, x: int, y: int): int
    requires map_.Valid()
  {
    if map_.NoTiles? then 0
    else
      var nx, ny := Cell(x, map_.width), Cell(y, map_.height);
      TileIndex(nx, ny, map_.width, map_.height);
      map_.tiles[ny * map_.width + nx]
  }

  predicate IsSolid(map_: TileMap, x: int, y: int)
    requires map_.Valid()
  {
    GetTile(map_, x, y) == TILE_SOLID || GetTile(map_, x, y) == TILE_NOHOOK
  }

  predicate CheckPoint(map_: TileMap, x: real, y: real)
    requires map_.Valid()
  {
    IsSolid(map_, RoundToInt(x), RoundToInt(y))
  }

  predicate TestBox(map_: TileMap, pos: Vec, size: Vec)
    requires map_.Valid()
  {
    var half := Vec(size.x * 0.5, size.y * 0.5);
    || CheckPoint(map_, pos.x - half.x, pos.y - half.y)
    || CheckPoint(map_, pos.x + half.x, pos.y - half.y)
    || CheckPoint(map_, pos.x - half.x, pos.y + half.y)
    || CheckPoint(map_, pos.x + half.x, pos.y + half.y)
  }

  // ---------------------------------------------------------------------------------------------
  // When four corners are enough
  // ---------------------------------------------------------------------------------------------

  /** A point of the closed box around `pos`. */
  predicate InBox(p: Vec, pos: Vec, size: Vec) {
    && pos.x - size.x * 0.5 <= p.x <= pos.x + size.x * 0.5
    && pos.y - size.y * 0.5 <= p.y <= pos.y + size.y * 0.5
  }

  ghost predicate BoxHasSolidPoint(map_: TileMap, pos: Vec, size: Vec)
    requires map_.Valid()
  {
    exists p: Vec :: InBox(p, pos, size) && CheckPoint(map_, p.x, p.y)
  }

  function CellOf(x: real, n: int): int
    requires n > 0
  {
    Cell(RoundToInt(x), n)
  }

  lemma RoundMonotone(x: real, y: real)
    requires x <= y
    ensures RoundToInt(x) <= RoundToInt(y)
  {
  }

  lemma CellMonotone(a: int, b: int, n: int)
    requires a <= b && n > 0
    ensures Cell(a, n) <= Cell(b, n)
  {
  }

  /** Across at most 32 units the tile column changes by at most one. */
  lemma CellStep(x: real, w: real, n: int)
    requires 0.0 <= w <= 32.0 && n > 0
    ensures CellOf(x, n) <= CellOf(x + w, n) <= CellOf(x, n) + 1
  {
    var a, b := RoundToInt(x), RoundToInt(x + w);
    RoundMonotone(x, x + w);
    CellMonotone(a, b, n);
    if a >= 1 {
      RoundStep(x, w);
      CellMonotone(b, a + 32, n);
      assert (a + 32) / 32 == a / 32 + 1;
    } else {
      RoundMonotone(x + w, 0.5 + 32.0);
      SmallCell(a, b, n, x, w);
    }
  }

  lemma RoundStep(x: real, w: real)
    requires RoundToInt(x) >= 1 && 0.0 <= w <= 32.0
    ensures RoundToInt(x + w) <= RoundToInt(x) + 32
  {
    assert x > 0.0;
    assert (x + w + 0.5).Floor <= (x + 0.5 + 32.0).Floor == (x + 0.5).Floor + 32;
  }

  lemma SmallCell(a: int, b: int, n: int, x: real, w: real)
    requires n > 0 && a <= 0 && a == RoundToInt(x) && b == RoundToInt(x + w) && 0.0 <= w <= 32.0
    ensures Cell(a, n) == 0 && Cell(b, n) <= 1
  {
    assert x < 0.5;
    assert x + w < 32.5;
    assert b <= 32;
  }

  /** A coordinate between two that are at most 32 apart falls on the cell of one of them. */
  lemma CellBetween(x: real, u: real, w: real, n: int)
    requires 0.0 <= w <= 32.0 && n > 0 && x <= u <= x + w
    ensures CellOf(u, n) == CellOf(x, n) || CellOf(u, n) == CellOf(x + w, n)
  {
    CellStep(x, w, n);
    RoundMonotone(x, u);
    RoundMonotone(u, x + w);
    CellMonotone(RoundToInt(x), RoundToInt(u), n);
    CellMonotone(RoundToInt(u), RoundToInt(x + w), n);
  }

  /** Tile `i` of `n` in a row covers 32 units from half a unit before its edge on; the outer ones go on for ever. */
  predicate Covers(i: int, n: int, x: real) {
    0 <= i < n && (i == 0 || 32.0 * i as real - 0.5 <= x) && (i == n - 1 || x < 32.0 * (i + 1) as real - 0.5)
  }

  lemma CellIff(x: real, n: int, i: int)
    requires n > 0
    ensures CellOf(x, n) == i <==> Covers(i, n, x)
  {
    var r := RoundToInt(x);
    Rounded(x, 32 * i);
    Rounded(x, 32 * (i + 1));
    assert 0 < i ==> (TruncatingDiv(r, 32) >= i <==> r >= 32 * i);
    assert 0 <= i ==> (TruncatingDiv(r, 32) <= i <==> r < 32 * (i + 1));
    hide RoundToInt;
  }

  lemma Rounded(x: real, k: int)
    ensures k > 0 ==> (RoundToInt(x) >= k <==> x >= k as real - 0.5)
  {
  }

  /** A point is solid exactly if the tile that covers it is 1 or 3, which can or cannot be hooked. */
  lemma SolidIff(map_: TileMap, x: real, y: real, i: int, j: int)
    requires map_.Valid() && map_.Tiles? && Covers(i, map_.width, x) && Covers(j, map_.height, y)
    ensures 0 <= j * map_.width + i < |map_.tiles|
    ensures CheckPoint(map_, x, y) <==> map_.tiles[j * map_.width + i] in {1, 3}
  {
    CellIff(x, map_.width, i);
    CellIff(y, map_.height, j);
    TileIndex(i, j, map_.width, map_.height);
  }

  /** Points on the same tile are alike. */
  lemma SameTile(map_: TileMap, x: real, y: real, u: real, v: real)
    requires map_.Valid() && map_.Tiles?
    requires CellOf(x, map_.width) == CellOf(u, map_.width) && CellOf(y, map_.height) == CellOf(v, map_.height)
    ensures CheckPoint(map_, x, y) == CheckPoint(map_, u, v)
  {
  }

  lemma SolidAtCorner(map_: TileMap, pos: Vec, size: Vec, x: real, y: real)
    requires map_.Valid() && CheckPoint(map_, x, y)
    requires x == pos.x - size.x * 0.5 || x == pos.x + size.x * 0.5
    requires y == pos.y - size.y * 0.5 || y == pos.y + size.y * 0.5
    ensures TestBox(map_, pos, size)
  {
    hide CheckPoint;
  }

  /** Whatever point of a small box is solid, one of its corners lies on the same tile. */
  lemma SolidPointAtCorner(map_: TileMap, pos: Vec, size: Vec, p: Vec)
    requires map_.Valid() && map_.Tiles? && 0.0 <= size.x <= 32.0 && 0.0 <= size.y <= 32.0
    requires InBox(p, pos, size) && CheckPoint(map_, p.x, p.y)
    ensures TestBox(map_, pos, size)
  {
    hide CheckPoint, TestBox, CellOf;
    var l, r := pos.x - size.x * 0.5, pos.x + size.x * 0.5;
    var t, b := pos.y - size.y * 0.5, pos.y + size.y * 0.5;
    assert l + size.x == r && t + size.y == b;
    CellBetween(l, p.x, size.x, map_.width);
    CellBetween(t, p.y, size.y, map_.height);
    var cx := if CellOf(p.x, map_.width) == CellOf(l, map_.width) then l else r;
    var cy := if CellOf(p.y, map_.height) == CellOf(t, map_.height) then t else b;
    SameTile(map_, p.x, p.y, cx, cy);
    SolidAtCorner(map_, pos, size, cx, cy);
  }

  lemma CornersInBox(pos: Vec, size: Vec)
    requires 0.0 <= size.x && 0.0 <= size.y
    ensures InBox(Vec(pos.x - size.x * 0.5, pos.y - size.y * 0.5), pos, size)
    ensures InBox(Vec(pos.x + size.x * 0.5, pos.y - size.y * 0.5), pos, size)
    ensures InBox(Vec(pos.x - size.x * 0.5, pos.y + size.y * 0.5), pos, size)
    ensures InBox(Vec(pos.x + size.x * 0.5, pos.y + size.y * 0.5), pos, size)
  {
  }

  lemma SolidCorner(map_: TileMap, pos: Vec, size: Vec, x: real, y: real)
    requires map_.Valid() && InBox(Vec(x, y), pos, size) && CheckPoint(map_, x, y)
    ensures BoxHasSolidPoint(map_, pos, size)
  {
    hide CheckPoint, InBox;
    assert InBox(Vec(x, y), pos, size) && CheckPoint(map_, Vec(x, y).x, Vec(x, y).y);
  }

  lemma TestBoxSound(map_: TileMap, pos: Vec, size: Vec)
    requires map_.Valid() && 0.0 <= size.x && 0.0 <= size.y && TestBox(map_, pos, size)
    ensures BoxHasSolidPoint(map_, pos, size)
  {
    hide CheckPoint, InBox, BoxHasSolidPoint;
    CornersInBox(pos, size);
    var l, r := pos.x - size.x * 0.5, pos.x + size.x * 0.5;
    var t, b := pos.y - size.y * 0.5, pos.y + size.y * 0.5;
    var x := if CheckPoint(map_, l, t) || CheckPoint(map_, l, b) then l else r;
    var y := if CheckPoint(map_, x, t) then t else b;
    SolidCorner(map_, pos, size, x, y);
  }

  lemma NoTilesNothingSolid(x: real, y: real)
    ensures !CheckPoint(NoTiles, x, y)
  {
  }

  lemma TestBoxComplete(map_: TileMap, pos: Vec, size: Vec)
    requires map_.Valid() && 0.0 <= size.x <= 32.0 && 0.0 <= size.y <= 32.0 && BoxHasSolidPoint(map_, pos, size)
    ensures TestBox(map_, pos, size)
  {
    hide CheckPoint, InBox, TestBox;
    var p: Vec :| InBox(p, pos, size) && CheckPoint(map_, p.x, p.y);
    NoTilesNothingSolid(p.x, p.y);
    SolidPointAtCorner(map_, pos, size, p);
  }

  /** For sides of at most 32 units the four corners decide whether any point of the box is solid. */
  lemma TestBoxExact(map_: TileMap, pos: Vec, size: Vec)
    requires map_.Valid() && 0.0 <= size.x <= 32.0 && 0.0 <= size.y <= 32.0
    ensures TestBox(map_, pos, size) <==> BoxHasSolidPoint(map_, pos, size)
  {
    hide TestBox, BoxHasSolidPoint;
    if TestBox(map_, pos, size) {
      TestBoxSound(map_, pos, size);
    }
    if BoxHasSolidPoint(map_, pos, size) {
      TestBoxComplete(map_, pos, size);
    }
  }

  /** A left edge from which a box wider than 32 units steps over a whole tile. */
  function OverTile(w: real): real {
    if w >= 33.0 then 31.0 else 63.5 - w
  }

  lemma OverTileCells(w: real)
    requires w > 32.0
    ensures CellOf(OverTile(w), 3) == 0 && CellOf(OverTile(w) + w, 3) == 2
    ensures OverTile(w) <= 50.0 <= OverTile(w) + w && CellOf(50.0, 3) == 1
  {
  }

  lemma WideBoxMissed(size: Vec) returns (map_: TileMap, pos: Vec)
    requires size.x > 32.0 && size.y >= 0.0
    ensures map_.Valid() && !TestBox(map_, pos, size) && BoxHasSolidPoint(map_, pos, size)
  {
    hide CheckPoint;
    map_ := Tiles(3, 1, [0, TILE_SOLID, 0]);
    var l := OverTile(size.x);
    pos := Vec(l + size.x * 0.5, 0.0);
    OverTileCells(size.x);
    ColumnOfThree(l, pos.y - size.y * 0.5);
    ColumnOfThree(l, pos.y + size.y * 0.5);
    ColumnOfThree(l + size.x, pos.y - size.y * 0.5);
    ColumnOfThree(l + size.x, pos.y + size.y * 0.5);
    ColumnOfThree(50.0, 0.0);
    SolidCorner(map_, pos, size, 50.0, 0.0);
  }

  lemma ColumnOfThree(x: real, y: real)
    ensures CheckPoint(Tiles(3, 1, [0, TILE_SOLID, 0]), x, y) <==> CellOf(x, 3) == 1
  {
  }

  lemma TallBoxMissed(size: Vec) returns (map_: TileMap, pos: Vec)
    requires size.x >= 0.0 && size.y > 32.0
    ensures map_.Valid() && !TestBox(map_, pos, size) && BoxHasSolidPoint(map_, pos, size)
  {
    hide CheckPoint;
    map_ := Tiles(1, 3, [0, TILE_SOLID, 0]);
    var t := OverTile(size.y);
    pos := Vec(0.0, t + size.y * 0.5);
    OverTileCells(size.y);
    RowOfThree(pos.x - size.x * 0.5, t);
    RowOfThree(pos.x + size.x * 0.5, t);
    RowOfThree(pos.x - size.x * 0.5, t + size.y);
    RowOfThree(pos.x + size.x * 0.5, t + size.y);
    RowOfThree(0.0, 50.0);
    SolidCorner(map_, pos, size, 0.0, 50.0);
  }

  lemma RowOfThree(x: real, y: real)
    ensures CheckPoint(Tiles(1, 3, [0, TILE_SOLID, 0]), x, y) <==> CellOf(y, 3) == 1
  {
  }

  /** Wider or taller boxes can have all corners free around a solid tile, so 32 is the exact limit. */
  lemma TestBoxInexact(size: Vec) returns (map_: TileMap, pos: Vec)
    requires 0.0 <= size.x && 0.0 <= size.y && (size.x > 32.0 || size.y > 32.0)
    ensures map_.Valid() && !TestBox(map_, pos, size) && BoxHasSolidPoint(map_, pos, size)
  {
    if size.x > 32.0 {
      map_, pos := WideBoxMissed(size);
    } else {
      map_, pos := TallBoxMissed(size);
    }
  }

  // ---------------------------------------------------------------------------------------------
  // Moving the box
  // ---------------------------------------------------------------------------------------------

  datatype Motion = Motion(pos: Vec, vel: Vec, grounded: bool)

  function ClampReal(v: real, lo: real, hi: real): real {
    if v < lo then lo else if hi < v then hi else v
  }

  /** The elasticity after clamping to [-1, 1]. */
  function Bounce(e: Vec): Vec {
    Vec(ClampReal(e.x, -1.0, 1.0), ClampReal(e.y, -1.0, 1.0))
  }

  /** A coordinate `p` moved on at speed `v`. */
  function Moved(p: real, v: real, s: real): real {
    p + v * s
  }

  /** A velocity component thrown back off a wall. */
  function Reflect(v: real, e: real): real {
    v * -e
  }

  function Target(m: Motion, fraction: real): Vec {
    Vec(Moved(m.pos.x, m.vel.x, fraction), Moved(m.pos.y, m.vel.y, fraction))
  }

  /** Nothing moves any more: the velocity is zero, or too small for a micro-step to show. */
  predicate Stopped(m: Motion, fraction: real) {
    m.vel == Vec(0.0, 0.0) || Target(m, fraction) == m.pos
  }

  /** One micro-step of `MoveBox`; `e` is the clamped elasticity. */
  function MicroStep(map_: TileMap, size: Vec, e: Vec, fraction: real, m: Motion): Motion
    requires map_.Valid()
  {
    var to := Target(m, fraction);
    if !TestBox(map_, to, size) then m.(pos := to)
    else
      var hitY := TestBox(map_, Vec(m.pos.x, to.y), size);
      var hitX := TestBox(map_, Vec(to.x, m.pos.y), size);
      var stopX, stopY := hitX || !hitY, hitY || !hitX;
      Motion(Vec(if stopX then m.pos.x else to.x, if stopY then m.pos.y else to.y),
             Vec(if stopX then Reflect(m.vel.x, e.x) else m.vel.x, if stopY then Reflect(m.vel.y, e.y) else m.vel.y),
             m.grounded || (stopY && e.y > 0.0 && m.vel.y > 0.0))
  }

  /** Where `n` micro-steps lead. */
  function MicroSteps(map_: TileMap, size: Vec, e: Vec, fraction: real, m: Motion, n: nat): Motion
    requires map_.Valid()
    decreases n
  {
    if n == 0 || Stopped(m, fraction) then m
    else MicroSteps(map_, size, e, fraction, MicroStep(map_, size, e, fraction, m), n - 1)
  }

  /** `length`: the non-negative number whose square is the dot product. */
  ghost predicate IsLength(d: real, v: Vec) {
    d >= 0.0 && d * d == v.x * v.x + v.y * v.y
  }

  /** The share of the velocity that one micro-step moves. */
  function Fraction(distance: real): (f: real)
    requires distance >= 0.0
    ensures f > 0.0
  {
    1.0 / (distance.Floor + 1) as real
  }

  /** What `MoveBox` leaves behind, for a velocity of length `distance`. */
  function AfterMove(map_: TileMap, size: Vec, elasticity: Vec, distance: real, m: Motion): Motion
    requires map_.Valid() && distance >= 0.0
  {
    if distance > 0.00001 then
      MicroSteps(map_, size, Bounce(elasticity), Fraction(distance), m, distance.Floor + 1)
    else m
  }

  /** `MoveBox`. The velocity's length is a parameter. */
  method MoveBox(map_: TileMap, pos0: Vec, vel0: Vec, size: Vec, elasticity: Vec, distance: real, grounded0: bool)
    returns (pos: Vec, vel: Vec, grounded: bool)
    requires map_.Valid() && distance >= 0.0 && IsLength(distance, vel0)
    ensures Motion(pos, vel, grounded)
            == AfterMove(map_, size, elasticity, distance, Motion(pos0, vel0, grounded0))
  {
    hide TestBox, Bounce, Moved, Reflect;
    pos, vel, grounded := pos0, vel0, grounded0;
    var max := Truncate(distance);
    if distance > 0.00001 {
      var fraction := 1.0 / (max + 1) as real;
      var e := Bounce(elasticity);
      ghost var end := MicroSteps(map_, size, e, fraction, Motion(pos, vel, grounded), max + 1);
      var i := 0;
      while i <= max
        invariant 0 <= i <= max + 1
        invariant MicroSteps(map_, size, e, fraction, Motion(pos, vel, grounded), max + 1 - i) == end
      {
        if vel == Vec(0.0, 0.0) {
          break;
        }
        var newPos := Vec(Moved(pos.x, vel.x, fraction), Moved(pos.y, vel.y, fraction));
        if newPos == pos {
          break;
        }
        ghost var before := Motion(pos, vel, grounded);
        if TestBox(map_, newPos, size) {
          var hits := 0;
          if TestBox(map_, Vec(pos.x, newPos.y), size) {
            if e.y > 0.0 && vel.y > 0.0 {
              grounded := true;
            }
            newPos := newPos.(y := pos.y);
            vel := vel.(y := Reflect(vel.y, e.y));
            hits := hits + 1;
          }
          if TestBox(map_, Vec(newPos.x, pos.y), size) {
            newPos := newPos.(x := pos.x);
            vel := vel.(x := Reflect(vel.x, e.x));
            hits := hits + 1;
          }
          if hits == 0 {
            if e.y > 0.0 && vel.y > 0.0 {
              grounded := true;
            }
            newPos := newPos.(y := pos.y);
            vel := vel.(y := Reflect(vel.y, e.y));
            newPos := newPos.(x := pos.x);
            vel := vel.(x := Reflect(vel.x, e.x));
          }
        }
        pos := newPos;
        assert Motion(pos, vel, grounded) == MicroStep(map_, size, e, fraction, before);
        i := i + 1;
      }
    }
  }

  // ---------------------------------------------------------------------------------------------
  // Never inside a wall
  // ---------------------------------------------------------------------------------------------

  lemma MicroStepStaysFree(map_: TileMap, size: Vec, e: Vec, fraction: real, m: Motion)
    requires map_.Valid() && !TestBox(map_, m.pos, size)
    ensures !TestBox(map_, MicroStep(map_, size, e, fraction, m).pos, size)
  {
    hide TestBox;
    var to := Target(m, fraction);
    var next := MicroStep(map_, size, e, fraction, m).pos;
    assert next == to || next == m.pos || next == Vec(to.x, m.pos.y) || next == Vec(m.pos.x, to.y);
  }

  /** A box that starts free of solid tiles is free after every number of micro-steps. */
  lemma {:induction false} NeverInsideWall(map_: TileMap, size: Vec, e: Vec, fraction: real, m: Motion, n: nat)
    requires map_.Valid() && !TestBox(map_, m.pos, size)
    ensures !TestBox(map_, MicroSteps(map_, size, e, fraction, m, n).pos, size)
    decreases n
  {
    hide TestBox, MicroStep, Stopped;
    if n > 0 && !Stopped(m, fraction) {
      MicroStepStaysFree(map_, size, e, fraction, m);
      NeverInsideWall(map_, size, e, fraction, MicroStep(map_, size, e, fraction, m), n - 1);
    }
  }

  /** For a box of the tee's size or any other of at most 32 units, no point of it is ever solid. */
  lemma NoSolidPointOnTheWay(map_: TileMap, size: Vec, e: Vec, fraction: real, m: Motion, n: nat)
    requires map_.Valid() && 0.0 <= size.x <= 32.0 && 0.0 <= size.y <= 32.0
    requires !BoxHasSolidPoint(map_, m.pos, size)
    ensures !BoxHasSolidPoint(map_, MicroSteps(map_, size, e, fraction, m, n).pos, size)
  {
    hide TestBox, MicroSteps;
    TestBoxExact(map_, m.pos, size);
    NeverInsideWall(map_, size, e, fraction, m, n);
    TestBoxExact(map_, MicroSteps(map_, size, e, fraction, m, n).pos, size);
  }

  /** `MoveBox` never leaves a box inside a wall that was not there before. */
  lemma MoveBoxStaysFree(map_: TileMap, size: Vec, elasticity: Vec, distance: real, m: Motion)
    requires map_.Valid() && distance >= 0.0 && !TestBox(map_, m.pos, size)
    ensures !TestBox(map_, AfterMove(map_, size, elasticity, distance, m).pos, size)
  {
    hide TestBox, MicroSteps, Fraction, Bounce;
    NeverInsideWall(map_, size, Bounce(elasticity), Fraction(distance), m, distance.Floor + 1);
  }

  // ---------------------------------------------------------------------------------------------
  // No motion is gained
  // ---------------------------------------------------------------------------------------------

  lemma ProductSign(a: real, b: real)
    requires a >= 0.0 && b >= 0.0
    ensures a * b >= 0.0
  {
  }

  lemma AbsReflect(v: real, e: real)
    requires -1.0 <= e <= 1.0
    ensures Abs(Reflect(v, e)) <= Abs(v)
  {
    var a := Abs(v);
    ProductSign(a, 1.0 - e);
    ProductSign(a, 1.0 + e);
    assert a * (1.0 - e) == a - a * e && a * (1.0 + e) == a + a * e;
  }

  predicate Advanced(p: real, q: real, v: real, fraction: real) {
    q == p || q == p + v * fraction
  }

  lemma MicroStepGainsNothing(map_: TileMap, size: Vec, e: Vec, fraction: real, m: Motion)
    requires map_.Valid() && -1.0 <= e.x <= 1.0 && -1.0 <= e.y <= 1.0
    ensures var next := MicroStep(map_, size, e, fraction, m);
            && Abs(next.vel.x) <= Abs(m.vel.x) && Abs(next.vel.y) <= Abs(m.vel.y)
            && Advanced(m.pos.x, next.pos.x, m.vel.x, fraction) && Advanced(m.pos.y, next.pos.y, m.vel.y, fraction)
  {
    hide TestBox, Abs, Reflect, Advanced, Moved;
    var next := MicroStep(map_, size, e, fraction, m);
    AbsReflect(m.vel.x, e.x);
    AbsReflect(m.vel.y, e.y);
    assert next.vel.x == m.vel.x || next.vel.x == Reflect(m.vel.x, e.x);
    assert next.vel.y == m.vel.y || next.vel.y == Reflect(m.vel.y, e.y);
    var to := Target(m, fraction);
    assert next.pos.x == m.pos.x || next.pos.x == to.x;
    assert next.pos.y == m.pos.y || next.pos.y == to.y;
    MovedAdvances(m.pos.x, next.pos.x, m.vel.x, fraction);
    MovedAdvances(m.pos.y, next.pos.y, m.vel.y, fraction);
  }

  lemma MovedAdvances(p: real, q: real, v: real, fraction: real)
    requires q == p || q == Moved(p, v, fraction)
    ensures Advanced(p, q, v, fraction)
  {
  }

  lemma StepLength(p: real, q: real, v: real, fraction: real)
    requires fraction >= 0.0 && Advanced(p, q, v, fraction)
    ensures Abs(q - p) <= Abs(v) * fraction
  {
    if v >= 0.0 {
      assert v * fraction >= 0.0;
    } else {
      assert -v * fraction >= 0.0;
      assert Abs(v) * fraction == -(v * fraction);
    }
  }

  /** The distance that `n` micro-steps at velocity `v` cover. */
  function Budget(v: real, fraction: real, n: nat): real {
    Abs(v) * fraction * n as real
  }

  lemma BudgetNonNegative(v: real, fraction: real, n: nat)
    requires fraction >= 0.0
    ensures Budget(v, fraction, n) >= 0.0
  {
    ProductSign(Abs(v), fraction);
    ProductSign(Abs(v) * fraction, n as real);
  }

  lemma BudgetGrows(v: real, w: real, fraction: real, n: nat)
    requires n > 0 && fraction >= 0.0 && Abs(w) <= Abs(v)
    ensures Abs(v) * fraction + Budget(w, fraction, n - 1) <= Budget(v, fraction, n)
  {
    hide Abs;
    var a, b, k := Abs(v) * fraction, Abs(w) * fraction, (n - 1) as real;
    ProductSign(Abs(v) - Abs(w), fraction);
    Distribute(Abs(v), -Abs(w), fraction);
    ProductSign(a - b, k);
    Distribute(a, -b, k);
    Distribute(k, 1.0, a);
    assert n as real == k + 1.0;
  }

  lemma Distribute(a: real, b: real, c: real)
    ensures (a + b) * c == a * c + b * c
  {
  }

  lemma AbsTriangle(p: real, q: real, r: real)
    ensures Abs(r - p) <= Abs(q - p) + Abs(r - q)
  {
  }

  lemma BudgetStep(p: real, q: real, r: real, v: real, w: real, fraction: real, n: nat)
    requires n > 0 && fraction >= 0.0 && Abs(w) <= Abs(v)
    requires Advanced(p, q, v, fraction) && Abs(r - q) <= Budget(w, fraction, n - 1)
    ensures Abs(r - p) <= Budget(v, fraction, n)
  {
    hide Abs, Budget, Advanced;
    StepLength(p, q, v, fraction);
    AbsTriangle(p, q, r);
    BudgetGrows(v, w, fraction, n);
  }

  /** Neither velocity component ever grows, and each coordinate moves at most as far as its initial
      velocity carries it over the micro-steps taken. */
  lemma {:induction false} NoMotionGained(map_: TileMap, size: Vec, e: Vec, fraction: real, m: Motion, n: nat)
    requires map_.Valid() && -1.0 <= e.x <= 1.0 && -1.0 <= e.y <= 1.0 && fraction >= 0.0
    ensures var end := MicroSteps(map_, size, e, fraction, m, n);
            && Abs(end.vel.x) <= Abs(m.vel.x) && Abs(end.vel.y) <= Abs(m.vel.y)
            && Abs(end.pos.x - m.pos.x) <= Budget(m.vel.x, fraction, n)
            && Abs(end.pos.y - m.pos.y) <= Budget(m.vel.y, fraction, n)
    decreases n
  {
    hide MicroStep, Budget, Stopped, Advanced;
    if n == 0 || Stopped(m, fraction) {
      BudgetNonNegative(m.vel.x, fraction, n);
      BudgetNonNegative(m.vel.y, fraction, n);
    } else {
      var next := MicroStep(map_, size, e, fraction, m);
      var end := MicroSteps(map_, size, e, fraction, next, n - 1);
      MicroStepGainsNothing(map_, size, e, fraction, m);
      NoMotionGained(map_, size, e, fraction, next, n - 1);
      BudgetStep(m.pos.x, next.pos.x, end.pos.x, m.vel.x, next.vel.x, fraction, n);
      BudgetStep(m.pos.y, next.pos.y, end.pos.y, m.vel.y, next.vel.y, fraction, n);
    }
  }

  lemma WholeBudget(v: real, distance: real)
    requires distance >= 0.0
    ensures Budget(v, Fraction(distance), distance.Floor + 1) == Abs(v)
  {
    var r := (distance.Floor + 1) as real;
    assert (1.0 / r) * r == 1.0;
    assert Abs(v) * (1.0 / r) * r == Abs(v) * ((1.0 / r) * r);
  }

  lemma BounceInRange(e: Vec)
    ensures -1.0 <= Bounce(e).x <= 1.0 && -1.0 <= Bounce(e).y <= 1.0
  {
  }

  /** Over the whole call each coordinate moves at most by its initial velocity component. */
  lemma MoveBoxBounded(map_: TileMap, size: Vec, elasticity: Vec, m: Motion, distance: real)
    requires map_.Valid() && distance >= 0.0
    ensures var end := AfterMove(map_, size, elasticity, distance, m);
            && Abs(end.pos.x - m.pos.x) <= Abs(m.vel.x) && Abs(end.pos.y - m.pos.y) <= Abs(m.vel.y)
            && Abs(end.vel.x) <= Abs(m.vel.x) && Abs(end.vel.y) <= Abs(m.vel.y)
  {
    hide Budget, Fraction, MicroSteps, Bounce;
    BounceInRange(elasticity);
    NoMotionGained(map_, size, Bounce(elasticity), Fraction(distance), m, distance.Floor + 1);
    WholeBudget(m.vel.x, distance);
    WholeBudget(m.vel.y, distance);
  }

  // ---------------------------------------------------------------------------------------------
  // Short micro-steps, and the whole way when nothing is hit
  // ---------------------------------------------------------------------------------------------

  /** One micro-step more is one micro-step at the end. */
  lemma {:induction false} LastMicroStep(map_: TileMap, size: Vec, e: Vec, fraction: real, m: Motion, n: nat)
    requires map_.Valid()
    ensures var before := MicroSteps(map_, size, e, fraction, m, n);
            MicroSteps(map_, size, e, fraction, m, n + 1) ==
            if Stopped(before, fraction) then before else MicroStep(map_, size, e, fraction, before)
    decreases n
  {
    hide MicroStep, Stopped;
    var next := MicroStep(map_, size, e, fraction, m);
    if n == 0 {
      assert MicroSteps(map_, size, e, fraction, next, 0) == next;
    } else if !Stopped(m, fraction) {
      LastMicroStep(map_, size, e, fraction, next, n - 1);
    }
  }

  /** The next micro-step throws a falling box back off elastic ground: it is blocked, and not only sideways. */
  predicate Lands(map_: TileMap, size: Vec, e: Vec, fraction: real, m: Motion)
    requires map_.Valid()
  {
    var to := Target(m, fraction);
    && !Stopped(m, fraction) && e.y > 0.0 && m.vel.y > 0.0 && TestBox(map_, to, size)
    && (TestBox(map_, Vec(m.pos.x, to.y), size) || !TestBox(map_, Vec(to.x, m.pos.y), size))
  }

  /** Micro-step number `k` does so. */
  predicate LandsAt(map_: TileMap, size: Vec, e: Vec, fraction: real, m: Motion, k: nat)
    requires map_.Valid()
  {
    Lands(map_, size, e, fraction, MicroSteps(map_, size, e, fraction, m, k))
  }

  lemma LandingStep(map_: TileMap, size: Vec, e: Vec, fraction: real, m: Motion)
    requires map_.Valid() && !Stopped(m, fraction)
    ensures MicroStep(map_, size, e, fraction, m).grounded <==> m.grounded || Lands(map_, size, e, fraction, m)
  {
    hide TestBox, Target, Stopped;
  }

  lemma LandingLast(map_: TileMap, size: Vec, e: Vec, fraction: real, m: Motion, n: nat)
    requires map_.Valid()
    ensures var before := MicroSteps(map_, size, e, fraction, m, n);
            MicroSteps(map_, size, e, fraction, m, n + 1).grounded <==>
              before.grounded || LandsAt(map_, size, e, fraction, m, n)
  {
    hide Target, TestBox, MicroStep;
    var before := MicroSteps(map_, size, e, fraction, m, n);
    LastMicroStep(map_, size, e, fraction, m, n);
    if !Stopped(before, fraction) {
      LandingStep(map_, size, e, fraction, before);
    }
    hide MicroSteps, Stopped;
  }

  lemma NotYet(map_: TileMap, size: Vec, e: Vec, fraction: real, m: Motion)
    requires map_.Valid()
    ensures MicroSteps(map_, size, e, fraction, m, 0) == m
  {
    hide MicroStep, Stopped;
  }

  /** The box is reported as grounded exactly if it was before or lands in one of the micro-steps. */
  lemma {:induction false} GroundedIff(map_: TileMap, size: Vec, e: Vec, fraction: real, m: Motion, n: nat)
    requires map_.Valid()
    ensures MicroSteps(map_, size, e, fraction, m, n).grounded <==>
              m.grounded || exists k: nat :: k < n && LandsAt(map_, size, e, fraction, m, k)
    decreases n
  {
    hide LandsAt, MicroSteps, MicroStep, Stopped, TestBox, TileMap.Valid;
    NotYet(map_, size, e, fraction, m);
    if n > 0 {
      GroundedIff(map_, size, e, fraction, m, n - 1);
      LandingLast(map_, size, e, fraction, m, n - 1);
    }
  }

  lemma SquareMonotone(a: real, b: real)
    requires Abs(a) <= Abs(b)
    ensures a * a <= b * b
  {
    ProductSign(Abs(b) - Abs(a), Abs(b) + Abs(a));
    assert (Abs(b) - Abs(a)) * (Abs(b) + Abs(a)) == b * b - a * a;
  }

  function Square(a: real): real { a * a }

  lemma AdvancedSquare(p: real, q: real, v: real, w: real, fraction: real)
    requires Advanced(p, q, w, fraction) && fraction >= 0.0 && Abs(w) <= Abs(v)
    ensures Square(q - p) <= Square(v) * Square(fraction)
  {
    var f := fraction * fraction;
    ProductSign(fraction, fraction);
    SquareMonotone(w, v);
    SquareNonNegative(v);
    ProductSign(v * v, f);
    ProductSign(v * v - w * w, f);
    assert (v * v - w * w) * f == v * v * f - w * w * f;
    if q != p {
      SquareOfProduct(w, fraction);
      assert q - p == w * fraction;
    }
  }

  lemma SquareNonNegative(a: real)
    ensures a * a >= 0.0
  {
    SquareMonotone(0.0, a);
  }

  lemma SquareOfProduct(a: real, b: real)
    ensures (a * b) * (a * b) == a * a * (b * b)
  {
    assert (a * b) * (a * b) == a * (b * (a * b));
    assert b * (a * b) == a * (b * b);
    assert a * (a * (b * b)) == a * a * (b * b);
  }

  lemma SquareBelowOne(a: real)
    requires 0.0 <= a < 1.0
    ensures a * a < 1.0
  {
    var b := 1.0 - a;
    ProductSign(a, b);
    var p := a * b;
    assert p == a - a * a;
  }

  lemma BelowOne(d: real, f: real, r: real)
    requires d >= 0.0 && f > 0.0 && f * r == 1.0 && d < r
    ensures Square(d) * Square(f) < 1.0
  {
    var g := r - d;
    var p, q := f * g, f * d;
    assert p > 0.0 && q >= 0.0 && p == 1.0 - q;
    SquareBelowOne(q);
    var qq := q * q;
    assert qq == Square(d) * Square(f);
  }

  lemma WholeFraction(distance: real)
    requires distance >= 0.0
    ensures Fraction(distance) * (distance.Floor + 1) as real == 1.0
  {
  }

  lemma LengthFraction(distance: real, f: real)
    requires distance >= 0.0 && f == Fraction(distance)
    ensures Square(distance) * Square(f) < 1.0
  {
    hide Fraction, Square;
    WholeFraction(distance);
    BelowOne(distance, f, (distance.Floor + 1) as real);
  }

  /** What the next micro-step does, in terms of the initial velocity. */
  lemma NextStep(map_: TileMap, size: Vec, e: Vec, f: real, m: Motion, n: nat)
    returns (a: Motion, b: Motion)
    requires map_.Valid() && f >= 0.0 && -1.0 <= e.x <= 1.0 && -1.0 <= e.y <= 1.0
    ensures a == MicroSteps(map_, size, e, f, m, n) && b == MicroSteps(map_, size, e, f, m, n + 1)
    ensures Abs(a.vel.x) <= Abs(m.vel.x) && Abs(a.vel.y) <= Abs(m.vel.y)
    ensures Advanced(a.pos.x, b.pos.x, a.vel.x, f) && Advanced(a.pos.y, b.pos.y, a.vel.y, f)
  {
    hide MicroSteps, MicroStep, Stopped, Abs, Budget, Advanced;
    a, b := MicroSteps(map_, size, e, f, m, n), MicroSteps(map_, size, e, f, m, n + 1);
    NoMotionGained(map_, size, e, f, m, n);
    LastMicroStep(map_, size, e, f, m, n);
    StandsStill(a.pos, a.vel, f);
    MicroStepGainsNothing(map_, size, e, f, a);
  }

  lemma ShortStep(map_: TileMap, size: Vec, e: Vec, f: real, m: Motion, distance: real, n: nat)
    requires map_.Valid() && distance >= 0.0 && IsLength(distance, m.vel) && f == Fraction(distance)
    requires -1.0 <= e.x <= 1.0 && -1.0 <= e.y <= 1.0
    ensures var a, b := MicroSteps(map_, size, e, f, m, n).pos, MicroSteps(map_, size, e, f, m, n + 1).pos;
            Square(b.x - a.x) + Square(b.y - a.y) < 1.0
  {
    hide Fraction, MicroSteps, Abs, Advanced, Square, IsLength;
    var a, b := NextStep(map_, size, e, f, m, n);
    AdvancedSquare(a.pos.x, b.pos.x, m.vel.x, a.vel.x, f);
    AdvancedSquare(a.pos.y, b.pos.y, m.vel.y, a.vel.y, f);
    LengthFraction(distance, f);
    BelowTotal(Square(b.pos.x - a.pos.x), Square(b.pos.y - a.pos.y), m.vel, f, distance);
  }

  lemma SquaresOfLength(d: real, v: Vec)
    requires IsLength(d, v)
    ensures Square(d) == Square(v.x) + Square(v.y)
  {
  }

  lemma BelowSum(x: real, y: real, a: real, b: real, g: real, c: real, p: real)
    requires x <= a * g && y <= b * g && c == a + b && p == c * g && p < 1.0
    ensures x + y < 1.0
  {
    assert p == a * g + b * g;
  }

  lemma BelowTotal(x: real, y: real, v: Vec, f: real, d: real)
    requires x <= Square(v.x) * Square(f) && y <= Square(v.y) * Square(f)
    requires IsLength(d, v) && Square(d) * Square(f) < 1.0
    ensures x + y < 1.0
  {
    hide IsLength, Square;
    var p := Square(d) * Square(f);
    assert p < 1.0;
    SquaresOfLength(d, v);
    BelowSum(x, y, Square(v.x), Square(v.y), Square(f), Square(d), p);
  }

  /** No micro-step moves the box by a whole unit or more. */
  lemma MicroStepsShort(map_: TileMap, size: Vec, elasticity: Vec, m: Motion, distance: real, n: nat)
    requires map_.Valid() && IsLength(distance, m.vel)
    ensures var e, f := Bounce(elasticity), Fraction(distance);
            var a, b := MicroSteps(map_, size, e, f, m, n).pos, MicroSteps(map_, size, e, f, m, n + 1).pos;
            Square(b.x - a.x) + Square(b.y - a.y) < 1.0
  {
    hide Square, Fraction, MicroSteps, Bounce;
    BounceInRange(elasticity);
    ShortStep(map_, size, Bounce(elasticity), Fraction(distance), m, distance, n);
  }

  lemma StandsStill(p: Vec, v: Vec, fraction: real)
    ensures Advanced(p.x, p.x, v.x, fraction) && Advanced(p.y, p.y, v.y, fraction)
  {
  }

  /** Where the box is after `k` micro-steps when nothing is in the way. */
  function OnTheLine(m: Motion, fraction: real, k: nat): Vec {
    Target(m, fraction * k as real)
  }

  lemma MovedTwice(p: real, v: real, a: real, b: real)
    ensures Moved(Moved(p, v, a), v, b) == Moved(p, v, a + b)
  {
  }

  lemma OneMore(fraction: real, k: nat)
    ensures fraction * (k + 1) as real == fraction + fraction * k as real
  {
  }

  lemma NextOnTheLine(m: Motion, fraction: real, k: nat)
    ensures OnTheLine(m.(pos := Target(m, fraction)), fraction, k) == OnTheLine(m, fraction, k + 1)
  {
    hide Moved;
    var s := fraction * k as real;
    MovedTwice(m.pos.x, m.vel.x, fraction, s);
    MovedTwice(m.pos.y, m.vel.y, fraction, s);
    OneMore(fraction, k);
  }

  lemma FirstOnTheLine(m: Motion, fraction: real)
    ensures OnTheLine(m, fraction, 0) == m.pos && OnTheLine(m, fraction, 1) == Target(m, fraction)
  {
  }

  lemma StoppedOnTheLine(m: Motion, fraction: real, n: nat)
    requires fraction > 0.0 && Stopped(m, fraction)
    ensures OnTheLine(m, fraction, n) == m.pos
  {
    ZeroFactor(m.vel.x, fraction);
    ZeroFactor(m.vel.y, fraction);
  }

  lemma ZeroFactor(v: real, fraction: real)
    requires fraction > 0.0 && v * fraction == 0.0
    ensures v == 0.0
  {
  }

  /** With every box along the straight line free, the box follows the line and keeps its velocity. */
  lemma {:induction false} FreeLine(map_: TileMap, size: Vec, e: Vec, fraction: real, m: Motion, n: nat)
    requires map_.Valid() && fraction > 0.0
    requires forall k: nat :: 1 <= k <= n ==> !TestBox(map_, OnTheLine(m, fraction, k), size)
    ensures MicroSteps(map_, size, e, fraction, m, n) == m.(pos := OnTheLine(m, fraction, n))
    decreases n
  {
    hide TestBox, OnTheLine, Target, Stopped;
    FirstOnTheLine(m, fraction);
    if Stopped(m, fraction) {
      StoppedOnTheLine(m, fraction, n);
    } else if n > 0 {
      var next := m.(pos := Target(m, fraction));
      assert !TestBox(map_, OnTheLine(m, fraction, 1), size);
      assert MicroStep(map_, size, e, fraction, m) == next;
      forall k: nat | 1 <= k <= n - 1
        ensures !TestBox(map_, OnTheLine(next, fraction, k), size)
      {
        NextOnTheLine(m, fraction, k);
        assert !TestBox(map_, OnTheLine(m, fraction, k + 1), size);
      }
      FreeLine(map_, size, e, fraction, next, n - 1);
      NextOnTheLine(m, fraction, n - 1);
    }
  }

  /** An unobstructed box ends at `pos + vel`. */
  lemma UnobstructedMove(map_: TileMap, size: Vec, elasticity: Vec, m: Motion, distance: real)
    requires map_.Valid() && distance > 0.00001
    requires forall k: nat ::
               1 <= k <= distance.Floor + 1 ==> !TestBox(map_, OnTheLine(m, Fraction(distance), k), size)
    ensures AfterMove(map_, size, elasticity, distance, m)
            == m.(pos := Vec(m.pos.x + m.vel.x, m.pos.y + m.vel.y))
  {
    hide OnTheLine, TestBox, Bounce, MicroSteps;
    FreeLine(map_, size, Bounce(elasticity), Fraction(distance), m, distance.Floor + 1);
    EndOfLine(m, distance);
  }

  lemma TargetWhole(m: Motion, s: real)
    requires s == 1.0
    ensures Target(m, s) == Vec(m.pos.x + m.vel.x, m.pos.y + m.vel.y)
  {
  }

  lemma EndOfLine(m: Motion, distance: real)
    requires distance >= 0.0
    ensures OnTheLine(m, Fraction(distance), distance.Floor + 1) == Vec(m.pos.x + m.vel.x, m.pos.y + m.vel.y)
  {
    hide Fraction, Target;
    WholeFraction(distance);
    TargetWhole(m, Fraction(distance) * (distance.Floor + 1) as real);
  }

  /** That is so exactly for a velocity that is zero or not below the least length `MoveBox` looks at. */
  lemma UnobstructedIff(map_: TileMap, size: Vec, elasticity: Vec, m: Motion, distance: real)
    requires map_.Valid() && distance >= 0.0
    requires forall k: nat ::
               1 <= k <= distance.Floor + 1 ==> !TestBox(map_, OnTheLine(m, Fraction(distance), k), size)
    ensures AfterMove(map_, size, elasticity, distance, m).pos == Vec(m.pos.x + m.vel.x, m.pos.y + m.vel.y)
            <==> distance > 0.00001 || m.vel == Vec(0.0, 0.0)
  {
    hide OnTheLine, TestBox, Bounce, MicroSteps;
    if distance > 0.00001 {
      UnobstructedMove(map_, size, elasticity, m, distance);
    }
  }

  // ---------------------------------------------------------------------------------------------
  // What a blocked axis gets, and that the other one goes on
  // ---------------------------------------------------------------------------------------------

  /** The way on is blocked in the first axis: straight ahead in it, or only at the corner. */
  predicate BlockedX(map_: TileMap, size: Vec, fraction: real, m: Motion)
    requires map_.Valid()
  {
    var to := Target(m, fraction);
    TestBox(map_, to, size) && (TestBox(map_, Vec(to.x, m.pos.y), size) || !TestBox(map_, Vec(m.pos.x, to.y), size))
  }

  predicate BlockedY(map_: TileMap, size: Vec, fraction: real, m: Motion)
    requires map_.Valid()
  {
    var to := Target(m, fraction);
    TestBox(map_, to, size) && (TestBox(map_, Vec(m.pos.x, to.y), size) || !TestBox(map_, Vec(to.x, m.pos.y), size))
  }

  /** How many of the first `n` micro-steps are blocked in the first axis. */
  function HitsX(map_: TileMap, size: Vec, e: Vec, fraction: real, m: Motion, n: nat): nat
    requires map_.Valid()
  {
    if n == 0 then 0
    else
      var a := MicroSteps(map_, size, e, fraction, m, n - 1);
      HitsX(map_, size, e, fraction, m, n - 1)
      + if !Stopped(a, fraction) && BlockedX(map_, size, fraction, a) then 1 else 0
  }

  function HitsY(map_: TileMap, size: Vec, e: Vec, fraction: real, m: Motion, n: nat): nat
    requires map_.Valid()
  {
    if n == 0 then 0
    else
      var a := MicroSteps(map_, size, e, fraction, m, n - 1);
      HitsY(map_, size, e, fraction, m, n - 1)
      + if !Stopped(a, fraction) && BlockedY(map_, size, fraction, a) then 1 else 0
  }

  function Power(b: real, k: nat): real {
    if k == 0 then 1.0 else Power(b, k - 1) * b
  }

  /** `v` thrown back `k` times. */
  function Thrown(v: real, e: real, k: nat): real {
    v * Power(-e, k)
  }

  lemma ThrownOnce(v: real, e: real, k: nat)
    ensures Thrown(v, e, 0) == v
    ensures Thrown(v, e, k + 1) == Reflect(Thrown(v, e, k), e)
  {
    var p := Power(-e, k);
    assert v * (p * -e) == v * p * -e;
  }

  lemma BlockedStep(map_: TileMap, size: Vec, e: Vec, fraction: real, m: Motion)
    requires map_.Valid()
    ensures var next := MicroStep(map_, size, e, fraction, m);
            && next.vel.x == (if BlockedX(map_, size, fraction, m) then Reflect(m.vel.x, e.x) else m.vel.x)
            && next.vel.y == (if BlockedY(map_, size, fraction, m) then Reflect(m.vel.y, e.y) else m.vel.y)
            && next.pos.x == (if BlockedX(map_, size, fraction, m) then m.pos.x else Moved(m.pos.x, m.vel.x, fraction))
            && next.pos.y == (if BlockedY(map_, size, fraction, m) then m.pos.y else Moved(m.pos.y, m.vel.y, fraction))
  {
    hide TestBox, Reflect, Moved;
  }

  /** After any number of micro-steps a velocity component is the initial one, turned around and scaled by the
      elasticity once for each step that was blocked in its axis. */
  lemma {:induction false} VelocityLaw(map_: TileMap, size: Vec, e: Vec, fraction: real, m: Motion, n: nat)
    requires map_.Valid()
    ensures var end := MicroSteps(map_, size, e, fraction, m, n);
            && end.vel.x == Thrown(m.vel.x, e.x, HitsX(map_, size, e, fraction, m, n))
            && end.vel.y == Thrown(m.vel.y, e.y, HitsY(map_, size, e, fraction, m, n))
    decreases n
  {
    hide MicroSteps, MicroStep, Stopped, BlockedX, BlockedY, Thrown, Reflect;
    if n == 0 {
      NotYet(map_, size, e, fraction, m);
      ThrownOnce(m.vel.x, e.x, 0);
      ThrownOnce(m.vel.y, e.y, 0);
    } else {
      VelocityLaw(map_, size, e, fraction, m, n - 1);
      LastMicroStep(map_, size, e, fraction, m, n - 1);
      BlockedStep(map_, size, e, fraction, MicroSteps(map_, size, e, fraction, m, n - 1));
      ThrownOnce(m.vel.x, e.x, HitsX(map_, size, e, fraction, m, n - 1));
      ThrownOnce(m.vel.y, e.y, HitsY(map_, size, e, fraction, m, n - 1));
    }
  }

  lemma BounceIs(e: Vec)
    ensures Bounce(e).x == if e.x < -1.0 then -1.0 else if e.x > 1.0 then 1.0 else e.x
    ensures Bounce(e).y == if e.y < -1.0 then -1.0 else if e.y > 1.0 then 1.0 else e.y
  {
  }

  /** The same for the whole call, with the elasticity taken as -1 or 1 when it is beyond. */
  lemma MoveBoxVelocity(map_: TileMap, size: Vec, elasticity: Vec, m: Motion, distance: real)
    requires map_.Valid() && distance > 0.00001
    ensures var end, e := AfterMove(map_, size, elasticity, distance, m), Bounce(elasticity);
            var f, n := Fraction(distance), distance.Floor + 1;
            && end.vel.x == Thrown(m.vel.x, e.x, HitsX(map_, size, e, f, m, n))
            && end.vel.y == Thrown(m.vel.y, e.y, HitsY(map_, size, e, f, m, n))
    ensures Bounce(elasticity).x
            == if elasticity.x < -1.0 then -1.0 else if elasticity.x > 1.0 then 1.0 else elasticity.x
    ensures Bounce(elasticity).y
            == if elasticity.y < -1.0 then -1.0 else if elasticity.y > 1.0 then 1.0 else elasticity.y
  {
    BounceIs(elasticity);
    hide MicroSteps, Fraction, HitsX, HitsY, Thrown, Bounce;
    VelocityLaw(map_, size, Bounce(elasticity), Fraction(distance), m, distance.Floor + 1);
  }

  /** In every micro-step a coordinate moves on by its share of the velocity exactly if the step is not blocked in its
      axis, whatever happens in the other one. */
  lemma PositionLaw(map_: TileMap, size: Vec, e: Vec, fraction: real, m: Motion, n: nat)
    requires map_.Valid()
    ensures var a := MicroSteps(map_, size, e, fraction, m, n);
            var b := MicroSteps(map_, size, e, fraction, m, n + 1);
            && b.pos.x == (if BlockedX(map_, size, fraction, a) then a.pos.x else Moved(a.pos.x, a.vel.x, fraction))
            && b.pos.y == (if BlockedY(map_, size, fraction, a) then a.pos.y else Moved(a.pos.y, a.vel.y, fraction))
  {
    hide MicroSteps, MicroStep, BlockedX, BlockedY, Moved;
    var a := MicroSteps(map_, size, e, fraction, m, n);
    LastMicroStep(map_, size, e, fraction, m, n);
    BlockedStep(map_, size, e, fraction, a);
    if Stopped(a, fraction) {
      NowhereToGo(a, fraction);
    }
  }

  lemma NowhereToGo(m: Motion, fraction: real)
    requires Stopped(m, fraction)
    ensures Target(m, fraction) == m.pos
  {
  }

  // ---------------------------------------------------------------------------------------------
  // Sliding
  // ---------------------------------------------------------------------------------------------

  /** Where the box is after `k` micro-steps when it moves in one axis only. */
  function AlongX(m: Motion, fraction: real, k: nat): Vec {
    Vec(Moved(m.pos.x, m.vel.x, fraction * k as real), m.pos.y)
  }

  function AlongY(m: Motion, fraction: real, k: nat): Vec {
    Vec(m.pos.x, Moved(m.pos.y, m.vel.y, fraction * k as real))
  }

  lemma FirstAlong(m: Motion, fraction: real)
    ensures AlongX(m, fraction, 1) == Vec(Target(m, fraction).x, m.pos.y)
    ensures AlongY(m, fraction, 1) == Vec(m.pos.x, Target(m, fraction).y)
  {
  }

  lemma NoSpeed(p: real, s: real)
    ensures Moved(p, 0.0, s) == p
  {
  }

  lemma ThrownByNothing(v: real)
    ensures Reflect(v, 0.0) == 0.0
  {
  }

  /** A box pressed against the ground moves on along it from the first micro-step. */
  lemma FirstSlideX(map_: TileMap, size: Vec, e: Vec, fraction: real, m: Motion)
    requires map_.Valid() && e.y == 0.0
    requires var below := Moved(m.pos.y, m.vel.y, fraction);
             && TestBox(map_, Vec(m.pos.x, below), size)
             && TestBox(map_, Vec(Moved(m.pos.x, m.vel.x, fraction), below), size)
    requires !TestBox(map_, AlongX(m, fraction, 1), size)
    ensures MicroStep(map_, size, e, fraction, m) == Motion(AlongX(m, fraction, 1), Vec(m.vel.x, 0.0), m.grounded)
  {
    hide TestBox, Moved, Reflect;
    FirstAlong(m, fraction);
    ThrownByNothing(m.vel.y);
  }

  lemma FirstSlideY(map_: TileMap, size: Vec, e: Vec, fraction: real, m: Motion)
    requires map_.Valid() && e.x == 0.0
    requires var beside := Moved(m.pos.x, m.vel.x, fraction);
             && TestBox(map_, Vec(beside, m.pos.y), size)
             && TestBox(map_, Vec(beside, Moved(m.pos.y, m.vel.y, fraction)), size)
    requires !TestBox(map_, AlongY(m, fraction, 1), size)
    ensures MicroStep(map_, size, e, fraction, m) == Motion(AlongY(m, fraction, 1), Vec(0.0, m.vel.y), m.grounded)
  {
    hide TestBox, Moved, Reflect;
    FirstAlong(m, fraction);
    ThrownByNothing(m.vel.x);
  }

  /** The line behind the first step is the rest of the slide. */
  lemma RestOfSlideX(m: Motion, fraction: real, k: nat)
    ensures OnTheLine(Motion(AlongX(m, fraction, 1), Vec(m.vel.x, 0.0), m.grounded), fraction, k)
            == AlongX(m, fraction, k + 1)
  {
    hide Moved;
    var s := fraction * k as real;
    FirstAlong(m, fraction);
    MovedTwice(m.pos.x, m.vel.x, fraction, s);
    OneMore(fraction, k);
    NoSpeed(m.pos.y, s);
  }

  lemma RestOfSlideY(m: Motion, fraction: real, k: nat)
    ensures OnTheLine(Motion(AlongY(m, fraction, 1), Vec(0.0, m.vel.y), m.grounded), fraction, k)
            == AlongY(m, fraction, k + 1)
  {
    hide Moved;
    var s := fraction * k as real;
    FirstAlong(m, fraction);
    MovedTwice(m.pos.y, m.vel.y, fraction, s);
    OneMore(fraction, k);
    NoSpeed(m.pos.x, s);
  }

  lemma NotStopped(map_: TileMap, size: Vec, fraction: real, m: Motion)
    requires map_.Valid() && TestBox(map_, Target(m, fraction), size)
    requires !TestBox(map_, AlongX(m, fraction, 1), size) || !TestBox(map_, AlongY(m, fraction, 1), size)
    ensures !Stopped(m, fraction)
  {
    hide TestBox;
    FirstAlong(m, fraction);
  }

  lemma SlideStepsX(map_: TileMap, size: Vec, e: Vec, fraction: real, m: Motion, n: nat)
    requires map_.Valid() && fraction > 0.0 && e.y == 0.0 && n > 0
    requires var below := Moved(m.pos.y, m.vel.y, fraction);
             && TestBox(map_, Vec(m.pos.x, below), size)
             && TestBox(map_, Vec(Moved(m.pos.x, m.vel.x, fraction), below), size)
    requires forall k: nat :: 1 <= k <= n ==> !TestBox(map_, AlongX(m, fraction, k), size)
    ensures MicroSteps(map_, size, e, fraction, m, n)
            == Motion(AlongX(m, fraction, n), Vec(m.vel.x, 0.0), m.grounded)
  {
    hide TestBox, OnTheLine, AlongX, Stopped, Moved, MicroStep;
    var next := Motion(AlongX(m, fraction, 1), Vec(m.vel.x, 0.0), m.grounded);
    assert !TestBox(map_, AlongX(m, fraction, 1), size);
    NotStopped(map_, size, fraction, m);
    FirstSlideX(map_, size, e, fraction, m);
    forall k: nat | 1 <= k <= n - 1
      ensures !TestBox(map_, OnTheLine(next, fraction, k), size)
    {
      RestOfSlideX(m, fraction, k);
      assert !TestBox(map_, AlongX(m, fraction, k + 1), size);
    }
    FreeLine(map_, size, e, fraction, next, n - 1);
    RestOfSlideX(m, fraction, n - 1);
  }

  lemma SlideStepsY(map_: TileMap, size: Vec, e: Vec, fraction: real, m: Motion, n: nat)
    requires map_.Valid() && fraction > 0.0 && e.x == 0.0 && n > 0
    requires var beside := Moved(m.pos.x, m.vel.x, fraction);
             && TestBox(map_, Vec(beside, m.pos.y), size)
             && TestBox(map_, Vec(beside, Moved(m.pos.y, m.vel.y, fraction)), size)
    requires forall k: nat :: 1 <= k <= n ==> !TestBox(map_, AlongY(m, fraction, k), size)
    ensures MicroSteps(map_, size, e, fraction, m, n)
            == Motion(AlongY(m, fraction, n), Vec(0.0, m.vel.y), m.grounded)
  {
    hide TestBox, OnTheLine, AlongY, Stopped, Moved, MicroStep;
    var next := Motion(AlongY(m, fraction, 1), Vec(0.0, m.vel.y), m.grounded);
    assert !TestBox(map_, AlongY(m, fraction, 1), size);
    NotStopped(map_, size, fraction, m);
    FirstSlideY(map_, size, e, fraction, m);
    forall k: nat | 1 <= k <= n - 1
      ensures !TestBox(map_, OnTheLine(next, fraction, k), size)
    {
      RestOfSlideY(m, fraction, k);
      assert !TestBox(map_, AlongY(m, fraction, k + 1), size);
    }
    FreeLine(map_, size, e, fraction, next, n - 1);
    RestOfSlideY(m, fraction, n - 1);
  }

  /** A box on the ground, without elasticity, moves along it as far as its speed along it goes, and only the speed
      into the ground is lost. */
  lemma SlidesAlongGround(map_: TileMap, size: Vec, elasticity: Vec, m: Motion, distance: real)
    requires map_.Valid() && distance > 0.00001 && elasticity.y == 0.0
    requires var f := Fraction(distance);
             && TestBox(map_, Vec(m.pos.x, Moved(m.pos.y, m.vel.y, f)), size)
             && TestBox(map_, Vec(Moved(m.pos.x, m.vel.x, f), Moved(m.pos.y, m.vel.y, f)), size)
    requires forall k: nat ::
               1 <= k <= distance.Floor + 1 ==> !TestBox(map_, AlongX(m, Fraction(distance), k), size)
    ensures AfterMove(map_, size, elasticity, distance, m)
            == Motion(Vec(m.pos.x + m.vel.x, m.pos.y), Vec(m.vel.x, 0.0), m.grounded)
  {
    hide TestBox, MicroSteps, AlongX, Fraction, Moved;
    SlideStepsX(map_, size, Bounce(elasticity), Fraction(distance), m, distance.Floor + 1);
    EndOfSlide(m, distance);
  }

  /** The same along a wall. */
  lemma SlidesAlongWall(map_: TileMap, size: Vec, elasticity: Vec, m: Motion, distance: real)
    requires map_.Valid() && distance > 0.00001 && elasticity.x == 0.0
    requires var f := Fraction(distance);
             && TestBox(map_, Vec(Moved(m.pos.x, m.vel.x, f), m.pos.y), size)
             && TestBox(map_, Vec(Moved(m.pos.x, m.vel.x, f), Moved(m.pos.y, m.vel.y, f)), size)
    requires forall k: nat ::
               1 <= k <= distance.Floor + 1 ==> !TestBox(map_, AlongY(m, Fraction(distance), k), size)
    ensures AfterMove(map_, size, elasticity, distance, m)
            == Motion(Vec(m.pos.x, m.pos.y + m.vel.y), Vec(0.0, m.vel.y), m.grounded)
  {
    hide TestBox, MicroSteps, AlongY, Fraction, Moved;
    SlideStepsY(map_, size, Bounce(elasticity), Fraction(distance), m, distance.Floor + 1);
    EndOfSlide(m, distance);
  }

  lemma EndOfSlide(m: Motion, distance: real)
    requires distance >= 0.0
    ensures AlongX(m, Fraction(distance), distance.Floor + 1) == Vec(m.pos.x + m.vel.x, m.pos.y)
    ensures AlongY(m, Fraction(distance), distance.Floor + 1) == Vec(m.pos.x, m.pos.y + m.vel.y)
  {
    hide Fraction;
    EndOfLine(m, distance);
  }
}
