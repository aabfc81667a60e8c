/**
  * Map data as plain values -- tiles as property bags, layers as columns of
  * optional tiles, objects as positioned property bags -- and what the world's
  * scans of that data produce.
  */
module MapScan {
  import opened Wrappers
  import opened Entities
  import opened ActorArrays

  type Props = map<string, string>

  const AnimationKey: string := "animation"
  const SpeedKey: string := "speed"
  const TextureKey: string := "texture"
  const ActorKey: string := "actor"
  const ColorKey: string := "color"
  const DestructableKey: string := "destructable"
  const TypeKey: string := "type"

  /** Values the world compares property values against. */
  const BrickKind: string := "Brick"
  const BonusKind: string := "Bonus"
  const TrueText: string := "true"
  const SuperMushroomType: string := "super_mushroom"
  const GoombaType: string := "goomba"

  /** Frame interval of an animated tile whose tile has no `speed` property. */
  const DefaultInterval: real := 0.15

  /** World units per map pixel. */
  const Scale: real := 1.0 / 16.0

  /** A texture region handed out by the tileset lookup; opaque. */
  datatype Region = Region(id: nat)

  /** An animated tile's timing and the name of the frame set it cycles through. */
  datatype TileAnimation = TileAnimation(interval: real, frames: string)

  /**
    * A map tile: its property bag, the texture region the tileset pass bound to
    * it (None: the tile's own art), and its animation if it is an animated tile.
    */
  datatype Tile = Tile(props: Props, region: Option<Region>, animation: Option<TileAnimation>)

  /** A layer cell: None is an empty cell (a null cell). */
  type Cell = Option<Tile>

  /** A tile layer as a value: g[x][y] is the cell at column x, row y. */
  type Grid = seq<seq<Cell>>

  /** An object of an object layer: its position in map pixels and its properties. */
  datatype MapObject = MapObject(x: real, y: real, props: Props)

  function Get(props: Props, key: string): Option<string>
  {
    if key in props then Some(props[key]) else None
  }

  /** A float-to-int cast: truncation toward zero. */
  function Trunc(r: real): (i: int)
    ensures r >= 0.0 ==> i as real <= r < i as real + 1.0
    ensures r < 0.0 ==> i as real - 1.0 < r <= i as real
  {
    if r >= 0.0 then r.Floor else -((-r).Floor)
  }

  // ---------------------------------------------------------------------
  // animated tiles
  // ---------------------------------------------------------------------

  /** The interval of the animated tile made from a tile with these properties. */
  function IntervalOf(props: Props, parseFloat: string -> real): real
  {
    if SpeedKey in props then parseFloat(props[SpeedKey]) else DefaultInterval
  }

  /**
    * A cell after the animation pass: a tile with an `animation` property becomes an
    * animated tile over the named frame set that carries all of the old properties.
    */
  function AnimateCell(c: Cell, parseFloat: string -> real): (r: Cell)
    ensures r.Some? <==> c.Some?
    ensures c.Some? ==> r.value.props == c.value.props
    ensures r != c ==> c.Some? && AnimationKey in c.value.props
    ensures c.Some? && AnimationKey in c.value.props ==>
      && r.value.animation == Some(TileAnimation(IntervalOf(c.value.props, parseFloat), c.value.props[AnimationKey]))
      && r.value.region.None?
  {
    match c
    case None => None
    case Some(t) =>
      if AnimationKey in t.props then
        Some(Tile(t.props, None, Some(TileAnimation(IntervalOf(t.props, parseFloat), t.props[AnimationKey]))))
      else c
  }

  /** Animating an already animated cell builds the same tile again. */
  lemma AnimateCellIdempotent(c: Cell, parseFloat: string -> real)
    ensures AnimateCell(AnimateCell(c, parseFloat), parseFloat) == AnimateCell(c, parseFloat)
  {
  }

  // ---------------------------------------------------------------------
  // shared texture regions
  // ---------------------------------------------------------------------

  /** The `texture` property of a cell's tile, if it has one. */
  function TextureOf(c: Cell): Option<string>
  {
    if c.Some? && TextureKey in c.value.props then Some(c.value.props[TextureKey]) else None
  }

  /** A cell after the tileset pass: a tile with a `texture` property shows the region looked up for that name. */
  function RetextureCell(c: Cell, getTile: string -> Region): Cell
  {
    match TextureOf(c)
    case None => c
    case Some(name) => Some(c.value.(region := Some(getTile(name))))
  }

  /** Retexturing keeps the tile's properties and animation and changes only the region of a tile with a `texture`. */
  lemma RetextureCellFacts(c: Cell, getTile: string -> Region)
    ensures RetextureCell(c, getTile).Some? <==> c.Some?
    ensures c.Some? ==> RetextureCell(c, getTile).value.props == c.value.props
    ensures c.Some? ==> RetextureCell(c, getTile).value.animation == c.value.animation
    ensures TextureOf(c).None? ==> RetextureCell(c, getTile) == c
    ensures TextureOf(c).Some? ==> RetextureCell(c, getTile).value.region == Some(getTile(TextureOf(c).value))
  {
  }

  /** Binding the shared regions twice binds the same regions. */
  lemma RetextureCellIdempotent(c: Cell, getTile: string -> Region)
    ensures RetextureCell(RetextureCell(c, getTile), getTile) == RetextureCell(c, getTile)
  {
  }

  /** A cell of a layer as loading leaves it: animated (at x, y >= 1), then bound to its region. */
  function LoadCell(c: Cell, x: int, y: int, parseFloat: string -> real, getTile: string -> Region): Cell
  {
    RetextureCell(if 1 <= x && 1 <= y then AnimateCell(c, parseFloat) else c, getTile)
  }

  /** Loading keeps which cells hold a tile and every tile's properties. */
  lemma LoadCellShape(c: Cell, x: int, y: int, parseFloat: string -> real, getTile: string -> Region)
    ensures LoadCell(c, x, y, parseFloat, getTile).Some? <==> c.Some?
    ensures c.Some? ==> LoadCell(c, x, y, parseFloat, getTile).value.props == c.value.props
  {
    RetextureCellFacts(if 1 <= x && 1 <= y then AnimateCell(c, parseFloat) else c, getTile);
  }

  /** A loaded layer has the shape of the layer it was loaded from. */
  lemma LoadedSameShape(g: Grid, h: Grid, parseFloat: string -> real, getTile: string -> Region)
    requires |g| == |h| && forall x :: 0 <= x < |g| ==> |g[x]| == |h[x]|
    requires forall x, y :: 0 <= x < |g| && 0 <= y < |g[x]| ==> h[x][y] == LoadCell(g[x][y], x, y, parseFloat, getTile)
    ensures SameShape(h, g)
  {
    forall x, y | 0 <= x < |g| && 0 <= y < |g[x]|
      ensures h[x][y].Some? == g[x][y].Some? && (h[x][y].Some? ==> h[x][y].value.props == g[x][y].value.props)
    {
      LoadCellShape(g[x][y], x, y, parseFloat, getTile);
    }
  }

  // ---------------------------------------------------------------------
  // bricks and the items hidden in them
  // ---------------------------------------------------------------------

  predicate HasActor(c: Cell)
  {
    c.Some? && ActorKey in c.value.props
  }

  predicate IsBrickType(kind: string)
  {
    kind == BrickKind || kind == BonusKind
  }

  /** A tile the brick pass turns into a brick. */
  predicate IsBrickCell(c: Cell)
  {
    HasActor(c) && IsBrickType(c.value.props[ActorKey])
  }

  /** A cell after the brick pass: every tile with an `actor` property is removed from the layer. */
  function ClearActorCell(c: Cell): (r: Cell)
    ensures HasActor(c) ==> r.None?
    ensures !HasActor(c) ==> r == c
    ensures !HasActor(r)
  {
    if HasActor(c) then None else c
  }

  /** Whether a hidden object lies in cell (x, y): its position scaled by 1/16 and truncated. */
  predicate InCell(o: MapObject, x: int, y: int)
  {
    Trunc(o.x * Scale) == x && Trunc(o.y * Scale) == y
  }

  /** Every hidden object in cell (x, y) carries a `type` (an untyped one would be dereferenced as null). */
  predicate ItemsTyped(hidden: seq<MapObject>, x: int, y: int)
  {
    forall o :: o in hidden && InCell(o, x, y) ==> TypeKey in o.props
  }

  /** The item created for a hidden object in a brick at (x, y): a super mushroom, or nothing. */
  function ItemOf(o: MapObject, x: int, y: int): Option<Mushroom>
  {
    if Get(o.props, TypeKey) == Some(SuperMushroomType) then Some(Super(x, y, SuperArg)) else None
  }

  /** The hidden objects in cell (x, y), in object order. */
  function CellObjects(hidden: seq<MapObject>, x: int, y: int): seq<MapObject>
  {
    CellObjectsAmong(hidden, |hidden|, x, y)
  }

  /** The hidden objects of cell (x, y) among the first n, in object order. */
  function CellObjectsAmong(hidden: seq<MapObject>, n: nat, x: int, y: int): seq<MapObject>
    requires n <= |hidden|
  {
    if n == 0 then [] else CellObjectsAmong(hidden, n - 1, x, y) + (if InCell(hidden[n - 1], x, y) then [hidden[n - 1]] else [])
  }

  /** The items attached to the brick at (x, y): one per hidden object in that cell, in object order. */
  function ItemsFor(hidden: seq<MapObject>, x: int, y: int): seq<Option<Mushroom>>
  {
    ItemsAmong(hidden, |hidden|, x, y)
  }

  /** The items for the first n hidden objects, counted by index (the brick pass's loop over the objects). */
  function ItemsAmong(hidden: seq<MapObject>, n: nat, x: int, y: int): seq<Option<Mushroom>>
    requires n <= |hidden|
  {
    if n == 0 then [] else ItemsAmong(hidden, n - 1, x, y) + (if InCell(hidden[n - 1], x, y) then [ItemOf(hidden[n - 1], x, y)] else [])
  }

  lemma {:induction false} CellObjectsAmongExact(hidden: seq<MapObject>, n: nat, x: int, y: int)
    requires n <= |hidden|
    ensures forall o :: o in CellObjectsAmong(hidden, n, x, y) <==> (exists i :: 0 <= i < n && hidden[i] == o) && InCell(o, x, y)
  {
    if n > 0 {
      CellObjectsAmongExact(hidden, n - 1, x, y);
    }
  }

  lemma CellObjectsExact(hidden: seq<MapObject>, x: int, y: int)
    ensures forall o :: o in CellObjects(hidden, x, y) <==> o in hidden && InCell(o, x, y)
  {
    CellObjectsAmongExact(hidden, |hidden|, x, y);
  }

  lemma {:induction false} ItemsAmongMatch(hidden: seq<MapObject>, n: nat, x: int, y: int)
    requires n <= |hidden|
    ensures |ItemsAmong(hidden, n, x, y)| == |CellObjectsAmong(hidden, n, x, y)|
    ensures forall i :: 0 <= i < |ItemsAmong(hidden, n, x, y)| ==>
      ItemsAmong(hidden, n, x, y)[i] == ItemOf(CellObjectsAmong(hidden, n, x, y)[i], x, y)
  {
    if n > 0 {
      ItemsAmongMatch(hidden, n - 1, x, y);
    }
  }

  /** The i-th item of a brick comes from the i-th hidden object of its cell. */
  lemma ItemsMatchCellObjects(hidden: seq<MapObject>, x: int, y: int)
    ensures |ItemsFor(hidden, x, y)| == |CellObjects(hidden, x, y)|
    ensures forall i :: 0 <= i < |ItemsFor(hidden, x, y)| ==>
      ItemsFor(hidden, x, y)[i] == ItemOf(CellObjects(hidden, x, y)[i], x, y)
  {
    ItemsAmongMatch(hidden, |hidden|, x, y);
  }

  /**
    * The mushrooms of the brick at (x, y) are super mushrooms at (x, y), and there is
    * one exactly when some hidden object of that cell has type `super_mushroom`.
    */
  lemma MushroomsOfCell(hidden: seq<MapObject>, x: int, y: int)
    ensures forall m :: m in Somes(ItemsFor(hidden, x, y)) ==> m == Super(x, y, SuperArg)
    ensures Super(x, y, SuperArg) in Somes(ItemsFor(hidden, x, y)) <==>
      exists o :: o in hidden && InCell(o, x, y) && Get(o.props, TypeKey) == Some(SuperMushroomType)
  {
    ItemsMatchCellObjects(hidden, x, y);
    CellObjectsExact(hidden, x, y);
    var items, objs := ItemsFor(hidden, x, y), CellObjects(hidden, x, y);
    SomesMembers(items);
    forall m | m in Somes(items) ensures m == Super(x, y, SuperArg) {
      var i :| 0 <= i < |items| && items[i] == Some(m);
      assert items[i] == ItemOf(objs[i], x, y);
    }
    if exists o :: o in hidden && InCell(o, x, y) && Get(o.props, TypeKey) == Some(SuperMushroomType) {
      var o :| o in hidden && InCell(o, x, y) && Get(o.props, TypeKey) == Some(SuperMushroomType);
      var i :| 0 <= i < |objs| && objs[i] == o;
      assert items[i] == Some(Super(x, y, SuperArg));
    }
    if Super(x, y, SuperArg) in Somes(items) {
      var i :| 0 <= i < |items| && items[i] == Some(Super(x, y, SuperArg));
      assert items[i] == ItemOf(objs[i], x, y);
      assert objs[i] in objs;
    }
  }

  /** The brick built from a tile with an `actor` property at (x, y). */
  function BrickOf(t: Tile, x: int, y: int, items: seq<Option<Mushroom>>): Brick
    requires ActorKey in t.props
  {
    Brick(x, y, Get(t.props, ColorKey), t.props[ActorKey] == BonusKind,
          DestructableKey in t.props && t.props[DestructableKey] == TrueText, items)
  }

  /**
    * What the brick pass adds to the stage for cell (x, y): for a brick tile, its items
    * and then the brick; for any other tile with an `actor` property, a null; otherwise nothing.
    */
  function CellSpawns(c: Cell, x: int, y: int, hidden: seq<MapObject>): seq<Actor>
  {
    if !HasActor(c) then []
    else if IsBrickType(c.value.props[ActorKey]) then
      var items := ItemsFor(hidden, x, y);
      ItemActors(items) + [BrickActor(BrickOf(c.value, x, y, items))]
    else [NoActor]
  }

  /**
    * A brick appears exactly for a tile whose `actor` is Brick or Bonus; it is a bonus block
    * exactly for Bonus, destructable exactly when `destructable` is "true", and it
    * carries the items of its cell.
    */
  lemma CellSpawnsBrick(c: Cell, x: int, y: int, hidden: seq<MapObject>)
    ensures (exists b :: BrickActor(b) in CellSpawns(c, x, y, hidden)) <==> IsBrickCell(c)
    ensures forall b :: BrickActor(b) in CellSpawns(c, x, y, hidden) ==>
      && b.x == x && b.y == y
      && b.bonus == (c.value.props[ActorKey] == BonusKind)
      && b.destructable == (Get(c.value.props, DestructableKey) == Some(TrueText))
      && b.color == Get(c.value.props, ColorKey)
      && b.items == ItemsFor(hidden, x, y)
  {
    if IsBrickCell(c) {
      var items := ItemsFor(hidden, x, y);
      var s := CellSpawns(c, x, y, hidden);
      ItemActorsKinds(items);
      assert s[|s| - 1] == BrickActor(BrickOf(c.value, x, y, items));
    }
  }

  /** A list of lists joined in order. */
  function Concat<T>(parts: seq<seq<T>>): seq<T>
  {
    if parts == [] then [] else Concat(parts[..|parts| - 1]) + parts[|parts| - 1]
  }

  lemma ConcatSnoc<T>(parts: seq<seq<T>>, p: seq<T>)
    ensures Concat(parts + [p]) == Concat(parts) + p
  {
    assert (parts + [p])[..|parts|] == parts;
  }

  /** What a part holds is in the join. */
  lemma {:induction false} ConcatHas<T>(parts: seq<seq<T>>, i: nat, a: T)
    requires i < |parts| && a in parts[i]
    ensures a in Concat(parts)
  {
    var init := parts[..|parts| - 1];
    if i < |parts| - 1 {
      assert init[i] == parts[i];
      ConcatHas(init, i, a);
    }
  }

  /** What the join holds comes from one of the parts, returned as i. */
  lemma {:induction false} ConcatSource<T>(parts: seq<seq<T>>, a: T) returns (i: nat)
    requires a in Concat(parts)
    ensures i < |parts| && a in parts[i]
  {
    var init := parts[..|parts| - 1];
    if a in Concat(init) {
      i := ConcatSource(init, a);
      assert init[i] == parts[i];
    } else {
      i := |parts| - 1;
    }
  }

  /** The additions of rows 1 .. n-1 of column x, one list per row. */
  function ColumnParts(col: seq<Cell>, x: int, n: nat, hidden: seq<MapObject>): (r: seq<seq<Actor>>)
    requires n <= |col| || n == 1
    ensures |r| == if n <= 1 then 0 else n - 1
  {
    if n <= 1 then [] else ColumnParts(col, x, n - 1, hidden) + [CellSpawns(col[n - 1], x, n - 1, hidden)]
  }

  /** Stage additions of rows 1 .. n-1 of column x, in row order. */
  function ColumnSpawns(col: seq<Cell>, x: int, n: nat, hidden: seq<MapObject>): seq<Actor>
    requires n <= |col| || n == 1
  {
    if n <= 1 then [] else ColumnSpawns(col, x, n - 1, hidden) + CellSpawns(col[n - 1], x, n - 1, hidden)
  }

  lemma {:induction false} ColumnSpawnsConcat(col: seq<Cell>, x: int, n: nat, hidden: seq<MapObject>)
    requires n <= |col| || n == 1
    ensures ColumnSpawns(col, x, n, hidden) == Concat(ColumnParts(col, x, n, hidden))
  {
    if n > 1 {
      ColumnSpawnsConcat(col, x, n - 1, hidden);
      ConcatSnoc(ColumnParts(col, x, n - 1, hidden), CellSpawns(col[n - 1], x, n - 1, hidden));
    }
  }

  /** The additions of columns 1 .. n-1, one list per column. */
  function GridParts(g: Grid, n: nat, hidden: seq<MapObject>): (r: seq<seq<Actor>>)
    requires n <= |g| || n == 1
    ensures |r| == if n <= 1 then 0 else n - 1
  {
    if n <= 1 then [] else GridParts(g, n - 1, hidden) + [ColumnSpawns(g[n - 1], n - 1, |g[n - 1]|, hidden)]
  }

  /** Stage additions of columns 1 .. n-1, column by column. */
  function GridSpawns(g: Grid, n: nat, hidden: seq<MapObject>): seq<Actor>
    requires n <= |g| || n == 1
  {
    if n <= 1 then [] else GridSpawns(g, n - 1, hidden) + ColumnSpawns(g[n - 1], n - 1, |g[n - 1]|, hidden)
  }

  lemma {:induction false} GridSpawnsConcat(g: Grid, n: nat, hidden: seq<MapObject>)
    requires n <= |g| || n == 1
    ensures GridSpawns(g, n, hidden) == Concat(GridParts(g, n, hidden))
  {
    if n > 1 {
      GridSpawnsConcat(g, n - 1, hidden);
      ConcatSnoc(GridParts(g, n - 1, hidden), ColumnSpawns(g[n - 1], n - 1, |g[n - 1]|, hidden));
    }
  }

  lemma {:induction false} ColumnPartsAt(col: seq<Cell>, x: int, n: nat, hidden: seq<MapObject>, y: int)
    requires n <= |col| || n == 1
    requires 1 <= y < n
    ensures ColumnParts(col, x, n, hidden)[y - 1] == CellSpawns(col[y], x, y, hidden)
  {
    if y < n - 1 {
      ColumnPartsAt(col, x, n - 1, hidden, y);
    }
  }

  lemma {:induction false} GridPartsAt(g: Grid, n: nat, hidden: seq<MapObject>, x: int)
    requires n <= |g| || n == 1
    requires 1 <= x < n
    ensures GridParts(g, n, hidden)[x - 1] == ColumnSpawns(g[x], x, |g[x]|, hidden)
  {
    if x < n - 1 {
      GridPartsAt(g, n - 1, hidden, x);
    }
  }

  /** Every brick cell of the scanned range has typed hidden items. */
  predicate BricksTyped(g: Grid, hidden: seq<MapObject>)
  {
    forall x, y :: 1 <= x < |g| && 1 <= y < |g[x]| && IsBrickCell(g[x][y]) ==> ItemsTyped(hidden, x, y)
  }

  /** The brick pass's additions after one more column, appended to what came before them. */
  lemma GridSpawnsStep(g: Grid, x: nat, hidden: seq<MapObject>, before: seq<Actor>, found: seq<Mushroom>)
    requires 1 <= x < |g|
    ensures before + GridSpawns(g, x + 1, hidden) == (before + GridSpawns(g, x, hidden)) + ColumnSpawns(g[x], x, |g[x]|, hidden)
    ensures found + GridMushrooms(g, x + 1, hidden)
      == (found + GridMushrooms(g, x, hidden)) + ColumnMushrooms(g[x], x, |g[x]|, hidden)
  {
    var done, column := GridSpawns(g, x, hidden), ColumnSpawns(g[x], x, |g[x]|, hidden);
    assert GridSpawns(g, x + 1, hidden) == done + column;
    AppendAssoc(before, done, column);
    AppendAssoc(found, GridMushrooms(g, x, hidden), ColumnMushrooms(g[x], x, |g[x]|, hidden));
  }

  /** The brick pass's additions in one column after one more row, appended to what came before them. */
  lemma ColumnSpawnsStep(col: seq<Cell>, x: int, y: nat, hidden: seq<MapObject>, before: seq<Actor>, found: seq<Mushroom>)
    requires 1 <= y < |col|
    ensures before + ColumnSpawns(col, x, y + 1, hidden) == (before + ColumnSpawns(col, x, y, hidden)) + CellSpawns(col[y], x, y, hidden)
    ensures found + ColumnMushrooms(col, x, y + 1, hidden)
      == (found + ColumnMushrooms(col, x, y, hidden)) + CellMushrooms(col[y], x, y, hidden)
  {
    var done, cell := ColumnSpawns(col, x, y, hidden), CellSpawns(col[y], x, y, hidden);
    assert ColumnSpawns(col, x, y + 1, hidden) == done + cell;
    AppendAssoc(before, done, cell);
    AppendAssoc(found, ColumnMushrooms(col, x, y, hidden), CellMushrooms(col[y], x, y, hidden));
  }

  /** The mushrooms a cell adds are the mushrooms of its brick's items. */
  lemma CellSpawnsMushrooms(c: Cell, x: int, y: int, hidden: seq<MapObject>)
    ensures MushroomsIn(CellSpawns(c, x, y, hidden)) == if IsBrickCell(c) then Somes(ItemsFor(hidden, x, y)) else []
  {
    if IsBrickCell(c) {
      var items := ItemsFor(hidden, x, y);
      MushroomsInAppend(ItemActors(items), [BrickActor(BrickOf(c.value, x, y, items))]);
      MushroomsOfItems(items);
      assert MushroomsIn([BrickActor(BrickOf(c.value, x, y, items))]) == [] by {
        assert [BrickActor(BrickOf(c.value, x, y, items))][..0] == [];
      }
    } else if HasActor(c) {
      assert MushroomsIn([NoActor]) == [] by {
        assert [NoActor][..0] == [];
      }
    }
  }

  /** The mushrooms the brick pass records at cell (x, y): those of the brick's items, if it makes a brick. */
  function CellMushrooms(c: Cell, x: int, y: int, hidden: seq<MapObject>): seq<Mushroom>
  {
    if IsBrickCell(c) then Somes(ItemsFor(hidden, x, y)) else []
  }

  /** The mushrooms recorded for rows 1 .. n-1 of column x, in row order. */
  function ColumnMushrooms(col: seq<Cell>, x: int, n: nat, hidden: seq<MapObject>): seq<Mushroom>
    requires n <= |col| || n == 1
  {
    if n <= 1 then [] else ColumnMushrooms(col, x, n - 1, hidden) + CellMushrooms(col[n - 1], x, n - 1, hidden)
  }

  /** The mushrooms recorded for columns 1 .. n-1, column by column. */
  function GridMushrooms(g: Grid, n: nat, hidden: seq<MapObject>): seq<Mushroom>
    requires n <= |g| || n == 1
  {
    if n <= 1 then [] else GridMushrooms(g, n - 1, hidden) + ColumnMushrooms(g[n - 1], n - 1, |g[n - 1]|, hidden)
  }

  /** The mushrooms recorded for a column are exactly the item entries it adds to the stage. */
  lemma {:induction false} ColumnMushroomsSpawned(col: seq<Cell>, x: int, n: nat, hidden: seq<MapObject>)
    requires n <= |col| || n == 1
    ensures ColumnMushrooms(col, x, n, hidden) == MushroomsIn(ColumnSpawns(col, x, n, hidden))
  {
    if n > 1 {
      ColumnMushroomsSpawned(col, x, n - 1, hidden);
      MushroomsInAppend(ColumnSpawns(col, x, n - 1, hidden), CellSpawns(col[n - 1], x, n - 1, hidden));
      CellSpawnsMushrooms(col[n - 1], x, n - 1, hidden);
    }
  }

  /** The mushrooms recorded by the brick pass are exactly the item entries it adds to the stage. */
  lemma {:induction false} GridMushroomsSpawned(g: Grid, n: nat, hidden: seq<MapObject>)
    requires n <= |g| || n == 1
    ensures GridMushrooms(g, n, hidden) == MushroomsIn(GridSpawns(g, n, hidden))
  {
    if n > 1 {
      GridMushroomsSpawned(g, n - 1, hidden);
      MushroomsInAppend(GridSpawns(g, n - 1, hidden), ColumnSpawns(g[n - 1], n - 1, |g[n - 1]|, hidden));
      ColumnMushroomsSpawned(g[n - 1], n - 1, |g[n - 1]|, hidden);
    }
  }

  /** The brick pass visits cell (x, y) of a grid whose first n columns it has scanned. */
  predicate Scanned(g: Grid, n: int, x: int, y: int)
  {
    1 <= x < n && x < |g| && 1 <= y < |g[x]|
  }

  /** The additions of a scanned cell of the column are among the column's additions. */
  lemma ColumnSpawnsHas(col: seq<Cell>, x: int, n: nat, hidden: seq<MapObject>, y: int, a: Actor)
    requires n <= |col| || n == 1
    requires 1 <= y < n && a in CellSpawns(col[y], x, y, hidden)
    ensures a in ColumnSpawns(col, x, n, hidden)
  {
    ColumnPartsAt(col, x, n, hidden, y);
    ConcatHas(ColumnParts(col, x, n, hidden), y - 1, a);
    ColumnSpawnsConcat(col, x, n, hidden);
  }

  /** Each of the column's additions comes from one scanned cell, returned as y. */
  lemma ColumnSpawnsSource(col: seq<Cell>, x: int, n: nat, hidden: seq<MapObject>, a: Actor) returns (y: int)
    requires n <= |col| || n == 1
    requires a in ColumnSpawns(col, x, n, hidden)
    ensures 1 <= y < n && a in CellSpawns(col[y], x, y, hidden)
  {
    ColumnSpawnsConcat(col, x, n, hidden);
    var i := ConcatSource(ColumnParts(col, x, n, hidden), a);
    y := i + 1;
    ColumnPartsAt(col, x, n, hidden, y);
  }

  /** The additions of a scanned column are among the brick pass's additions. */
  lemma GridSpawnsHasColumn(g: Grid, n: nat, hidden: seq<MapObject>, x: int, a: Actor)
    requires n <= |g| || n == 1
    requires 1 <= x < n && a in ColumnSpawns(g[x], x, |g[x]|, hidden)
    ensures a in GridSpawns(g, n, hidden)
  {
    GridPartsAt(g, n, hidden, x);
    ConcatHas(GridParts(g, n, hidden), x - 1, a);
    GridSpawnsConcat(g, n, hidden);
  }

  /** Each of the brick pass's additions comes from one scanned column, returned as x. */
  lemma GridSpawnsSourceColumn(g: Grid, n: nat, hidden: seq<MapObject>, a: Actor) returns (x: int)
    requires n <= |g| || n == 1
    requires a in GridSpawns(g, n, hidden)
    ensures 1 <= x < n && a in ColumnSpawns(g[x], x, |g[x]|, hidden)
  {
    GridSpawnsConcat(g, n, hidden);
    var i := ConcatSource(GridParts(g, n, hidden), a);
    x := i + 1;
    GridPartsAt(g, n, hidden, x);
  }

  /** The additions of a scanned cell are among the brick pass's additions. */
  lemma GridSpawnsHas(g: Grid, n: nat, hidden: seq<MapObject>, x: int, y: int, a: Actor)
    requires n <= |g| || n == 1
    requires Scanned(g, n, x, y) && a in CellSpawns(g[x][y], x, y, hidden)
    ensures a in GridSpawns(g, n, hidden)
  {
    ColumnSpawnsHas(g[x], x, |g[x]|, hidden, y, a);
    GridSpawnsHasColumn(g, n, hidden, x, a);
  }

  /** Each of the brick pass's additions comes from one scanned cell, returned as (x, y). */
  lemma GridSpawnsSource(g: Grid, n: nat, hidden: seq<MapObject>, a: Actor) returns (x: int, y: int)
    requires n <= |g| || n == 1
    requires a in GridSpawns(g, n, hidden)
    ensures Scanned(g, n, x, y) && a in CellSpawns(g[x][y], x, y, hidden)
  {
    x := GridSpawnsSourceColumn(g, n, hidden, a);
    y := ColumnSpawnsSource(g[x], x, |g[x]|, hidden, a);
  }

  /** Everything the brick pass adds comes from one scanned cell, and every scanned cell's additions are there. */
  lemma GridSpawnsMember(g: Grid, n: nat, hidden: seq<MapObject>, a: Actor)
    requires n <= |g| || n == 1
    ensures a in GridSpawns(g, n, hidden) <==>
      exists x, y :: Scanned(g, n, x, y) && a in CellSpawns(g[x][y], x, y, hidden)
  {
    if a in GridSpawns(g, n, hidden) {
      var x, y := GridSpawnsSource(g, n, hidden, a);
    }
    if exists x, y :: Scanned(g, n, x, y) && a in CellSpawns(g[x][y], x, y, hidden) {
      var x, y :| Scanned(g, n, x, y) && a in CellSpawns(g[x][y], x, y, hidden);
      GridSpawnsHas(g, n, hidden, x, y, a);
    }
  }

  /**
    * The bricks of the brick pass over a whole layer: one for each brick tile at x, y >= 1,
    * built from that tile's properties with the items of its cell.
    */
  lemma LayerBricks(g: Grid, hidden: seq<MapObject>)
    requires |g| > 0
    ensures forall b :: BrickActor(b) in GridSpawns(g, |g|, hidden) <==>
      exists x, y :: Scanned(g, |g|, x, y) && IsBrickCell(g[x][y]) && b == BrickOf(g[x][y].value, x, y, ItemsFor(hidden, x, y))
  {
    forall b ensures BrickActor(b) in GridSpawns(g, |g|, hidden) <==>
      exists x, y :: Scanned(g, |g|, x, y) && IsBrickCell(g[x][y]) && b == BrickOf(g[x][y].value, x, y, ItemsFor(hidden, x, y))
    {
      GridSpawnsMember(g, |g|, hidden, BrickActor(b));
      if BrickActor(b) in GridSpawns(g, |g|, hidden) {
        var x, y :| Scanned(g, |g|, x, y) && BrickActor(b) in CellSpawns(g[x][y], x, y, hidden);
        CellSpawnsBrick(g[x][y], x, y, hidden);
        var s := CellSpawns(g[x][y], x, y, hidden);
        var items := ItemsFor(hidden, x, y);
        ItemActorsKinds(items);
        assert BrickActor(b) !in ItemActors(items);
        assert s == ItemActors(items) + [BrickActor(BrickOf(g[x][y].value, x, y, items))];
      }
      if exists x, y :: Scanned(g, |g|, x, y) && IsBrickCell(g[x][y]) && b == BrickOf(g[x][y].value, x, y, ItemsFor(hidden, x, y)) {
        var x, y :| Scanned(g, |g|, x, y) && IsBrickCell(g[x][y]) && b == BrickOf(g[x][y].value, x, y, ItemsFor(hidden, x, y));
        var s := CellSpawns(g[x][y], x, y, hidden);
        assert s[|s| - 1] == BrickActor(b);
      }
    }
  }

  /** Two layers of the same size whose cells hold tiles with the same properties (region and animation may differ). */
  predicate SameShape(g: Grid, h: Grid)
  {
    && |g| == |h|
    && (forall x :: 0 <= x < |g| ==> |g[x]| == |h[x]|)
    && (forall x, y :: 0 <= x < |g| && 0 <= y < |g[x]| ==>
         g[x][y].Some? == h[x][y].Some? && (g[x][y].Some? ==> g[x][y].value.props == h[x][y].value.props))
  }

  lemma {:induction false} ColumnSpawnsSameShape(c: seq<Cell>, d: seq<Cell>, x: int, n: nat, hidden: seq<MapObject>)
    requires |c| == |d|
    requires n <= |c| || n == 1
    requires forall y :: 0 <= y < |c| ==> c[y].Some? == d[y].Some? && (c[y].Some? ==> c[y].value.props == d[y].value.props)
    ensures ColumnSpawns(c, x, n, hidden) == ColumnSpawns(d, x, n, hidden)
    ensures ColumnMushrooms(c, x, n, hidden) == ColumnMushrooms(d, x, n, hidden)
  {
    if n > 1 {
      ColumnSpawnsSameShape(c, d, x, n - 1, hidden);
      if HasActor(c[n - 1]) {
        assert BrickOf(c[n - 1].value, x, n - 1, ItemsFor(hidden, x, n - 1)) == BrickOf(d[n - 1].value, x, n - 1, ItemsFor(hidden, x, n - 1)) by {
          assert c[n - 1].value.props == d[n - 1].value.props;
        }
      }
    }
  }

  /** The brick pass only looks at tile properties: animating or retexturing a layer first changes nothing it adds. */
  lemma {:induction false} GridSpawnsSameShape(g: Grid, h: Grid, n: nat, hidden: seq<MapObject>)
    requires SameShape(g, h)
    requires n <= |g| || n == 1
    ensures GridSpawns(g, n, hidden) == GridSpawns(h, n, hidden)
    ensures GridMushrooms(g, n, hidden) == GridMushrooms(h, n, hidden)
    ensures BricksTyped(g, hidden) <==> BricksTyped(h, hidden)
  {
    if n > 1 {
      GridSpawnsSameShape(g, h, n - 1, hidden);
      ColumnSpawnsSameShape(g[n - 1], h[n - 1], n - 1, |g[n - 1]|, hidden);
    }
  }

  // ---------------------------------------------------------------------
  // enemies
  // ---------------------------------------------------------------------

  datatype Point = Point(x: real, y: real)

  predicate IsGoomba(o: MapObject)
  {
    Get(o.props, TypeKey) == Some(GoombaType)
  }

  function SpawnPoint(o: MapObject): Point
  {
    Point(o.x * Scale, o.y * Scale)
  }

  /** Where the enemy pass creates enemies: one per object of type goomba, in object order. */
  function GoombaSpawns(objs: seq<MapObject>): seq<Point>
  {
    GoombaSpawnsAmong(objs, |objs|)
  }

  /** The spawn points of the first n objects, counted by index (the enemy pass's loop over the objects). */
  function GoombaSpawnsAmong(objs: seq<MapObject>, n: nat): seq<Point>
    requires n <= |objs|
  {
    if n == 0 then [] else GoombaSpawnsAmong(objs, n - 1) + (if IsGoomba(objs[n - 1]) then [SpawnPoint(objs[n - 1])] else [])
  }

  lemma {:induction false} GoombaSpawnsAmongExact(objs: seq<MapObject>, n: nat)
    requires n <= |objs|
    ensures forall p :: p in GoombaSpawnsAmong(objs, n) <==> exists i :: 0 <= i < n && IsGoomba(objs[i]) && SpawnPoint(objs[i]) == p
    ensures (forall i :: 0 <= i < n ==> !IsGoomba(objs[i])) ==> GoombaSpawnsAmong(objs, n) == []
  {
    if n > 0 {
      GoombaSpawnsAmongExact(objs, n - 1);
    }
  }

  /** A point is a spawn exactly when some goomba object sits there; untyped objects spawn nothing. */
  lemma GoombaSpawnsExact(objs: seq<MapObject>)
    ensures forall p :: p in GoombaSpawns(objs) <==> exists o :: o in objs && IsGoomba(o) && SpawnPoint(o) == p
    ensures (forall o :: o in objs ==> !IsGoomba(o)) ==> GoombaSpawns(objs) == []
  {
    GoombaSpawnsAmongExact(objs, |objs|);
  }

  /** The indices of the goomba objects among the first n objects, in increasing order. */
  function GoombaIndices(objs: seq<MapObject>, n: nat): (r: seq<int>)
    requires n <= |objs|
    ensures forall k :: 0 <= k < |r| ==> 0 <= r[k] < n
  {
    if n == 0 then [] else GoombaIndices(objs, n - 1) + (if IsGoomba(objs[n - 1]) then [n - 1] else [])
  }

  /** There is one goomba index, and one spawn point, per goomba object. */
  lemma {:induction false} GoombaIndicesCount(objs: seq<MapObject>, n: nat)
    requires n <= |objs|
    ensures |GoombaSpawnsAmong(objs, n)| == |GoombaIndices(objs, n)| == |set i | 0 <= i < n && IsGoomba(objs[i])|
  {
    if n > 0 {
      GoombaIndicesCount(objs, n - 1);
      var before := set i | 0 <= i < n - 1 && IsGoomba(objs[i]);
      var now := set i | 0 <= i < n && IsGoomba(objs[i]);
      if IsGoomba(objs[n - 1]) {
        assert now == before + {n - 1};
        assert n - 1 !in before;
      } else {
        assert now == before;
      }
    }
  }

  /** The goomba indices are increasing, cover every goomba object, and the k-th spawn is at the k-th of them. */
  lemma {:induction false} GoombaSpawnsAmongOrder(objs: seq<MapObject>, n: nat)
    requires n <= |objs|
    requires |GoombaSpawnsAmong(objs, n)| == |GoombaIndices(objs, n)|
    ensures forall k :: 0 <= k < |GoombaIndices(objs, n)| ==>
      IsGoomba(objs[GoombaIndices(objs, n)[k]]) && GoombaSpawnsAmong(objs, n)[k] == SpawnPoint(objs[GoombaIndices(objs, n)[k]])
    ensures forall k, l :: 0 <= k < l < |GoombaIndices(objs, n)| ==> GoombaIndices(objs, n)[k] < GoombaIndices(objs, n)[l]
    ensures forall i :: 0 <= i < n && IsGoomba(objs[i]) ==> i in GoombaIndices(objs, n)
  {
    if n > 0 {
      var idx, sp := GoombaIndices(objs, n - 1), GoombaSpawnsAmong(objs, n - 1);
      GoombaIndicesCount(objs, n - 1);
      GoombaSpawnsAmongOrder(objs, n - 1);
      if IsGoomba(objs[n - 1]) {
        assert GoombaIndices(objs, n) == idx + [n - 1];
        assert GoombaSpawnsAmong(objs, n) == sp + [SpawnPoint(objs[n - 1])];
      } else {
        assert GoombaIndices(objs, n) == idx;
        assert GoombaSpawnsAmong(objs, n) == sp;
      }
    }
  }

  /**
    * The enemy pass creates one enemy per goomba object and in object order: there are as
    * many spawn points as goomba objects, and the k-th is where the k-th goomba object sits.
    */
  lemma GoombaSpawnsOrder(objs: seq<MapObject>)
    ensures |GoombaSpawns(objs)| == |set i | 0 <= i < |objs| && IsGoomba(objs[i])|
    ensures |GoombaSpawns(objs)| == |GoombaIndices(objs, |objs|)|
    ensures forall k :: 0 <= k < |GoombaSpawns(objs)| ==>
      IsGoomba(objs[GoombaIndices(objs, |objs|)[k]]) &&
      GoombaSpawns(objs)[k] == SpawnPoint(objs[GoombaIndices(objs, |objs|)[k]])
    ensures forall k, l :: 0 <= k < l < |GoombaIndices(objs, |objs|)| ==>
      GoombaIndices(objs, |objs|)[k] < GoombaIndices(objs, |objs|)[l]
    ensures forall i :: 0 <= i < |objs| && IsGoomba(objs[i]) ==> i in GoombaIndices(objs, |objs|)
  {
    GoombaIndicesCount(objs, |objs|);
    GoombaSpawnsAmongOrder(objs, |objs|);
  }

  // ---------------------------------------------------------------------
  // solid tiles in a range
  // ---------------------------------------------------------------------

  datatype Rect = Rect(x: int, y: int, width: int, height: int)

  /** The cell at (x, y); outside the layer there is no cell. */
  function CellIn(g: Grid, x: int, y: int): Cell
  {
    if 0 <= x < |g| && 0 <= y < |g[x]| then g[x][y] else None
  }

  /** Unit rectangles of the occupied cells of row y between columns sx and ex inclusive, left to right. */
  function RowRects(g: Grid, y: int, sx: int, ex: int): seq<Rect>
    decreases ex - sx + 1
  {
    if ex < sx then []
    else RowRects(g, y, sx, ex - 1) + (if CellIn(g, ex, y).Some? then [Rect(ex, y, 1, 1)] else [])
  }

  /** Unit rectangles of the occupied cells of [sx..ex] x [sy..ey], row by row from sy. */
  function TileRects(g: Grid, sx: int, sy: int, ex: int, ey: int): seq<Rect>
    decreases ey - sy + 1
  {
    if ey < sy then []
    else TileRects(g, sx, sy, ex, ey - 1) + RowRects(g, ey, sx, ex)
  }

  predicate IsTileRect(g: Grid, sx: int, sy: int, ex: int, ey: int, r: Rect)
  {
    sx <= r.x <= ex && sy <= r.y <= ey && CellIn(g, r.x, r.y).Some? && r.width == 1 && r.height == 1
  }

  /** Row-major order: lower rows first, then left to right. */
  predicate Before(a: Rect, b: Rect)
  {
    a.y < b.y || (a.y == b.y && a.x < b.x)
  }

  lemma {:induction false} RowRectsFacts(g: Grid, y: int, sx: int, ex: int)
    ensures forall r :: r in RowRects(g, y, sx, ex) <==> IsTileRect(g, sx, y, ex, y, r)
    ensures forall i, j :: 0 <= i < j < |RowRects(g, y, sx, ex)| ==>
      Before(RowRects(g, y, sx, ex)[i], RowRects(g, y, sx, ex)[j])
    decreases ex - sx + 1
  {
    if ex >= sx {
      RowRectsFacts(g, y, sx, ex - 1);
      var a := RowRects(g, y, sx, ex - 1);
      var b: seq<Rect> := if CellIn(g, ex, y).Some? then [Rect(ex, y, 1, 1)] else [];
      forall i, j | 0 <= i < j < |a + b| ensures Before((a + b)[i], (a + b)[j]) {
        if j >= |a| {
          assert a[i] in a;
        }
      }
    }
  }

  /** The rectangles are exactly the unit squares of the occupied cells in range. */
  lemma {:induction false} TileRectsExact(g: Grid, sx: int, sy: int, ex: int, ey: int)
    ensures forall r :: r in TileRects(g, sx, sy, ex, ey) <==> IsTileRect(g, sx, sy, ex, ey, r)
    decreases ey - sy + 1
  {
    if ey >= sy {
      TileRectsExact(g, sx, sy, ex, ey - 1);
      RowRectsFacts(g, ey, sx, ex);
    }
  }

  /** The rectangles come in row-major order, so none is repeated. */
  lemma {:induction false} TileRectsOrdered(g: Grid, sx: int, sy: int, ex: int, ey: int)
    ensures forall i, j :: 0 <= i < j < |TileRects(g, sx, sy, ex, ey)| ==>
      Before(TileRects(g, sx, sy, ex, ey)[i], TileRects(g, sx, sy, ex, ey)[j])
    decreases ey - sy + 1
  {
    if ey >= sy {
      TileRectsOrdered(g, sx, sy, ex, ey - 1);
      TileRectsExact(g, sx, sy, ex, ey - 1);
      RowRectsFacts(g, ey, sx, ex);
      var a, b := TileRects(g, sx, sy, ex, ey - 1), RowRects(g, ey, sx, ex);
      forall i, j | 0 <= i < j < |a + b| ensures Before((a + b)[i], (a + b)[j]) {
        if j >= |a| && i < |a| {
          assert a[i] in a && b[j - |a|] in b;
        }
      }
    }
  }

  /** An empty range yields no rectangles. */
  lemma {:induction false} EmptyRangeNoTiles(g: Grid, sx: int, sy: int, ex: int, ey: int)
    requires sx > ex || sy > ey
    ensures TileRects(g, sx, sy, ex, ey) == []
    decreases ey - sy + 1
  {
    if ey >= sy {
      EmptyRangeNoTiles(g, sx, sy, ex, ey - 1);
    }
  }
}
