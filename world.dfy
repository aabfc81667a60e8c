/**
  * The game world: the passes that turn the map's layers into tiles, enemies, bricks
  * and items, the solid-tile query, and the per-frame bookkeeping of enemies, the
  * removal queue and the end of the level.
  */
module GameWorld {
  import opened Wrappers
  import opened Entities
  import opened ActorArrays
  import opened MapScan
  import opened LevelEnd

  /** The stage entries of the actors built outside this model: the flag, the player and the two HUD tables. */
  const FlagEntry: Actor := OtherActor(0)
  const PlayerEntry: Actor := OtherActor(1)
  const CoinsHudEntry: Actor := OtherActor(2)
  const ScoreHudEntry: Actor := OtherActor(3)

  /** An enemy as the enemy pass leaves it: at p, neither moving nor dead. */
  predicate PlacedAt(g: Goomba, p: Point)
    reads g
  {
    g.x == p.x && g.y == p.y && !g.moving && !g.dead
  }

  /** A tile layer's current contents as a value. */
  function Snapshot(layer: array2<Cell>): (g: Grid)
    reads layer
    ensures |g| == layer.Length0
    ensures forall x :: 0 <= x < |g| ==> |g[x]| == layer.Length1
    ensures forall x, y :: 0 <= x < layer.Length0 && 0 <= y < layer.Length1 ==> g[x][y] == layer[x, y]
  {
    seq(layer.Length0, x requires 0 <= x < layer.Length0 reads layer =>
      seq(layer.Length1, y requires 0 <= y < layer.Length1 reads layer => layer[x, y]))
  }

  /** `g` holds the current contents of `layer`. */
  ghost predicate Holds(layer: array2<Cell>, g: Grid)
    reads layer
  {
    && |g| == layer.Length0
    && (forall x :: 0 <= x < |g| ==> |g[x]| == layer.Length1)
    && (forall x, y :: 0 <= x < layer.Length0 && 0 <= y < layer.Length1 ==> g[x][y] == layer[x, y])
  }

  /** The enemies among `gs` that are dead. */
  function Dead(gs: seq<Goomba>): set<Goomba>
    reads set g | g in gs
  {
    set g | g in gs && g.dead
  }

  /**
    * The stage after the enemy sweep: each dead enemy of a list without repeats loses one
    * of its stage entries, and every other enemy keeps all of its entries.
    */
  lemma SweepStageCounts(stage: seq<Actor>, gs: seq<Goomba>, dead: set<Goomba>, g: Goomba)
    requires Distinct(gs)
    ensures multiset(RemoveAll(stage, GoombaActors(Keep(gs, dead))))[GoombaActor(g)] ==
      if g in gs && g in dead && GoombaActor(g) in stage then multiset(stage)[GoombaActor(g)] - 1
      else multiset(stage)[GoombaActor(g)]
  {
    RemoveAllMultiset(stage, GoombaActors(Keep(gs, dead)));
    GoombaActorsCount(Keep(gs, dead), g);
    KeepCount(gs, dead, g);
    DistinctCount(gs, g);
  }

  class World {
    var goombas: seq<Goomba>
    var mushrooms: seq<Mushroom>
    var stage: seq<Actor>
    /** The `objects` layer of the current map. */
    var objects: seq<MapObject>
    /** The `hidden_items` layer of the current map. */
    var hiddenItems: seq<MapObject>
    /** Actors other parts of the game ask to have taken off the stage at the next update. */
    var objectsToRemove: seq<Actor>
    var levelEnded: bool
    var resetFlag: bool
    var playingFinishSong: bool

    function FlagsOf(): Flags
      reads this
    {
      Flags(levelEnded, resetFlag, playingFinishSong)
    }

    /** A world before its first reset: nothing loaded and every flag clear. */
    constructor ()
      ensures FlagsOf() == Initial
      ensures goombas == [] && mushrooms == [] && stage == []
      ensures objects == [] && hiddenItems == [] && objectsToRemove == []
    {
      goombas, mushrooms, stage := [], [], [];
      objects, hiddenItems, objectsToRemove := [], [], [];
      levelEnded, resetFlag, playingFinishSong := false, false, false;
    }

    /** Make every tile at x, y >= 1 that names an animation an animated tile over that frame set. */
    method AnimateTiles(layer: array2<Cell>, parseFloat: string -> real)
      modifies layer
      ensures forall x, y :: 0 <= x < layer.Length0 && 0 <= y < layer.Length1 ==>
        layer[x, y] == if 1 <= x && 1 <= y then AnimateCell(old(layer[x, y]), parseFloat) else old(layer[x, y])
    {
      var x := 1;
      while x < layer.Length0
        invariant 1 <= x
        invariant forall i, j :: 0 <= i < layer.Length0 && 0 <= j < layer.Length1 ==>
          layer[i, j] == if 1 <= i < x && 1 <= j then AnimateCell(old(layer[i, j]), parseFloat) else old(layer[i, j])
      {
        var y := 1;
        while y < layer.Length1
          invariant 1 <= y
          invariant forall i, j :: 0 <= i < layer.Length0 && 0 <= j < layer.Length1 ==>
            layer[i, j] == if (1 <= i < x && 1 <= j) || (i == x && 1 <= j < y) then AnimateCell(old(layer[i, j]), parseFloat) else old(layer[i, j])
        {
          var cell := layer[x, y];
          if cell.Some? && AnimationKey in cell.value.props {
            var props := cell.value.props;
            var speed := DefaultInterval;
            if SpeedKey in props {
              speed := parseFloat(props[SpeedKey]);
            }
            layer[x, y] := Some(Tile(props, None, Some(TileAnimation(speed, props[AnimationKey]))));
          }
          y := y + 1;
        }
        x := x + 1;
      }
    }

    /**
      * Bind every tile with a `texture` property, over the whole layer, to the region of
      * that name. `fetched` lists the names looked up: each name of the layer exactly once.
      */
    method InitTileset(layer: array2<Cell>, getTile: string -> Region) returns (fetched: seq<string>)
      modifies layer
      ensures forall x, y :: 0 <= x < layer.Length0 && 0 <= y < layer.Length1 ==>
        layer[x, y] == RetextureCell(old(layer[x, y]), getTile)
      ensures Distinct(fetched)
      ensures forall t :: t in fetched <==>
        exists x, y :: 0 <= x < layer.Length0 && 0 <= y < layer.Length1 && TextureOf(old(layer[x, y])) == Some(t)
    {
      var cache: map<string, Region> := map[];
      fetched := [];
      var x := 0;
      while x < layer.Length0
        invariant 0 <= x <= layer.Length0
        invariant Distinct(fetched)
        invariant forall t :: t in fetched <==>
          exists i, j :: 0 <= i < x && 0 <= j < layer.Length1 && TextureOf(old(layer[i, j])) == Some(t)
        invariant forall t :: t in cache <==> t in fetched
        invariant forall t :: t in cache ==> cache[t] == getTile(t)
        invariant forall i, j :: 0 <= i < layer.Length0 && 0 <= j < layer.Length1 ==>
          layer[i, j] == if i < x then RetextureCell(old(layer[i, j]), getTile) else old(layer[i, j])
      {
        ghost var col := seq(layer.Length1, j requires 0 <= j < layer.Length1 reads layer => layer[x, j]);
        cache, fetched := InitTilesetColumn(layer, x, getTile, cache, fetched, col);
        x := x + 1;
      }
    }

    /** The tileset pass over column x, continuing with the cache and the lookups of the columns before it. */
    method InitTilesetColumn(layer: array2<Cell>, x: int, getTile: string -> Region,
                             cache0: map<string, Region>, fetched0: seq<string>, ghost col: seq<Cell>)
      returns (cache: map<string, Region>, fetched: seq<string>)
      requires 0 <= x < layer.Length0
      requires |col| == layer.Length1 && forall y :: 0 <= y < |col| ==> col[y] == layer[x, y]
      requires Distinct(fetched0)
      requires forall t :: t in cache0 <==> t in fetched0
      requires forall t :: t in cache0 ==> cache0[t] == getTile(t)
      modifies layer
      ensures forall i, j :: 0 <= i < layer.Length0 && 0 <= j < layer.Length1 ==>
        layer[i, j] == if i == x then RetextureCell(old(layer[i, j]), getTile) else old(layer[i, j])
      ensures Distinct(fetched)
      ensures forall t :: t in fetched <==>
        t in fetched0 || exists j :: 0 <= j < |col| && TextureOf(col[j]) == Some(t)
      ensures forall t :: t in cache <==> t in fetched
      ensures forall t :: t in cache ==> cache[t] == getTile(t)
    {
      cache, fetched := cache0, fetched0;
      var y := 0;
      while y < layer.Length1
        invariant 0 <= y <= layer.Length1
        invariant Distinct(fetched)
        invariant forall t :: t in fetched <==>
          t in fetched0 || exists j :: 0 <= j < y && TextureOf(col[j]) == Some(t)
        invariant forall t :: t in cache <==> t in fetched
        invariant forall t :: t in cache ==> cache[t] == getTile(t)
        invariant forall i, j :: 0 <= i < layer.Length0 && 0 <= j < layer.Length1 ==>
          layer[i, j] == if i == x && j < y then RetextureCell(old(layer[i, j]), getTile) else old(layer[i, j])
      {
        var cell := layer[x, y];
        assert cell == col[y] && cell == old(layer[x, y]);
        if cell.Some? && TextureKey in cell.value.props {
          var name := cell.value.props[TextureKey];
          assert TextureOf(col[y]) == Some(name);
          var region;
          if name in cache {
            region := cache[name];
          } else {
            region := getTile(name);
            cache := cache[name := region];
            DistinctSnoc(fetched, name);
            fetched := fetched + [name];
          }
          layer[x, y] := Some(cell.value.(region := Some(region)));
          assert layer[x, y] == RetextureCell(cell, getTile);
        } else {
          assert TextureOf(col[y]) == None;
        }
        y := y + 1;
      }
    }

    /**
      * Attach to the brick at (x, y) the hidden objects lying in that cell, in object order:
      * a super mushroom for each of type `super_mushroom`, which also joins the mushrooms,
      * and nothing for any other type; each goes on the stage.
      */
    method ItemsInBrick(x: int, y: int) returns (items: seq<Option<Mushroom>>)
      requires ItemsTyped(hiddenItems, x, y)
      modifies this`stage, this`mushrooms
      ensures items == ItemsFor(hiddenItems, x, y)
      ensures stage == old(stage) + ItemActors(items)
      ensures mushrooms == old(mushrooms) + Somes(items)
    {
      items := [];
      var hidden, added, found := hiddenItems, [], [];
      var i := 0;
      while i < |hidden|
        invariant 0 <= i <= |hidden|
        invariant items == ItemsAmong(hidden, i, x, y)
        invariant added == ItemActors(items)
        invariant found == Somes(items)
        invariant stage == old(stage) && mushrooms == old(mushrooms)
      {
        var o := hidden[i];
        if InCell(o, x, y) {
          var item: Option<Mushroom> := None;
          if o.props[TypeKey] == SuperMushroomType {
            item := Some(Super(x, y, SuperArg));
            found := found + [item.value];
          }
          assert item == ItemOf(o, x, y);
          added := added + [ItemActorOf(item)];
          ItemsSnoc(items, item);
          assert ItemsAmong(hidden, i + 1, x, y) == items + [item];
          items := items + [item];
        } else {
          assert ItemsAmong(hidden, i + 1, x, y) == items;
        }
        i := i + 1;
      }
      stage, mushrooms := stage + added, mushrooms + found;
    }

    /**
      * Replace every tile at x, y >= 1 that has an `actor` property: a Brick or Bonus tile
      * becomes a brick on the stage, preceded by its items; any other such tile puts a null
      * on the stage. Each of those cells is emptied.
      */
    method GenerateBricks(layer: array2<Cell>, ghost g0: Grid)
      requires Holds(layer, g0) && BricksTyped(g0, hiddenItems)
      modifies layer, this`stage, this`mushrooms
      ensures forall x, y :: 0 <= x < layer.Length0 && 0 <= y < layer.Length1 ==>
        layer[x, y] == if 1 <= x && 1 <= y then ClearActorCell(old(layer[x, y])) else old(layer[x, y])
      ensures stage == old(stage) + GridSpawns(g0, layer.Length0, hiddenItems)
      ensures mushrooms == old(mushrooms) + GridMushrooms(g0, layer.Length0, hiddenItems)
    {
      ghost var s0, m0 := stage, mushrooms;
      var x := 1;
      while x < layer.Length0
        invariant 1 <= x && (x <= layer.Length0 || x == 1)
        invariant stage == s0 + GridSpawns(g0, x, hiddenItems)
        invariant mushrooms == m0 + GridMushrooms(g0, x, hiddenItems)
        invariant forall i, j :: 0 <= i < layer.Length0 && 0 <= j < layer.Length1 ==>
          layer[i, j] == if 1 <= i < x && 1 <= j then ClearActorCell(g0[i][j]) else g0[i][j]
      {
        GridSpawnsStep(g0, x, hiddenItems, s0, m0);
        GenerateBricksColumn(layer, x, g0[x]);
        x := x + 1;
      }
      if layer.Length0 == 0 {
        assert GridSpawns(g0, 0, hiddenItems) == [];
      } else {
        assert x == |g0|;
      }
    }

    /** The brick pass over column x, rows 1 and up. */
    method GenerateBricksColumn(layer: array2<Cell>, x: int, ghost col: seq<Cell>)
      requires 1 <= x < layer.Length0
      requires |col| == layer.Length1 && forall y :: 0 <= y < |col| ==> col[y] == layer[x, y]
      requires forall y :: 1 <= y < |col| && IsBrickCell(col[y]) ==> ItemsTyped(hiddenItems, x, y)
      modifies layer, this`stage, this`mushrooms
      ensures forall i, j :: 0 <= i < layer.Length0 && 0 <= j < layer.Length1 ==>
        layer[i, j] == if i == x && 1 <= j then ClearActorCell(old(layer[i, j])) else old(layer[i, j])
      ensures stage == old(stage) + ColumnSpawns(col, x, |col|, hiddenItems)
      ensures mushrooms == old(mushrooms) + ColumnMushrooms(col, x, |col|, hiddenItems)
    {
      var y := 1;
      assert stage == old(stage) + [];
      assert mushrooms == old(mushrooms) + [];
      while y < layer.Length1
        invariant 1 <= y && (y <= layer.Length1 || y == 1)
        invariant stage == old(stage) + ColumnSpawns(col, x, y, hiddenItems)
        invariant mushrooms == old(mushrooms) + ColumnMushrooms(col, x, y, hiddenItems)
        invariant forall i, j :: 0 <= i < layer.Length0 && 0 <= j < layer.Length1 ==>
          layer[i, j] == if i == x && 1 <= j < y then ClearActorCell(old(layer[i, j])) else old(layer[i, j])
      {
        ColumnSpawnsStep(col, x, y, hiddenItems, old(stage), old(mushrooms));
        var cell := layer[x, y];
        GenerateBrickAt(cell, x, y);
        if HasActor(cell) {
          layer[x, y] := None;
        }
        y := y + 1;
      }
      if |col| == 0 {
        assert ColumnSpawns(col, x, 0, hiddenItems) == [];
      } else {
        assert y == |col|;
      }
    }

    /**
      * The brick pass at one cell, before the cell is emptied: a brick preceded by its
      * items for a Brick or Bonus tile, a null for any other tile with an `actor` property,
      * nothing otherwise.
      */
    method GenerateBrickAt(cell: Cell, x: int, y: int)
      requires IsBrickCell(cell) ==> ItemsTyped(hiddenItems, x, y)
      modifies this`stage, this`mushrooms
      ensures stage == old(stage) + CellSpawns(cell, x, y, hiddenItems)
      ensures mushrooms == old(mushrooms) + CellMushrooms(cell, x, y, hiddenItems)
    {
      if cell.Some? && ActorKey in cell.value.props {
        var props := cell.value.props;
        var kind := props[ActorKey];
        var actor: Actor := NoActor;
        if kind == BrickKind || kind == BonusKind {
          var color := Get(props, ColorKey);
          var destructable := false;
          if DestructableKey in props {
            destructable := props[DestructableKey] == TrueText;
          }
          var items := ItemsInBrick(x, y);
          actor := BrickActor(Brick(x, y, color, kind == BonusKind, destructable, items));
          assert actor == BrickActor(BrickOf(cell.value, x, y, items));
        }
        stage := stage + [actor];
      } else {
        assert stage == old(stage) + [];
        assert mushrooms == old(mushrooms) + [];
      }
    }

    /** One new enemy, neither moving nor dead, for each object of type goomba, at its scaled position, in object order. */
    method GenerateEnemies() returns (gs: seq<Goomba>)
      modifies this`stage
      ensures |gs| == |GoombaSpawns(objects)|
      ensures forall i :: 0 <= i < |gs| ==>
        fresh(gs[i]) && PlacedAt(gs[i], GoombaSpawns(objects)[i])
      ensures Distinct(gs)
      ensures stage == old(stage) + GoombaActors(gs)
    {
      gs := [];
      var objs := objects;
      var i := 0;
      while i < |objs|
        invariant 0 <= i <= |objs|
        invariant |gs| == |GoombaSpawnsAmong(objs, i)|
        invariant forall k :: 0 <= k < |gs| ==> fresh(gs[k]) && PlacedAt(gs[k], GoombaSpawnsAmong(objs, i)[k])
        invariant Distinct(gs)
        invariant stage == old(stage) + GoombaActors(gs)
      {
        var o := objs[i];
        ghost var spawns := GoombaSpawnsAmong(objs, i);
        if IsGoomba(o) {
          var goomba := new Goomba(o.x * Scale, o.y * Scale);
          assert PlacedAt(goomba, SpawnPoint(o));
          stage := stage + [GoombaActor(goomba)];
          GoombaActorsSnoc(gs, goomba);
          AppendAssoc(old(stage), GoombaActors(gs), [GoombaActor(goomba)]);
          DistinctSnoc(gs, goomba);
          ghost var prev := gs;
          gs := gs + [goomba];
          assert GoombaSpawnsAmong(objs, i + 1) == spawns + [SpawnPoint(o)];
          forall k | 0 <= k < |gs|
            ensures fresh(gs[k]) && PlacedAt(gs[k], (spawns + [SpawnPoint(o)])[k])
          {
            if k < |prev| {
              assert gs[k] == prev[k];
            }
          }
        } else {
          assert GoombaSpawnsAmong(objs, i + 1) == spawns;
        }
        i := i + 1;
      }
    }

    /**
      * The solid tiles of a layer in [startX..endX] x [startY..endY], both ends included:
      * a unit rectangle per occupied cell, row by row.
      */
    method GetTiles(layer: array2<Cell>, startX: int, startY: int, endX: int, endY: int) returns (tiles: seq<Rect>)
      ensures tiles == TileRects(Snapshot(layer), startX, startY, endX, endY)
    {
      ghost var g := Snapshot(layer);
      tiles := [];
      var y := startY;
      while y <= endY
        invariant startY <= y && (y <= endY + 1 || y == startY)
        invariant tiles == TileRects(g, startX, startY, endX, y - 1)
      {
        var x := startX;
        ghost var rows := tiles;
        while x <= endX
          invariant startX <= x && (x <= endX + 1 || x == startX)
          invariant tiles == rows + RowRects(g, y, startX, x - 1)
        {
          var cell: Cell := None;
          if 0 <= x < layer.Length0 && 0 <= y < layer.Length1 {
            cell := layer[x, y];
          }
          assert cell == CellIn(g, x, y);
          if cell.Some? {
            tiles := tiles + [Rect(x, y, 1, 1)];
          }
          x := x + 1;
        }
        y := y + 1;
      }
    }

    /** Take `a` off the stage: its first occurrence, if any. */
    method RemoveActor(a: Actor)
      modifies this`stage
      ensures stage == RemoveValue(old(stage), a)
    {
      stage := RemoveValue(stage, a);
    }

    /**
      * The enemy sweep of an update: every enemy on screen starts moving, and every dead
      * enemy is taken out of the enemy list and off the stage. The source does both in one
      * loop over the enemies; here they are two passes over the same list, which ends in
      * the same state because starting an enemy does not change whether it is dead.
      */
    method SweepEnemies(onScreen: set<Goomba>)
      modifies this`goombas, this`stage, set g | g in goombas
      ensures goombas == RemoveAll(old(goombas), Keep(old(goombas), old(Dead(goombas))))
      ensures stage == RemoveAll(old(stage), GoombaActors(Keep(old(goombas), old(Dead(goombas)))))
      ensures forall g :: g in old(goombas) ==>
        g.moving == (old(g.moving) || g in onScreen) && g.dead == old(g.dead) && g.x == old(g.x) && g.y == old(g.y)
    {
      ghost var dead := Dead(goombas);
      StartOnScreen(onScreen);
      RemoveDead(dead);
    }

    /** Every enemy on screen starts moving; nothing else changes. */
    method StartOnScreen(onScreen: set<Goomba>)
      modifies set g | g in goombas
      ensures forall g :: g in goombas ==>
        g.moving == (old(g.moving) || g in onScreen) && g.dead == old(g.dead) && g.x == old(g.x) && g.y == old(g.y)
    {
      var i := 0;
      while i < |goombas|
        invariant 0 <= i <= |goombas|
        invariant forall k :: 0 <= k < |goombas| ==>
          goombas[k].moving == (old(goombas[k].moving) || (goombas[k] in onScreen && goombas[k] in goombas[..i]))
        invariant forall k :: 0 <= k < |goombas| ==>
          goombas[k].dead == old(goombas[k].dead) && goombas[k].x == old(goombas[k].x) && goombas[k].y == old(goombas[k].y)
      {
        var e := goombas[i];
        assert goombas[..i + 1] == goombas[..i] + [e];
        if e in onScreen {
          e.moving := true;
        }
        i := i + 1;
      }
      assert goombas[..i] == goombas;
    }

    /** Every enemy of `dead` is taken out of the enemy list and off the stage, in list order. */
    method RemoveDead(ghost dead: set<Goomba>)
      requires forall g :: g in goombas ==> (g in dead <==> g.dead)
      modifies this`goombas, this`stage
      ensures goombas == RemoveAll(old(goombas), Keep(old(goombas), dead))
      ensures stage == RemoveAll(old(stage), GoombaActors(Keep(old(goombas), dead)))
    {
      var snap := goombas;
      ghost var removed: seq<Goomba> := [];
      var i := 0;
      while i < |snap|
        invariant 0 <= i <= |snap|
        invariant removed == Keep(snap[..i], dead)
        invariant goombas == RemoveAll(snap, removed)
        invariant stage == RemoveAll(old(stage), GoombaActors(removed))
      {
        var e := snap[i];
        assert snap[..i + 1] == snap[..i] + [e];
        KeepSnoc(snap[..i], e, dead);
        assert e in old(goombas);
        if e.dead {
          assert e in dead;
          RemoveAllSnoc(snap, removed, e);
          GoombaActorsSnoc(removed, e);
          RemoveAllSnoc(old(stage), GoombaActors(removed), GoombaActor(e));
          goombas := RemoveValue(goombas, e);
          stage := RemoveValue(stage, GoombaActor(e));
          removed := removed + [e];
        }
        i := i + 1;
      }
      assert snap[..i] == snap;
    }

    /** The removal sweep of an update: every queued actor is taken off the stage and the queue is emptied. */
    method DrainRemovalQueue()
      modifies this`stage, this`objectsToRemove
      ensures stage == RemoveAll(old(stage), old(objectsToRemove))
      ensures objectsToRemove == []
    {
      var snap := objectsToRemove;
      var i := 0;
      while i < |snap|
        invariant 0 <= i <= |snap|
        invariant stage == RemoveAll(old(stage), snap[..i])
        invariant objectsToRemove == snap[i..]
      {
        var a := snap[i];
        assert snap[..i + 1][..i] == snap[..i];
        stage := RemoveValue(stage, a);
        assert snap[i..][1..] == snap[i + 1..];
        objectsToRemove := RemoveValue(objectsToRemove, a);
        i := i + 1;
      }
      assert snap[..i] == snap;
    }

    /**
      * The end-of-level check. `ResetLevel` among the events stands for the call of the
      * reset; its effect on the flags (clearing the reset request) happens here.
      */
    method EndLevel(frame: Frame) returns (events: seq<Event>)
      modifies this`levelEnded, this`resetFlag, this`playingFinishSong
      ensures Step(FlagsOf(), events) == EndLevelStep(old(FlagsOf()), frame)
    {
      ghost var step := EndLevelStep(FlagsOf(), frame);
      events := [];
      if !levelEnded && frame.overlapsFlag {
        events := [CaptureFlag];
        levelEnded := true;
        resetFlag := true;
      } else if resetFlag {
        if !frame.finishIsCurrent {
          events := events + [StopSong];
        }
        if !playingFinishSong && !frame.playingBefore {
          events := events + [PlaySong(FinishSong, false)];
          playingFinishSong := true;
        }
        if !frame.playingAfter {
          events := events + [ResetLevel];
          resetFlag := false;
        }
      }
      assert events == step.events && FlagsOf() == step.flags;
    }

    /**
      * Rebuild the level from freshly loaded map data: clear the reset request, animate and
      * retexture both wall layers, and fill a new stage with the enemies, the bricks and their
      * items, the flag, the player and the HUD. The end-of-level flags and the removal queue
      * are left as they are.
      */
    method Reset(walls: array2<Cell>, background: array2<Cell>, objs: seq<MapObject>, hidden: seq<MapObject>,
                 parseFloat: string -> real, getTile: string -> Region)
      requires walls != background
      requires BricksTyped(Snapshot(walls), hidden)
      modifies this`resetFlag, this`objects, this`hiddenItems, this`stage, this`goombas, this`mushrooms, walls, background
      ensures !resetFlag
      ensures objects == objs && hiddenItems == hidden
      ensures forall x, y :: 0 <= x < background.Length0 && 0 <= y < background.Length1 ==>
        background[x, y] == LoadCell(old(background[x, y]), x, y, parseFloat, getTile)
      ensures forall x, y :: 0 <= x < walls.Length0 && 0 <= y < walls.Length1 ==>
        walls[x, y] == if 1 <= x && 1 <= y then ClearActorCell(LoadCell(old(walls[x, y]), x, y, parseFloat, getTile))
                       else LoadCell(old(walls[x, y]), x, y, parseFloat, getTile)
      ensures |goombas| == |GoombaSpawns(objs)| && Distinct(goombas)
      ensures forall i :: 0 <= i < |goombas| ==>
        fresh(goombas[i]) && PlacedAt(goombas[i], GoombaSpawns(objs)[i])
      ensures stage == GoombaActors(goombas) + GridSpawns(old(Snapshot(walls)), walls.Length0, hidden)
                       + [FlagEntry, PlayerEntry, CoinsHudEntry, ScoreHudEntry]
      ensures mushrooms == GridMushrooms(old(Snapshot(walls)), walls.Length0, hidden)
    {
      ghost var w0 := Snapshot(walls);
      resetFlag := false;
      objects, hiddenItems := objs, hidden;
      LoadLayers(walls, background, parseFloat, getTile);
      ghost var w1 := Snapshot(walls);
      GridSpawnsSameShape(w1, w0, walls.Length0, hidden);
      Populate(walls, w1);
    }

    /**
      * Fill a new stage from the loaded level: the enemies from the object layer, the bricks
      * and their items from the wall layer, then the flag, the player and the HUD.
      */
    method Populate(walls: array2<Cell>, ghost g: Grid)
      requires Holds(walls, g) && BricksTyped(g, hiddenItems)
      modifies this`stage, this`goombas, this`mushrooms, walls
      ensures forall x, y :: 0 <= x < walls.Length0 && 0 <= y < walls.Length1 ==>
        walls[x, y] == if 1 <= x && 1 <= y then ClearActorCell(old(walls[x, y])) else old(walls[x, y])
      ensures |goombas| == |GoombaSpawns(objects)| && Distinct(goombas)
      ensures forall i :: 0 <= i < |goombas| ==>
        fresh(goombas[i]) && PlacedAt(goombas[i], GoombaSpawns(objects)[i])
      ensures stage == GoombaActors(goombas) + GridSpawns(g, walls.Length0, hiddenItems)
                       + [FlagEntry, PlayerEntry, CoinsHudEntry, ScoreHudEntry]
      ensures mushrooms == GridMushrooms(g, walls.Length0, hiddenItems)
    {
      stage, mushrooms := [], [];
      goombas := GenerateEnemies();
      assert stage == GoombaActors(goombas) && mushrooms == [];
      GenerateBricks(walls, g);
      stage := stage + [FlagEntry, PlayerEntry, CoinsHudEntry, ScoreHudEntry];
    }

    /** Load the background layer, then the wall layer. */
    method LoadLayers(walls: array2<Cell>, background: array2<Cell>, parseFloat: string -> real, getTile: string -> Region)
      requires walls != background
      modifies walls, background
      ensures forall x, y :: 0 <= x < background.Length0 && 0 <= y < background.Length1 ==>
        background[x, y] == LoadCell(old(background[x, y]), x, y, parseFloat, getTile)
      ensures forall x, y :: 0 <= x < walls.Length0 && 0 <= y < walls.Length1 ==>
        walls[x, y] == LoadCell(old(walls[x, y]), x, y, parseFloat, getTile)
      ensures SameShape(Snapshot(walls), old(Snapshot(walls)))
    {
      LoadLayer(background, parseFloat, getTile);
      LoadLayer(walls, parseFloat, getTile);
    }

    /** Animate a freshly loaded layer, then bind its tiles to their regions. */
    method LoadLayer(layer: array2<Cell>, parseFloat: string -> real, getTile: string -> Region)
      modifies layer
      ensures forall x, y :: 0 <= x < layer.Length0 && 0 <= y < layer.Length1 ==>
        layer[x, y] == LoadCell(old(layer[x, y]), x, y, parseFloat, getTile)
      ensures SameShape(Snapshot(layer), old(Snapshot(layer)))
    {
      ghost var g := Snapshot(layer);
      AnimateTiles(layer, parseFloat);
      var _ := InitTileset(layer, getTile);
      LoadedSameShape(g, Snapshot(layer), parseFloat, getTile);
    }
  }
}
