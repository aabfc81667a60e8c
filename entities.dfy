/** The game entities the world creates from the map, and the actors of its stage. */
module Entities {
  import opened Wrappers

  /**
    * An enemy. The world reads `dead` (set by the enemy's own logic) and sets
    * `moving` once the enemy has been on screen.
    */
  class Goomba {
    var x: real
    var y: real
    var moving: bool
    var dead: bool

    constructor (x: real, y: real)
      ensures this.x == x && this.y == y && !moving && !dead
    {
      this.x, this.y := x, y;
      moving, dead := false, false;
    }
  }

  /** The constant the world passes as the last argument when it creates a super mushroom. */
  const SuperArg: real := 4.0

  /** A power-up hidden in a brick, at the brick's cell. */
  datatype Mushroom = Super(x: int, y: int, arg: real)

  /**
    * A brick-like static actor built from a tile: its cell, colour, whether it is a
    * bonus block, whether it can be destroyed, and the items hidden in it
    * (None where the map names an item the world does not create).
    */
  datatype Brick = Brick(x: int, y: int, color: Option<string>, bonus: bool, destructable: bool, items: seq<Option<Mushroom>>)

  /**
    * What the stage holds: enemies (by reference), bricks, items, the null the
    * world hands to the stage for tiles and items it does not create, and actors
    * of classes outside this model (the player, the flag, the HUD tables).
    */
  datatype Actor =
    | GoombaActor(goomba: Goomba)
    | BrickActor(brick: Brick)
    | ItemActor(mushroom: Mushroom)
    | NoActor
    | OtherActor(id: nat)

  /** The stage entry the world adds for an item of a brick. */
  function ItemActorOf(item: Option<Mushroom>): Actor
  {
    match item
    case Some(m) => ItemActor(m)
    case None => NoActor
  }

  /** Stage entries for a list of items, in order. */
  function ItemActors(items: seq<Option<Mushroom>>): (r: seq<Actor>)
    ensures |r| == |items|
  {
    if items == [] then [] else ItemActors(items[..|items| - 1]) + [ItemActorOf(items[|items| - 1])]
  }

  /** An item list's stage entries are item entries and nulls only. */
  lemma {:induction false} ItemActorsKinds(items: seq<Option<Mushroom>>)
    ensures forall a :: a in ItemActors(items) ==> a.ItemActor? || a.NoActor?
  {
    if items != [] {
      ItemActorsKinds(items[..|items| - 1]);
    }
  }

  /** Stage entries for a list of enemies, in order. */
  function GoombaActors(gs: seq<Goomba>): (r: seq<Actor>)
    ensures |r| == |gs|
  {
    if gs == [] then [] else GoombaActors(gs[..|gs| - 1]) + [GoombaActor(gs[|gs| - 1])]
  }

  lemma GoombaActorsSnoc(gs: seq<Goomba>, g: Goomba)
    ensures GoombaActors(gs + [g]) == GoombaActors(gs) + [GoombaActor(g)]
  {
    assert (gs + [g])[..|gs|] == gs;
  }

  /** A list of enemies has one stage entry per occurrence of each enemy. */
  lemma {:induction false} GoombaActorsCount(gs: seq<Goomba>, g: Goomba)
    ensures multiset(GoombaActors(gs))[GoombaActor(g)] == multiset(gs)[g]
  {
    if gs != [] {
      var init, last := gs[..|gs| - 1], gs[|gs| - 1];
      assert gs == init + [last];
      GoombaActorsCount(init, g);
    }
  }

  /** The mushrooms among a list of items, in order. */
  function Somes(items: seq<Option<Mushroom>>): (r: seq<Mushroom>)
    ensures |r| <= |items|
  {
    if items == [] then [] else Somes(items[..|items| - 1]) + (if items[|items| - 1].Some? then [items[|items| - 1].value] else [])
  }

  /** Somes keeps exactly the mushrooms of the list. */
  lemma {:induction false} SomesMembers(items: seq<Option<Mushroom>>)
    ensures forall m :: m in Somes(items) <==> Some(m) in items
  {
    if items != [] {
      var init, last := items[..|items| - 1], items[|items| - 1];
      assert items == init + [last];
      SomesMembers(init);
    }
  }

  lemma ItemsSnoc(items: seq<Option<Mushroom>>, item: Option<Mushroom>)
    ensures ItemActors(items + [item]) == ItemActors(items) + [ItemActorOf(item)]
    ensures Somes(items + [item]) == Somes(items) + (if item.Some? then [item.value] else [])
  {
    assert (items + [item])[..|items|] == items;
  }

  /** The mushroom entries of a list of actors, in order. */
  function MushroomsIn(actors: seq<Actor>): (r: seq<Mushroom>)
    ensures |r| <= |actors|
  {
    MushroomsAmong(actors, |actors|)
  }

  /** The mushroom entries among the first n actors, counted by index. */
  function MushroomsAmong(actors: seq<Actor>, n: nat): (r: seq<Mushroom>)
    requires n <= |actors|
    ensures |r| <= n
  {
    if n == 0 then [] else MushroomsAmong(actors, n - 1) + (if actors[n - 1].ItemActor? then [actors[n - 1].mushroom] else [])
  }

  lemma {:induction false} MushroomsAmongMembers(actors: seq<Actor>, n: nat)
    requires n <= |actors|
    ensures forall m :: m in MushroomsAmong(actors, n) <==> exists i :: 0 <= i < n && actors[i] == ItemActor(m)
  {
    if n > 0 {
      MushroomsAmongMembers(actors, n - 1);
    }
  }

  /** MushroomsIn keeps exactly the item entries of the list. */
  lemma MushroomsInMembers(actors: seq<Actor>)
    ensures forall m :: m in MushroomsIn(actors) <==> ItemActor(m) in actors
  {
    MushroomsAmongMembers(actors, |actors|);
  }

  lemma {:induction false} MushroomsAmongPrefix(a: seq<Actor>, b: seq<Actor>, n: nat)
    requires n <= |a|
    ensures MushroomsAmong(a + b, n) == MushroomsAmong(a, n)
  {
    if n > 0 {
      MushroomsAmongPrefix(a, b, n - 1);
      assert (a + b)[n - 1] == a[n - 1];
    }
  }

  lemma {:induction false} MushroomsAmongAppend(a: seq<Actor>, b: seq<Actor>, k: nat)
    requires k <= |b|
    ensures MushroomsAmong(a + b, |a| + k) == MushroomsIn(a) + MushroomsAmong(b, k)
  {
    if k == 0 {
      MushroomsAmongPrefix(a, b, |a|);
    } else {
      MushroomsAmongAppend(a, b, k - 1);
      assert (a + b)[|a| + k - 1] == b[k - 1];
      var part := if b[k - 1].ItemActor? then [b[k - 1].mushroom] else [];
      assert (MushroomsIn(a) + MushroomsAmong(b, k - 1)) + part == MushroomsIn(a) + (MushroomsAmong(b, k - 1) + part);
    }
  }

  lemma MushroomsInAppend(a: seq<Actor>, b: seq<Actor>)
    ensures MushroomsIn(a + b) == MushroomsIn(a) + MushroomsIn(b)
  {
    MushroomsAmongAppend(a, b, |b|);
  }

  /** The mushrooms among a brick's stage entries are the brick's mushrooms, in the same order. */
  lemma {:induction false} MushroomsOfItems(items: seq<Option<Mushroom>>)
    ensures MushroomsIn(ItemActors(items)) == Somes(items)
  {
    if items != [] {
      var init, last := items[..|items| - 1], items[|items| - 1];
      assert ItemActors(items) == ItemActors(init) + [ItemActorOf(last)];
      MushroomsOfItems(init);
      MushroomsInAppend(ItemActors(init), [ItemActorOf(last)]);
      assert MushroomsIn([ItemActorOf(last)]) == (if last.Some? then [last.value] else []) by {
        assert [ItemActorOf(last)][..0] == [];
      }
    }
  }
}
