/** Values the selection layer reads, copies and records: map positions,
    the selection flags of a tile and of the things on it, and the undo
    records (changes, actions, batches) built from deep copies of tiles. */
module Tiles {

  datatype Option<T> = None | Some(value: T)

  /** A map coordinate. Floors are numbered from the highest (z = 0)
      downwards, so a larger z is a deeper floor; GROUND_LAYER is the
      ground floor. */
  datatype Position = Position(x: int, y: int, z: int)

  const GROUND_LAYER: int := 7

  datatype Item = Item(selected: bool, isBorder: bool)
  datatype Creature = Creature(selected: bool)
  datatype Spawn = Spawn(selected: bool)

  /** Everything a deep copy of a tile carries that the selection layer
      looks at: where it is, its own selected flag, the ground's flag, the
      stacked items, and the optional creature and spawn. */
  datatype TileState = TileState(
    pos: Position,
    selected: bool,
    groundSelected: bool,
    items: seq<Item>,
    creature: Option<Creature>,
    spawn: Option<Spawn>)

  /** A live tile owned by the map. Pointers to it are compared by identity. */
  class Tile {
    var state: TileState

    constructor (s: TileState)
      ensures state == s
    {
      state := s;
    }
  }

  /** One undo record: the new state of a tile, as a detached copy. */
  datatype Change = Change(tile: TileState)

  /** An action is the sequence of changes recorded into it, in order. */
  type Action = seq<Change>

  /** A batch is the sequence of actions committed into it, in order. */
  type Batch = seq<Action>

  /** Two tile states describe the same tile with the same contents, whatever
      their selection flags. */
  ghost predicate SameShape(a: TileState, b: TileState)
  {
    a.pos == b.pos &&
    |a.items| == |b.items| &&
    (forall i :: 0 <= i < |a.items| ==> a.items[i].isBorder == b.items[i].isBorder) &&
    a.creature.Some? == b.creature.Some? &&
    a.spawn.Some? == b.spawn.Some?
  }

  ghost predicate AllSelected(t: TileState)
  {
    t.selected && t.groundSelected &&
    (forall i :: 0 <= i < |t.items| ==> t.items[i].selected) &&
    (t.creature.Some? ==> t.creature.value.selected) &&
    (t.spawn.Some? ==> t.spawn.value.selected)
  }

  ghost predicate NoneSelected(t: TileState)
  {
    !t.selected && !t.groundSelected &&
    (forall i :: 0 <= i < |t.items| ==> !t.items[i].selected) &&
    (t.creature.Some? ==> !t.creature.value.selected) &&
    (t.spawn.Some? ==> !t.spawn.value.selected)
  }

  function SetItems(items: seq<Item>, b: bool): (r: seq<Item>)
    ensures |r| == |items|
    ensures forall i :: 0 <= i < |r| ==> r[i] == items[i].(selected := b)
  {
    if items == [] then [] else [items[0].(selected := b)] + SetItems(items[1..], b)
  }

  function SetAll(t: TileState, b: bool): TileState
  {
    TileState(t.pos, b, b, SetItems(t.items, b),
              if t.creature.Some? then Some(Creature(b)) else None,
              if t.spawn.Some? then Some(Spawn(b)) else None)
  }

  /** Tile::select applied to a copy: the tile and everything on it selected. */
  function Selected(t: TileState): (r: TileState)
    ensures SameShape(t, r) && AllSelected(r)
  {
    SetAll(t, true)
  }

  /** Tile::deselect: the tile and everything on it deselected. */
  function Deselected(t: TileState): (r: TileState)
    ensures SameShape(t, r) && NoneSelected(r)
  {
    SetAll(t, false)
  }

  lemma DeselectedTwice(t: TileState)
    ensures Deselected(Deselected(t)) == Deselected(t)
  {
    assert SetItems(SetItems(t.items, false), false) == SetItems(t.items, false);
  }

  /** The tile with the selected flag of item i set to b. */
  function WithItem(t: TileState, i: nat, b: bool): (r: TileState)
    requires i < |t.items|
    ensures SameShape(t, r)
    ensures r.items[i].selected == b
    ensures forall j :: 0 <= j < |t.items| && j != i ==> r.items[j] == t.items[j]
    ensures r.selected == t.selected && r.groundSelected == t.groundSelected
    ensures r.creature == t.creature && r.spawn == t.spawn
  {
    t.(items := t.items[i := t.items[i].(selected := b)])
  }

  /** Setting an item's flag and then putting back its old value restores the tile. */
  lemma WithItemRestored(t: TileState, i: nat, b: bool)
    requires i < |t.items|
    ensures WithItem(WithItem(t, i, b), i, t.items[i].selected) == t
    ensures WithItem(t, i, t.items[i].selected) == t
  {
    assert WithItem(WithItem(t, i, b), i, t.items[i].selected).items == t.items;
    assert WithItem(t, i, t.items[i].selected).items == t.items;
  }

  /** The tile with the ground's selected flag set to b. */
  function WithGround(t: TileState, b: bool): (r: TileState)
    ensures SameShape(t, r) && r.groundSelected == b
    ensures r.selected == t.selected && r.items == t.items
    ensures r.creature == t.creature && r.spawn == t.spawn
  {
    t.(groundSelected := b)
  }

  function WithCreature(t: TileState, b: bool): (r: TileState)
    requires t.creature.Some?
    ensures SameShape(t, r) && r.creature == Some(Creature(b))
    ensures r.selected == t.selected && r.groundSelected == t.groundSelected
    ensures r.items == t.items && r.spawn == t.spawn
  {
    t.(creature := Some(Creature(b)))
  }

  function WithSpawn(t: TileState, b: bool): (r: TileState)
    requires t.spawn.Some?
    ensures SameShape(t, r) && r.spawn == Some(Spawn(b))
    ensures r.selected == t.selected && r.groundSelected == t.groundSelected
    ensures r.items == t.items && r.creature == t.creature
  {
    t.(spawn := Some(Spawn(b)))
  }
}
