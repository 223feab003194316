/** SelectionArea: the editor's live selection (a vector of tile pointers
    with a rotating erase cursor) together with the undo recording around it
    (a batch holding committed actions and the current action receiving
    changes), and SelectionThread, the worker that records the selection of
    a range or a list of positions into an action of its own. */
module Selection {
  import opened Tiles
  import opened Membership
  import opened Sweep

  /** The session flags: INTERNAL records nothing, SUBTHREAD records into an
      action without a batch. INTERNAL is tested first. */
  datatype SessionFlags = SessionFlags(internal: bool, subthread: bool)

  const NONE: SessionFlags := SessionFlags(false, false)
  const INTERNAL: SessionFlags := SessionFlags(true, false)
  const SUBTHREAD: SessionFlags := SessionFlags(false, true)

  /** Seeds of the bounding-box folds. */
  const MIN_SEED: Position := Position(0x10000, 0x10000, 0x10)
  const MAX_SEED: Position := Position(0, 0, 0)

  /** p is component-wise at most q. */
  predicate NoGreater(p: Position, q: Position)
  {
    p.x <= q.x && p.y <= q.y && p.z <= q.z
  }

  /** The copy add(tile, item) records: item i selected and, with the
      border-is-ground setting on and a border item, the ground as well. */
  function ItemSelectedCopy(t: TileState, i: nat, borderIsGround: bool): (r: TileState)
    requires i < |t.items|
    ensures SameShape(t, r) && r.items[i].selected
    ensures forall j :: 0 <= j < |t.items| && j != i ==> r.items[j] == t.items[j]
    ensures r.groundSelected == (t.groundSelected || (borderIsGround && t.items[i].isBorder))
    ensures r.selected == t.selected && r.creature == t.creature && r.spawn == t.spawn
  {
    var c := WithItem(t, i, true);
    if borderIsGround && t.items[i].isBorder then c.(groundSelected := true) else c
  }

  /** The copy remove(tile, item) records: item i deselected and, with the
      setting on and a border item, the ground deselected as well. */
  function ItemDeselectedCopy(t: TileState, i: nat, borderIsGround: bool): (r: TileState)
    requires i < |t.items|
    ensures SameShape(t, r) && !r.items[i].selected
    ensures forall j :: 0 <= j < |t.items| && j != i ==> r.items[j] == t.items[j]
    ensures r.groundSelected == (t.groundSelected && !(borderIsGround && t.items[i].isBorder))
    ensures r.selected == t.selected && r.creature == t.creature && r.spawn == t.spawn
  {
    var c := WithItem(t, i, false);
    if t.items[i].isBorder && borderIsGround then c.(groundSelected := false) else c
  }

  /** Selecting and deselecting the same item record copies that differ in
      that item's flag and, for a border item under the setting, the ground. */
  lemma ItemCopiesComplementary(t: TileState, i: nat, borderIsGround: bool)
    requires i < |t.items|
    ensures ItemSelectedCopy(t, i, borderIsGround).items[i].selected
    ensures !ItemDeselectedCopy(t, i, borderIsGround).items[i].selected
    ensures ItemSelectedCopy(t, i, borderIsGround) ==
            ItemDeselectedCopy(t, i, borderIsGround).(items := ItemSelectedCopy(t, i, borderIsGround).items,
                                                      groundSelected := ItemSelectedCopy(t, i, borderIsGround).groundSelected)
  {
  }

  /** The states of a sequence of live tiles, read at one moment. */
  function States(ts: seq<Tile>): (r: seq<TileState>)
    reads set t | t in ts
    ensures |r| == |ts|
    ensures forall k :: 0 <= k < |ts| ==> r[k] == ts[k].state
    decreases |ts|
  {
    if ts == [] then [] else States(ts[..|ts| - 1]) + [ts[|ts| - 1].state]
  }

  /** The deselected copies clear() records, one per member in vector order. */
  function Deselections(states: seq<TileState>): (a: Action)
    ensures |a| == |states|
    ensures forall k :: 0 <= k < |states| ==> a[k].tile == Deselected(states[k])
    decreases |states|
  {
    if states == [] then []
    else Deselections(states[..|states| - 1]) + [Change(Deselected(states[|states| - 1]))]
  }

  /** One more member cleared: its deselected copy goes after the copies
      recorded so far. */
  lemma DeselectionsStep(acc: Action, states: seq<TileState>, i: nat)
    requires i < |states|
    ensures acc + Deselections(states[..i + 1]) == acc + Deselections(states[..i]) + [Change(Deselected(states[i]))]
  {
    assert states[..i + 1][..i] == states[..i];
  }

  /** The editor's queue of finished selection batches (the undo history). */
  class Editor {
    var batches: seq<Batch>

    constructor ()
      ensures batches == []
    {
      batches := [];
    }
  }

  class SelectionArea {
    const editor: Editor
    /** The selected tiles, in no particular order; duplicates are not refused. */
    var tiles: seq<Tile>
    /** The erase iterator, as an index into tiles. */
    var cursor: nat
    /** The batch of a full session, if one is open. */
    var session: Option<Batch>
    /** The action receiving changes, if one is open. */
    var subsession: Option<Action>
    var busy: bool

    /** The erase cursor is within the vector or one past its end. It is
        left behind when clear() empties the vector, which is harmless
        because an empty vector is never scanned. */
    ghost predicate Valid()
      reads this
    {
      tiles == [] || cursor <= |tiles|
    }

    constructor (editor: Editor)
      ensures this.editor == editor && tiles == [] && cursor == 0
      ensures session == None && subsession == None && !busy
      ensures Valid()
    {
      this.editor := editor;
      tiles := [];
      cursor := 0;
      session := None;
      subsession := None;
      busy := false;
    }

    /** The lower corner of the selection's bounding box: the component-wise
        minimum of MIN_SEED and every member's position. */
    method MinPosition() returns (p: Position)
      ensures NoGreater(p, MIN_SEED)
      ensures forall k :: 0 <= k < |tiles| ==> NoGreater(p, tiles[k].state.pos)
      ensures p.x == MIN_SEED.x || exists k :: 0 <= k < |tiles| && p.x == tiles[k].state.pos.x
      ensures p.y == MIN_SEED.y || exists k :: 0 <= k < |tiles| && p.y == tiles[k].state.pos.y
      ensures p.z == MIN_SEED.z || exists k :: 0 <= k < |tiles| && p.z == tiles[k].state.pos.z
    {
      p := MIN_SEED;
      for i := 0 to |tiles|
        invariant NoGreater(p, MIN_SEED)
        invariant forall k :: 0 <= k < i ==> NoGreater(p, tiles[k].state.pos)
        invariant p.x == MIN_SEED.x || exists k :: 0 <= k < i && p.x == tiles[k].state.pos.x
        invariant p.y == MIN_SEED.y || exists k :: 0 <= k < i && p.y == tiles[k].state.pos.y
        invariant p.z == MIN_SEED.z || exists k :: 0 <= k < i && p.z == tiles[k].state.pos.z
      {
        var pos := tiles[i].state.pos;
        if p.x > pos.x { p := p.(x := pos.x); }
        if p.y > pos.y { p := p.(y := pos.y); }
        if p.z > pos.z { p := p.(z := pos.z); }
      }
    }

    /** The upper corner of the selection's bounding box: the component-wise
        maximum of MAX_SEED and every member's position. */
    method MaxPosition() returns (p: Position)
      ensures NoGreater(MAX_SEED, p)
      ensures forall k :: 0 <= k < |tiles| ==> NoGreater(tiles[k].state.pos, p)
      ensures p.x == MAX_SEED.x || exists k :: 0 <= k < |tiles| && p.x == tiles[k].state.pos.x
      ensures p.y == MAX_SEED.y || exists k :: 0 <= k < |tiles| && p.y == tiles[k].state.pos.y
      ensures p.z == MAX_SEED.z || exists k :: 0 <= k < |tiles| && p.z == tiles[k].state.pos.z
    {
      p := MAX_SEED;
      for i := 0 to |tiles|
        invariant NoGreater(MAX_SEED, p)
        invariant forall k :: 0 <= k < i ==> NoGreater(tiles[k].state.pos, p)
        invariant p.x == MAX_SEED.x || exists k :: 0 <= k < i && p.x == tiles[k].state.pos.x
        invariant p.y == MAX_SEED.y || exists k :: 0 <= k < i && p.y == tiles[k].state.pos.y
        invariant p.z == MAX_SEED.z || exists k :: 0 <= k < i && p.z == tiles[k].state.pos.z
      {
        var pos := tiles[i].state.pos;
        if p.x < pos.x { p := p.(x := pos.x); }
        if p.y < pos.y { p := p.(y := pos.y); }
        if p.z < pos.z { p := p.(z := pos.z); }
      }
    }

    /** add(tile, item): records a copy of the tile with the item selected,
        unless the item is selected already. The live tile is left as it was. */
    method AddItem(tile: Tile, i: nat, borderIsGround: bool)
      requires subsession.Some? && i < |tile.state.items|
      modifies this, tile
      ensures tile.state == old(tile.state)
      ensures subsession ==
        if old(tile.state.items[i].selected) then old(subsession)
        else Some(old(subsession.value) + [Change(ItemSelectedCopy(old(tile.state), i, borderIsGround))])
      ensures tiles == old(tiles) && cursor == old(cursor) && session == old(session) && busy == old(busy)
    {
      if tile.state.items[i].selected {
        return;
      }
      ghost var live := tile.state;
      tile.state := WithItem(tile.state, i, true);
      var copy := tile.state;
      tile.state := WithItem(tile.state, i, false);
      WithItemRestored(live, i, true);
      if borderIsGround && tile.state.items[i].isBorder {
        copy := copy.(groundSelected := true);
      }
      subsession := Some(subsession.value + [Change(copy)]);
    }

    /** add(tile, item) given the tile's ground: records a copy with the
        ground selected, unless it is selected already. Selecting the ground
        again for a border ground under the setting changes nothing more. */
    method AddGround(tile: Tile)
      requires subsession.Some?
      modifies this, tile
      ensures tile.state == old(tile.state)
      ensures subsession ==
        if old(tile.state.groundSelected) then old(subsession)
        else Some(old(subsession.value) + [Change(WithGround(old(tile.state), true))])
      ensures tiles == old(tiles) && cursor == old(cursor) && session == old(session) && busy == old(busy)
    {
      if tile.state.groundSelected {
        return;
      }
      tile.state := WithGround(tile.state, true);
      var copy := tile.state;
      tile.state := WithGround(tile.state, false);
      subsession := Some(subsession.value + [Change(copy)]);
    }

    /** add(tile, spawn): records a copy with the tile's spawn selected,
        unless it is selected already. */
    method AddSpawn(tile: Tile)
      requires subsession.Some? && tile.state.spawn.Some?
      modifies this, tile
      ensures tile.state == old(tile.state)
      ensures subsession ==
        if old(tile.state.spawn.value.selected) then old(subsession)
        else Some(old(subsession.value) + [Change(WithSpawn(old(tile.state), true))])
      ensures tiles == old(tiles) && cursor == old(cursor) && session == old(session) && busy == old(busy)
    {
      if tile.state.spawn.value.selected {
        return;
      }
      tile.state := WithSpawn(tile.state, true);
      var copy := tile.state;
      tile.state := WithSpawn(tile.state, false);
      subsession := Some(subsession.value + [Change(copy)]);
    }

    /** add(tile, creature): records a copy with the tile's creature
        selected, unless it is selected already. */
    method AddCreature(tile: Tile)
      requires subsession.Some? && tile.state.creature.Some?
      modifies this, tile
      ensures tile.state == old(tile.state)
      ensures subsession ==
        if old(tile.state.creature.value.selected) then old(subsession)
        else Some(old(subsession.value) + [Change(WithCreature(old(tile.state), true))])
      ensures tiles == old(tiles) && cursor == old(cursor) && session == old(session) && busy == old(busy)
    {
      if tile.state.creature.value.selected {
        return;
      }
      tile.state := WithCreature(tile.state, true);
      var copy := tile.state;
      tile.state := WithCreature(tile.state, false);
      subsession := Some(subsession.value + [Change(copy)]);
    }

    /** add(tile): always records a copy of the whole tile, selected. */
    method AddTile(tile: Tile)
      requires subsession.Some?
      modifies this
      ensures tile.state == old(tile.state)
      ensures subsession == Some(old(subsession.value) + [Change(Selected(tile.state))])
      ensures tiles == old(tiles) && cursor == old(cursor) && session == old(session) && busy == old(busy)
    {
      var copy := Selected(tile.state);
      subsession := Some(subsession.value + [Change(copy)]);
    }

    /** remove(tile, item): always records a copy with the item deselected;
        the live item's flag is put back to what it was. */
    method RemoveItem(tile: Tile, i: nat, borderIsGround: bool)
      requires subsession.Some? && i < |tile.state.items|
      modifies this, tile
      ensures tile.state == old(tile.state)
      ensures subsession == Some(old(subsession.value) + [Change(ItemDeselectedCopy(old(tile.state), i, borderIsGround))])
      ensures tiles == old(tiles) && cursor == old(cursor) && session == old(session) && busy == old(busy)
    {
      ghost var live := tile.state;
      var wasSelected := tile.state.items[i].selected;
      tile.state := WithItem(tile.state, i, false);
      var copy := tile.state;
      if wasSelected {
        tile.state := WithItem(tile.state, i, true);
      }
      WithItemRestored(live, i, false);
      if tile.state.items[i].isBorder && borderIsGround {
        copy := copy.(groundSelected := false);
      }
      subsession := Some(subsession.value + [Change(copy)]);
    }

    /** remove(tile, item) given the tile's ground: always records a copy
        with the ground deselected; the live ground flag is put back. */
    method RemoveGround(tile: Tile)
      requires subsession.Some?
      modifies this, tile
      ensures tile.state == old(tile.state)
      ensures subsession == Some(old(subsession.value) + [Change(WithGround(old(tile.state), false))])
      ensures tiles == old(tiles) && cursor == old(cursor) && session == old(session) && busy == old(busy)
    {
      var wasSelected := tile.state.groundSelected;
      tile.state := WithGround(tile.state, false);
      var copy := tile.state;
      if wasSelected {
        tile.state := WithGround(tile.state, true);
      }
      subsession := Some(subsession.value + [Change(copy)]);
    }

    /** remove(tile, spawn): always records a copy with the spawn deselected. */
    method RemoveSpawn(tile: Tile)
      requires subsession.Some? && tile.state.spawn.Some?
      modifies this, tile
      ensures tile.state == old(tile.state)
      ensures subsession == Some(old(subsession.value) + [Change(WithSpawn(old(tile.state), false))])
      ensures tiles == old(tiles) && cursor == old(cursor) && session == old(session) && busy == old(busy)
    {
      var wasSelected := tile.state.spawn.value.selected;
      tile.state := WithSpawn(tile.state, false);
      var copy := tile.state;
      if wasSelected {
        tile.state := WithSpawn(tile.state, true);
      }
      subsession := Some(subsession.value + [Change(copy)]);
    }

    /** remove(tile, creature): always records a copy with the creature deselected. */
    method RemoveCreature(tile: Tile)
      requires subsession.Some? && tile.state.creature.Some?
      modifies this, tile
      ensures tile.state == old(tile.state)
      ensures subsession == Some(old(subsession.value) + [Change(WithCreature(old(tile.state), false))])
      ensures tiles == old(tiles) && cursor == old(cursor) && session == old(session) && busy == old(busy)
    {
      var wasSelected := tile.state.creature.value.selected;
      tile.state := WithCreature(tile.state, false);
      var copy := tile.state;
      if wasSelected {
        tile.state := WithCreature(tile.state, true);
      }
      subsession := Some(subsession.value + [Change(copy)]);
    }

    /** remove(tile): always records a copy of the whole tile, deselected. */
    method RemoveTile(tile: Tile)
      requires subsession.Some?
      modifies this
      ensures tile.state == old(tile.state)
      ensures subsession == Some(old(subsession.value) + [Change(Deselected(tile.state))])
      ensures tiles == old(tiles) && cursor == old(cursor) && session == old(session) && busy == old(busy)
    {
      var copy := Deselected(tile.state);
      subsession := Some(subsession.value + [Change(copy)]);
    }

    /** addInternal: appends the pointer, without looking for a duplicate,
        and puts the erase cursor back at the front. Records nothing. */
    method AddInternal(t: Tile)
      requires Valid()
      modifies this
      ensures Valid()
      ensures tiles == old(tiles) + [t] && cursor == 0
      ensures session == old(session) && subsession == old(subsession) && busy == old(busy)
    {
      tiles := tiles + [t];
      cursor := 0;
    }

    /** removeInternal: scans from the erase cursor, wrapping to the front at
        the end, for the first slot holding t, and removes it by moving the
        last pointer into it. The scan only ends on a match, so t must be a
        member unless the vector is empty. Records nothing. */
    method RemoveInternal(t: Tile)
      requires Valid()
      requires tiles == [] || t in tiles
      modifies this
      ensures Valid()
      ensures old(tiles) == [] ==> tiles == [] && cursor == old(cursor)
      ensures old(tiles) != [] ==>
        var k := ScanIndex(old(tiles), old(cursor), t);
        tiles == RemovedAt(old(tiles), k) && cursor == CursorAfter(old(tiles), k) &&
        multiset(tiles) + multiset{t} == multiset(old(tiles))
      ensures session == old(session) && subsession == old(subsession) && busy == old(busy)
    {
      if |tiles| == 0 {
        return;
      }
      ghost var c0 := cursor;
      ghost var wrapped := false;
      while true
        invariant tiles == old(tiles) && t in tiles && cursor <= |tiles|
        invariant session == old(session) && subsession == old(subsession) && busy == old(busy)
        invariant !wrapped ==> c0 == old(cursor) && c0 <= cursor && forall i :: c0 <= i < cursor ==> tiles[i] != t
        invariant wrapped ==> c0 == old(cursor) && forall i :: c0 <= i < |tiles| ==> tiles[i] != t
        invariant wrapped ==> forall i :: 0 <= i < cursor ==> tiles[i] != t
        decreases !wrapped, |tiles| - cursor
      {
        if cursor == |tiles| {
          cursor := 0;
          wrapped := true;
        }
        if tiles[cursor] == t {
          var k, last := cursor, |tiles| - 1;
          assert k == ScanIndex(tiles, c0, t);
          RemovedAtMultiset(tiles, k);
          if tiles[k] == tiles[last] {
            assert tiles[..last] == RemovedAt(tiles, k);
            tiles := tiles[..last];
            cursor := 0;
          } else {
            tiles := tiles[k := tiles[last]][..last];
          }
          return;
        }
        cursor := cursor + 1;
      }
    }

    /** clear(): inside a full session, records a deselected copy of every
        member and leaves the members in place; otherwise deselects every
        live member and empties the vector, recording nothing. */
    method Clear()
      requires Valid()
      requires session.Some? ==> subsession.Some?
      modifies this, set t | t in tiles
      ensures Valid()
      ensures cursor == old(cursor) && session == old(session) && busy == old(busy)
      ensures old(session).Some? ==>
        tiles == old(tiles) &&
        subsession == Some(old(subsession.value + Deselections(States(tiles)))) &&
        forall t :: t in old(tiles) ==> t.state == old(t.state)
      ensures old(session).None? ==>
        tiles == [] && subsession == old(subsession) &&
        forall t :: t in old(tiles) ==> t.state == Deselected(old(t.state))
    {
      if session.Some? {
        RecordDeselections();
      } else {
        DeselectAll();
      }
    }

    /** clear() inside a session: one deselected copy per member, in vector
        order, goes into the open action; the members are left alone. */
    method RecordDeselections()
      requires subsession.Some?
      modifies this
      ensures tiles == old(tiles) && cursor == old(cursor) && session == old(session) && busy == old(busy)
      ensures subsession == Some(old(subsession.value + Deselections(States(tiles))))
    {
      ghost var acc, states := subsession.value, States(tiles);
      assert acc + Deselections(states[..0]) == acc;
      var i := 0;
      while i < |tiles|
        invariant 0 <= i <= |tiles|
        invariant tiles == old(tiles) && cursor == old(cursor) && session == old(session) && busy == old(busy)
        invariant subsession == Some(acc + Deselections(states[..i]))
      {
        var copy := Deselected(tiles[i].state);
        DeselectionsStep(acc, states, i);
        subsession := Some(subsession.value + [Change(copy)]);
        i := i + 1;
      }
      assert states[..|tiles|] == states;
    }

    /** clear() outside a session: every member deselected in place, then
        the vector emptied. */
    method DeselectAll()
      modifies this, set t | t in tiles
      ensures tiles == [] && cursor == old(cursor) && session == old(session)
      ensures subsession == old(subsession) && busy == old(busy)
      ensures forall t :: t in old(tiles) ==> t.state == Deselected(old(t.state))
    {
      var i := 0;
      while i < |tiles|
        modifies set t | t in tiles
        invariant 0 <= i <= |tiles|
        invariant forall t :: t in tiles ==>
          t.state == if t in tiles[..i] then Deselected(old(t.state)) else old(t.state)
      {
        var t := tiles[i];
        DeselectedTwice(old(t.state));
        t.state := Deselected(t.state);
        assert tiles[..i + 1] == tiles[..i] + [t];
        i := i + 1;
      }
      assert tiles[..|tiles|] == tiles;
      tiles := [];
    }

    /** start(flags): opens an action unless INTERNAL, and a batch as well
        unless SUBTHREAD; rewinds the erase cursor and marks the area busy. */
    method Start(flags: SessionFlags)
      modifies this
      ensures Valid()
      ensures tiles == old(tiles) && cursor == 0 && busy
      ensures session == if !flags.internal && !flags.subthread then Some([]) else old(session)
      ensures subsession == if !flags.internal then Some([]) else old(subsession)
    {
      if !flags.internal {
        if !flags.subthread {
          session := Some([]);
        }
        subsession := Some([]);
      }
      cursor := 0;
      busy := true;
    }

    /** commit(): inside a full session, folds the current action into the
        batch and opens a fresh action; otherwise only rewinds the cursor.
        The members are never touched. */
    method Commit()
      requires session.Some? ==> subsession.Some?
      modifies this
      ensures Valid()
      ensures tiles == old(tiles) && cursor == 0 && busy == old(busy)
      ensures old(session).Some? ==>
        session == Some(old(session.value) + [old(subsession.value)]) && subsession == Some([])
      ensures old(session).None? ==> session == None && subsession == old(subsession)
    {
      cursor := 0;
      if session.Some? {
        var batch := session.value;
        session := None;
        batch := batch + [subsession.value];
        subsession := Some([]);
        session := Some(batch);
      }
    }

    /** finish(flags): with SUBTHREAD, lets go of the action without folding
        it (the caller has taken it); in a full session, folds the action
        into the batch and hands the batch to the editor; with INTERNAL, only
        rewinds the cursor. Always marks the area idle. */
    method Finish(flags: SessionFlags)
      requires !flags.internal && flags.subthread ==> subsession.Some?
      requires !flags.internal && !flags.subthread ==> session.Some? && subsession.Some?
      modifies this, if !flags.internal && !flags.subthread then {editor} else {}
      ensures Valid()
      ensures tiles == old(tiles) && cursor == 0 && !busy
      ensures flags.internal ==> session == old(session) && subsession == old(subsession)
      ensures !flags.internal && flags.subthread ==> session == old(session) && subsession == None
      ensures !flags.internal && !flags.subthread ==>
        session == None && subsession == None &&
        editor.batches == old(editor.batches) + [old(session.value) + [old(subsession.value)]]
    {
      cursor := 0;
      if !flags.internal {
        if flags.subthread {
          subsession := None;
        } else {
          var batch := session.value;
          session := None;
          batch := batch + [subsession.value];
          editor.batches := editor.batches + [batch];
          session := None;
          subsession := None;
        }
      }
      busy := false;
    }

    /** join(thread): appends the worker's action to this area's batch and
        clears the worker's own reference to it. */
    method Join(thread: SelectionThread)
      requires session.Some? && thread.result.Some? && thread.selection != this
      modifies this, thread.selection
      ensures session == Some(old(session.value) + [old(thread.result.value)])
      ensures thread.selection.subsession == None
      ensures thread.selection.tiles == old(thread.selection.tiles) && thread.selection.session == old(thread.selection.session)
      ensures thread.selection.cursor == old(thread.selection.cursor) && thread.selection.busy == old(thread.selection.busy)
      ensures tiles == old(tiles) && cursor == old(cursor) && subsession == old(subsession) && busy == old(busy)
    {
      session := Some(session.value + [thread.result.value]);
      thread.selection.subsession := None;
    }
  }

  /** A worker that records the selection of a range or of a list of
      positions into an action of its own, held by its private area. */
  class SelectionThread {
    const editor: Editor
    var start: Position
    var end: Position
    const positions: Option<seq<Position>>
    const selection: SelectionArea
    var result: Option<Action>

    constructor ForRange(editor: Editor, start: Position, end: Position)
      ensures this.editor == editor && this.start == start && this.end == end
      ensures positions == None && result == None
      ensures fresh(selection) && selection.editor == editor && selection.tiles == []
      ensures selection.session == None && selection.subsession == None
    {
      this.editor := editor;
      this.start := start;
      this.end := end;
      positions := None;
      selection := new SelectionArea(editor);
      result := None;
    }

    constructor ForPositions(editor: Editor, positions: seq<Position>)
      ensures this.editor == editor && this.positions == Some(positions) && result == None
      ensures fresh(selection) && selection.editor == editor && selection.tiles == []
      ensures selection.session == None && selection.subsession == None
    {
      this.editor := editor;
      start := Position(0, 0, 0);
      end := Position(0, 0, 0);
      this.positions := Some(positions);
      selection := new SelectionArea(editor);
      result := None;
    }

    /** The worker's body: opens an action, records a whole-tile select for
        every visited position that holds a tile, in visit order, hands the
        action over as the result and lets go of it. A range sweep leaves
        its corners moved by the compensation it applied. */
    method Entry(grid: map<Position, Tile>, compensated: bool)
      modifies this, selection
      ensures result == Some(Recorded(StatesOf(grid), Visits(old(start), old(end), positions, compensated)))
      ensures positions.Some? ==> start == old(start) && end == old(end)
      ensures positions.None? ==>
        var d := Offset(old(start.z), old(end.z) - 1, compensated);
        start == Shifted(old(start), d) && end == Shifted(old(end), d)
      ensures selection.tiles == old(selection.tiles) && selection.session == old(selection.session)
      ensures selection.subsession == None && selection.cursor == 0 && !selection.busy
    {
      ghost var view := StatesOf(grid);
      selection.Start(SUBTHREAD);
      if positions.Some? {
        SelectList(grid, view);
      } else {
        SelectRange(grid, view, compensated);
      }
      result := selection.subsession;
      selection.Finish(SUBTHREAD);
      assert StatesOf(grid) == view;
    }

    /** Entry's loop over a list of positions, in list order. */
    method SelectList(grid: map<Position, Tile>, ghost view: map<Position, TileState>)
      requires positions.Some? && Shows(grid, view)
      requires selection.subsession == Some([])
      modifies selection
      ensures selection.subsession == Some(Recorded(view, positions.value))
      ensures selection.tiles == old(selection.tiles) && selection.session == old(selection.session)
      ensures selection.cursor == old(selection.cursor) && selection.busy == old(selection.busy)
    {
      var ps := positions.value;
      for i := 0 to |ps|
        invariant selection.tiles == old(selection.tiles) && selection.session == old(selection.session)
        invariant selection.cursor == old(selection.cursor) && selection.busy == old(selection.busy)
        invariant selection.subsession == Some(Recorded(view, ps[..i]))
      {
        var p := ps[i];
        assert ps[..i + 1] == ps[..i] + [p];
        RecordedSnoc(view, ps[..i], p);
        if p in grid {
          selection.AddTile(grid[p]);
        } else {
          assert Recorded(view, ps[..i]) + [] == Recorded(view, ps[..i]);
        }
      }
      assert ps[..|ps|] == ps;
    }

    /** Entry's loop over a range: floors from start.z to end.z, z falling, each
        swept by SelectFloor, the corners moved after each floor at or above
        the ground floor when compensation is on. */
    method SelectRange(grid: map<Position, Tile>, ghost view: map<Position, TileState>, compensated: bool)
      requires Shows(grid, view)
      requires selection.subsession == Some([])
      modifies this, selection
      ensures selection.subsession == Some(Recorded(view, Range(old(start.z), old(end.z), old(start), old(end), compensated)))
      ensures var d := Offset(old(start.z), old(end.z) - 1, compensated);
        start == Shifted(old(start), d) && end == Shifted(old(end), d)
      ensures selection.tiles == old(selection.tiles) && selection.session == old(selection.session)
      ensures selection.cursor == old(selection.cursor) && selection.busy == old(selection.busy)
      ensures result == old(result)
    {
      ghost var s0, e0, zStart, zEnd := start, end, start.z, end.z;
      var z := start.z;
      while z >= end.z
        invariant end.z == zEnd && start.z == zStart && z <= zStart
        invariant z >= zEnd - 1 || z == zStart
        invariant start == Shifted(s0, Offset(zStart, z, compensated))
        invariant end == Shifted(e0, Offset(zStart, z, compensated))
        invariant selection.tiles == old(selection.tiles) && selection.session == old(selection.session)
        invariant selection.cursor == old(selection.cursor) && selection.busy == old(selection.busy)
        invariant selection.subsession == Some(Recorded(view, Range(zStart, z + 1, s0, e0, compensated)))
        invariant result == old(result) && Shows(grid, view)
        decreases z - zEnd
      {
        SweepFloor(grid, view, z, compensated, zStart, s0, e0);
        z := z - 1;
      }
      OffsetPast(zStart, z, zEnd - 1, compensated);
      assert Range(zStart, z + 1, s0, e0, compensated) == Range(zStart, zEnd, s0, e0, compensated);
    }

    /** One pass of Entry's range loop, started at floor zStart with corners
        s0 and e0: sweep floor z with the corners as moved so far, then move
        them one square diagonally when compensation is on and z is at or
        above the ground floor. */
    method SweepFloor(grid: map<Position, Tile>, ghost view: map<Position, TileState>, z: int, compensated: bool,
                      ghost zStart: int, ghost s0: Position, ghost e0: Position)
      requires Shows(grid, view) && z <= zStart
      requires start == Shifted(s0, Offset(zStart, z, compensated)) && end == Shifted(e0, Offset(zStart, z, compensated))
      requires selection.subsession == Some(Recorded(view, Range(zStart, z + 1, s0, e0, compensated)))
      modifies this, selection
      ensures start == Shifted(s0, Offset(zStart, z - 1, compensated)) && end == Shifted(e0, Offset(zStart, z - 1, compensated))
      ensures selection.subsession == Some(Recorded(view, Range(zStart, z, s0, e0, compensated)))
      ensures selection.tiles == old(selection.tiles) && selection.session == old(selection.session)
      ensures selection.cursor == old(selection.cursor) && selection.busy == old(selection.busy)
      ensures result == old(result)
    {
      ghost var d := Offset(zStart, z, compensated);
      ghost var swept, layer := Range(zStart, z + 1, s0, e0, compensated), Block(s0.x + d, e0.x + d + 1, s0.y + d, e0.y + d + 1, z);
      RangeSnoc(zStart, z, s0, e0, compensated);
      RecordedAppend(view, swept, layer);
      OffsetStep(zStart, z, compensated);
      assert Block(start.x, end.x + 1, start.y, end.y + 1, z) == layer;
      SelectFloor(grid, view, z);
      if z <= GROUND_LAYER && compensated {
        start := start.(x := start.x + 1, y := start.y + 1);
        end := end.(x := end.x + 1, y := end.y + 1);
      }
    }

    /** The two inner loops of Entry for floor z: x from start.x to end.x,
        and for each x, y from start.y to end.y. */
    method SelectFloor(grid: map<Position, Tile>, ghost view: map<Position, TileState>, z: int)
      requires Shows(grid, view)
      requires selection.subsession.Some?
      modifies selection
      ensures selection.subsession ==
        Some(old(selection.subsession.value) + Recorded(view, Block(start.x, end.x + 1, start.y, end.y + 1, z)))
      ensures selection.tiles == old(selection.tiles) && selection.session == old(selection.session)
      ensures selection.cursor == old(selection.cursor) && selection.busy == old(selection.busy)
    {
      var x0, x1, y0, y1 := start.x, end.x, start.y, end.y;
      ghost var done := selection.subsession.value;
      assert done + Recorded(view, []) == done;
      var x := x0;
      while x <= x1
        invariant x0 <= x && (x <= x1 + 1 || x == x0)
        invariant selection.tiles == old(selection.tiles) && selection.session == old(selection.session)
        invariant selection.cursor == old(selection.cursor) && selection.busy == old(selection.busy)
        invariant selection.subsession == Some(done + Recorded(view, Block(x0, x, y0, y1 + 1, z)))
        decreases x1 - x
      {
        RecordedBlockStep(view, done, x0, x, y0, y1 + 1, z);
        SelectColumn(grid, view, x, z);
        x := x + 1;
      }
      assert Block(x0, x, y0, y1 + 1, z) == Block(x0, x1 + 1, y0, y1 + 1, z);
    }

    /** The innermost loop of Entry: y from start.y to end.y at (x, z). */
    method SelectColumn(grid: map<Position, Tile>, ghost view: map<Position, TileState>, x: int, z: int)
      requires Shows(grid, view)
      requires selection.subsession.Some?
      modifies selection
      ensures selection.subsession ==
        Some(old(selection.subsession.value) + Recorded(view, Column(x, start.y, end.y + 1, z)))
      ensures selection.tiles == old(selection.tiles) && selection.session == old(selection.session)
      ensures selection.cursor == old(selection.cursor) && selection.busy == old(selection.busy)
    {
      var y0, y1 := start.y, end.y;
      ghost var done := selection.subsession.value;
      assert done + Recorded(view, []) == done;
      var y := y0;
      while y <= y1
        invariant y0 <= y && (y <= y1 + 1 || y == y0)
        invariant selection.tiles == old(selection.tiles) && selection.session == old(selection.session)
        invariant selection.cursor == old(selection.cursor) && selection.busy == old(selection.busy)
        invariant selection.subsession == Some(done + Recorded(view, Column(x, y0, y, z)))
        decreases y1 - y
      {
        var p := Position(x, y, z);
        RecordedColumnStep(view, done, x, y0, y, z);
        if p in grid {
          assert grid[p].state == view[p];
          selection.AddTile(grid[p]);
        } else {
          assert done + Recorded(view, Column(x, y0, y, z)) + [] == done + Recorded(view, Column(x, y0, y, z));
        }
        y := y + 1;
      }
      assert Column(x, y0, y, z) == Column(x, y0, y1 + 1, z);
    }
  }
}
