/** The material rule update_cell and the Spawner of src/cells.rs. */
module Cells {
  import opened Game

  // ----- Spawner -----

  /** The coordinates the spawner stamps with Sand, in order. */
  const SPAWN_POINTS: seq<(int, int)> := [(0, 0), (2, 0), (4, 0), (6, 0), (8, 0)]

  /** Every point lies on the grid. */
  predicate OnGrid(points: seq<(int, int)>)
  {
    forall i :: 0 <= i < |points| ==> InGrid(points[i].0, points[i].1)
  }

  /** The blocks after writing Sand, not dirty, at each point in turn. */
  function StoreSand(g: Grid, points: seq<(int, int)>): (r: Grid)
    requires ValidGrid(g) && OnGrid(points)
    ensures ValidGrid(r)
    decreases |points|
  {
    if points == [] then g
    else
      var rest := StoreSand(g, points[..|points| - 1]);
      var p := points[|points| - 1];
      InGridAddressable(rest, p.0, p.1);
      WriteCellEffect(rest, Sand, p.0, p.1, false);
      Stored(rest, Sand, p.0, p.1, false)
  }

  /** Writing Sand at a list of points changes no dirty flag. */
  lemma {:induction false} StoreSandFlags(g: Grid, points: seq<(int, int)>)
    requires ValidGrid(g) && OnGrid(points)
    ensures forall k :: k in g ==> StoreSand(g, points)[k].dirty == g[k].dirty
    decreases |points|
  {
    if points != [] {
      var init := points[..|points| - 1];
      var p := points[|points| - 1];
      StoreSandFlags(g, init);
      InGridAddressable(StoreSand(g, init), p.0, p.1);
      StoredFlags(StoreSand(g, init), Sand, p.0, p.1, false);
    }
  }

  /** Writing Sand at a list of points makes the cell (x, y) Sand when it is
      one of the points and leaves it as it was otherwise. */
  lemma {:induction false} StoreSandCellAt(g: Grid, points: seq<(int, int)>, x: int, y: int)
    requires ValidGrid(g) && OnGrid(points) && InGrid(x, y)
    ensures Addressable(g, x, y) && Addressable(StoreSand(g, points), x, y)
    ensures CellAt(StoreSand(g, points), x, y) == if (x, y) in points then Sand else CellAt(g, x, y)
    decreases |points|
  {
    InGridAddressable(g, x, y);
    InGridAddressable(StoreSand(g, points), x, y);
    if points != [] {
      var init := points[..|points| - 1];
      var rest := StoreSand(g, init);
      var p := points[|points| - 1];
      StoreSandCellAt(g, init, x, y);
      InGridAddressable(rest, p.0, p.1);
      StoredCellAt(rest, Sand, p.0, p.1, false, x, y);
      assert points == init + [p];
    }
  }

  /** Writing Sand at a list of points makes exactly those cells Sand and
      changes no other cell and no dirty flag. */
  lemma StoreSandEffect(g: Grid, points: seq<(int, int)>)
    requires ValidGrid(g) && OnGrid(points)
    ensures forall k :: k in g ==> StoreSand(g, points)[k].dirty == g[k].dirty
    ensures forall x, y :: InGrid(x, y) && Addressable(g, x, y) && Addressable(StoreSand(g, points), x, y) ==>
      CellAt(StoreSand(g, points), x, y) == if (x, y) in points then Sand else CellAt(g, x, y)
  {
    StoreSandFlags(g, points);
    forall x, y | InGrid(x, y) && Addressable(g, x, y) && Addressable(StoreSand(g, points), x, y)
      ensures CellAt(StoreSand(g, points), x, y) == if (x, y) in points then Sand else CellAt(g, x, y)
    {
      StoreSandCellAt(g, points, x, y);
    }
  }

  /** Writing the points up to and including number i is writing those
      before it and then point number i. */
  lemma StoreSandStep(g: Grid, points: seq<(int, int)>, i: int)
    requires ValidGrid(g) && OnGrid(points) && 0 <= i < |points|
    ensures Addressable(StoreSand(g, points[..i]), points[i].0, points[i].1)
    ensures StoreSand(g, points[..i + 1]) == Stored(StoreSand(g, points[..i]), Sand, points[i].0, points[i].1, false)
  {
    assert points[..i + 1][..i] == points[..i];
    InGridAddressable(StoreSand(g, points[..i]), points[i].0, points[i].1);
  }

  /** The blocks after Spawner.spawn. */
  function Spawned(g: Grid): Grid
    requires ValidGrid(g)
  {
    StoreSand(g, SPAWN_POINTS)
  }

  /** After spawning, the five spawn points hold Sand; every other cell and
      every dirty flag is as before. */
  lemma SpawnEffect(g: Grid)
    requires ValidGrid(g)
    ensures ValidGrid(Spawned(g))
    ensures forall k :: k in g ==> Spawned(g)[k].dirty == g[k].dirty
    ensures forall x, y :: InGrid(x, y) && Addressable(g, x, y) && Addressable(Spawned(g), x, y) ==>
      CellAt(Spawned(g), x, y) == if (x, y) in SPAWN_POINTS then Sand else CellAt(g, x, y)
  {
    StoreSandEffect(g, SPAWN_POINTS);
  }

  /** Spawning twice leaves the same grid as spawning once. */
  lemma SpawnIdempotent(g: Grid)
    requires ValidGrid(g)
    ensures Spawned(Spawned(g)) == Spawned(g)
  {
    SpawnEffect(g);
    SpawnEffect(Spawned(g));
    GridExtensionality(Spawned(Spawned(g)), Spawned(g));
  }

  /** Stamps Sand at the fixed spawn points of the write buffer. */
  datatype Spawner = Spawner
  {
    method Spawn(write: GameState)
      requires write.Valid()
      modifies write
      ensures write.Valid()
      ensures write.blocks == Spawned(old(write.blocks))
    {
      var points := SPAWN_POINTS;
      var i := 0;
      while i < |points|
        invariant 0 <= i <= |points|
        invariant write.Valid()
        invariant write.blocks == StoreSand(old(write.blocks), points[..i])
      {
        var (x, y) := points[i];
        InGridAddressable(write.blocks, x, y);
        write.WriteCell(Sand, x, y, false);
        StoreSandStep(old(write.blocks), points, i);
        i := i + 1;
      }
      assert points[..i] == points;
    }
  }

  // ----- The Sand rule -----

  /** The write_cell call the Sand rule makes: Sand is written at (x, y), and
      the owning block is marked dirty when the flag is set. */
  datatype Write = Write(x: int, y: int, dirty: bool)

  /** The last row of the grid, read_state.size - 1. */
  const HEIGHT: int := GRID_SIDE - 1

  /** A candidate target of the Sand rule: on the grid and Air in both the
      read and the write buffer. */
  predicate Vacant(read: Grid, write: Grid, x: int, y: int)
    requires ValidGrid(read) && ValidGrid(write)
  {
    && 0 <= x <= HEIGHT && 0 <= y <= HEIGHT
    && (InGridAddressable(read, x, y); CellAt(read, x, y) == Air)
    && (InGridAddressable(write, x, y); CellAt(write, x, y) == Air)
  }

  /** The column the diagonal candidate uses: x + 1 when the coin shows
      true, x - 1 otherwise. */
  function Side(x: int, coin: bool): int
  {
    if coin then x + 1 else x - 1
  }

  /** The single write the Sand rule makes for the Sand at (x, y) with the
      given coin: straight down if that is vacant, else the diagonal the coin
      picks if that is vacant (both dirty), else in place, not dirty. */
  function SandWrite(read: Grid, write: Grid, x: int, y: int, coin: bool): (w: Write)
    requires ValidGrid(read) && ValidGrid(write) && InGrid(x, y)
    ensures InGrid(w.x, w.y)
    ensures w.y == y || w.y == y + 1
    ensures w.dirty <==> w.y == y + 1
    ensures w.dirty ==> (w.x == x || w.x == Side(x, coin)) && Vacant(read, write, w.x, w.y)
    ensures !w.dirty ==> w.x == x
    ensures w.dirty <==> Vacant(read, write, x, y + 1) || Vacant(read, write, Side(x, coin), y + 1)
    ensures Vacant(read, write, x, y + 1) ==> w == Write(x, y + 1, true)
  {
    var down := y + 1;
    var sideways := Side(x, coin);
    var height := HEIGHT;
    if down <= height && (InGridAddressable(read, x, down); CellAt(read, x, down) == Air)
                      && (InGridAddressable(write, x, down); CellAt(write, x, down) == Air) then
      Write(x, down, true)
    else if down <= height && sideways >= 0 && sideways <= height
                      && (InGridAddressable(read, sideways, down); CellAt(read, sideways, down) == Air)
                      && (InGridAddressable(write, sideways, down); CellAt(write, sideways, down) == Air) then
      Write(sideways, down, true)
    else
      Write(x, y, false)
  }

  /** The write buffer after the Sand rule's write. */
  function AfterSand(read: Grid, write: Grid, x: int, y: int, coin: bool): Grid
    requires ValidGrid(read) && ValidGrid(write) && InGrid(x, y)
  {
    var w := SandWrite(read, write, x, y, coin);
    InGridAddressable(write, w.x, w.y);
    Stored(write, Sand, w.x, w.y, w.dirty)
  }

  /** The Sand rule changes exactly one cell of the write buffer, to Sand, in
      row y or y + 1; when it moves the grain, that cell was Air in the write
      buffer, so no earlier write is overwritten, and only the target's block
      becomes dirty; when it does not, no dirty flag changes. */
  lemma SandRuleEffect(read: Grid, write: Grid, x: int, y: int, coin: bool)
    requires ValidGrid(read) && ValidGrid(write) && InGrid(x, y)
    ensures var w := SandWrite(read, write, x, y, coin);
      && ValidGrid(AfterSand(read, write, x, y, coin))
      && (w.dirty ==> Addressable(write, w.x, w.y) && CellAt(write, w.x, w.y) == Air)
      && (forall x', y' :: InGrid(x', y') && Addressable(write, x', y') && Addressable(AfterSand(read, write, x, y, coin), x', y') ==>
            CellAt(AfterSand(read, write, x, y, coin), x', y') == if (x', y') == (w.x, w.y) then Sand else CellAt(write, x', y'))
      && (forall k :: k in write ==>
            AfterSand(read, write, x, y, coin)[k].dirty == (write[k].dirty || (w.dirty && k == BlockOf(w.x, w.y))))
  {
    var w := SandWrite(read, write, x, y, coin);
    InGridAddressable(write, w.x, w.y);
    WriteCellEffect(write, Sand, w.x, w.y, w.dirty);
  }

  /** Applies the material rule to the cell c read at (x, y): Sand makes the
      one write SandWrite describes, with the coin standing for the random
      side choice; Air leaves the write buffer alone. */
  method UpdateCell(c: Cell, x: int, y: int, read: GameState, write: GameState, coin: bool)
    requires read.Valid() && write.Valid() && read != write
    requires c == Sand ==> InGrid(x, y)
    modifies write
    ensures write.Valid()
    ensures c == Air ==> write.blocks == old(write.blocks)
    ensures c == Sand ==> write.blocks == AfterSand(read.blocks, old(write.blocks), x, y, coin)
  {
    match c {
      case Sand =>
        var down := y + 1;
        var sideways := x - 1;
        if coin {
          sideways := x + 1;
        }
        var height := read.size - 1;
        ghost var w := SandWrite(read.blocks, write.blocks, x, y, coin);
        if down <= height && (InGridAddressable(read.blocks, x, down); InGridAddressable(write.blocks, x, down);
                              read.IsEmpty(x, down) && write.IsEmpty(x, down)) {
          assert w == Write(x, down, true);
          write.WriteCell(Sand, x, down, true);
        } else if down <= height && sideways >= 0 && sideways <= height
                  && (InGridAddressable(read.blocks, sideways, down); InGridAddressable(write.blocks, sideways, down);
                      read.IsEmpty(sideways, down) && write.IsEmpty(sideways, down)) {
          assert w == Write(sideways, down, true);
          write.WriteCell(Sand, sideways, down, true);
        } else {
          assert w == Write(x, y, false);
          InGridAddressable(write.blocks, x, y);
          write.WriteCell(Sand, x, y, false);
        }
      case Air =>
    }
  }
}
