/** Chunked grid storage of the falling-sand engine: cells, 8x8 blocks with a
    dirty flag, and a game state that maps block coordinates to blocks. */
module Game {

  /** The material held by one grid position. */
  datatype Cell = Air | Sand

  /** Side length of a block, in cells. */
  const REGION_SIZE: int := 8
  /** Number of cells in one block (REGION_SIZE * REGION_SIZE). */
  const BLOCK_CELLS: int := 64
  /** The game state holds 2 x 2 blocks, so the grid is 16 cells on a side. */
  const GRID_SIDE: int := 16
  /** The block coordinates a game state holds, in the order the engine visits them. */
  const BLOCK_KEYS: seq<(int, int)> := [(0, 0), (1, 0), (0, 1), (1, 1)]

  /** A dense 8x8 array of cells, stored row after row, and the dirty flag. */
  datatype CellBlock = CellBlock(cells: seq<Cell>, dirty: bool)
  {
    /** A fresh block: all Air and marked dirty. */
    static function New(): (b: CellBlock)
      ensures |b.cells| == BLOCK_CELLS && b.dirty
      ensures forall i :: 0 <= i < |b.cells| ==> b.cells[i] == Air
    {
      CellBlock(seq(BLOCK_CELLS, _ => Air), true)
    }

    /** The traversal used for rule evaluation and drawing: the local x
        coordinate i is the outer loop and the local y coordinate j the inner
        one, so tuple number i * 8 + j is (cells[i + j * 8], i, j). */
    method Cells() returns (v: seq<(Cell, int, int)>)
      requires |cells| == BLOCK_CELLS
      ensures |v| == BLOCK_CELLS
      ensures forall t :: 0 <= t < |v| ==>
        v[t] == (cells[t / REGION_SIZE + (t % REGION_SIZE) * REGION_SIZE], t / REGION_SIZE, t % REGION_SIZE)
    {
      v := [];
      var i := 0;
      while i < REGION_SIZE
        invariant 0 <= i <= REGION_SIZE
        invariant |v| == i * REGION_SIZE
        invariant forall t :: 0 <= t < |v| ==>
          v[t] == (cells[t / REGION_SIZE + (t % REGION_SIZE) * REGION_SIZE], t / REGION_SIZE, t % REGION_SIZE)
      {
        var j := 0;
        while j < REGION_SIZE
          invariant 0 <= j <= REGION_SIZE
          invariant |v| == i * REGION_SIZE + j
          invariant forall t :: 0 <= t < |v| ==>
            v[t] == (cells[t / REGION_SIZE + (t % REGION_SIZE) * REGION_SIZE], t / REGION_SIZE, t % REGION_SIZE)
        {
          assert (i * REGION_SIZE + j) / REGION_SIZE == i && (i * REGION_SIZE + j) % REGION_SIZE == j;
          v := v + [(cells[i + j * REGION_SIZE], i, j)];
          j := j + 1;
        }
        i := i + 1;
      }
    }
  }

  /** The blocks of a game state, keyed by block coordinates. */
  type Grid = map<(int, int), CellBlock>

  /** The block that holds the global coordinate (x, y). */
  function BlockOf(x: int, y: int): (int, int)
  {
    (x / REGION_SIZE, y / REGION_SIZE)
  }

  /** The position of (x, y) inside its block's cell array. */
  function LocalIndex(x: int, y: int): int
  {
    x % REGION_SIZE + (y % REGION_SIZE) * REGION_SIZE
  }

  /** The coordinates covered by the blocks of a game state. */
  predicate InGrid(x: int, y: int)
  {
    0 <= x < GRID_SIDE && 0 <= y < GRID_SIDE
  }

  /** The shape every game state keeps: exactly the four block keys, each
      block holding 64 cells. */
  predicate ValidGrid(g: Grid)
  {
    && g.Keys == {(0, 0), (1, 0), (0, 1), (1, 1)}
    && forall k :: k in g ==> |g[k].cells| == BLOCK_CELLS
  }

  /** (x, y) resolves to an existing block and a cell inside it. */
  predicate Addressable(g: Grid, x: int, y: int)
  {
    && x >= 0 && y >= 0
    && BlockOf(x, y) in g
    && LocalIndex(x, y) < |g[BlockOf(x, y)].cells|
  }

  /** The cell stored for the global coordinate (x, y). */
  function CellAt(g: Grid, x: int, y: int): Cell
    requires Addressable(g, x, y)
  {
    g[BlockOf(x, y)].cells[LocalIndex(x, y)]
  }

  /** The blocks after write_cell(c, x, y, d): the cell is replaced and the
      block's dirty flag is set when d holds (it is never cleared). */
  function Stored(g: Grid, c: Cell, x: int, y: int, d: bool): Grid
    requires Addressable(g, x, y)
  {
    var k := BlockOf(x, y);
    g[k := CellBlock(g[k].cells[LocalIndex(x, y) := c], g[k].dirty || d)]
  }

  /** Every coordinate of the grid resolves to an existing cell. */
  lemma InGridAddressable(g: Grid, x: int, y: int)
    requires ValidGrid(g) && InGrid(x, y)
    ensures Addressable(g, x, y)
    ensures BlockOf(x, y) in BLOCK_KEYS
  {
    assert 0 <= x / REGION_SIZE <= 1 && 0 <= y / REGION_SIZE <= 1;
  }

  /** Coordinate translation loses nothing: a block and a local index name
      exactly one global coordinate, and the local index lies in the block. */
  lemma TranslationInjective(x: int, y: int, x': int, y': int)
    requires x >= 0 && y >= 0 && x' >= 0 && y' >= 0
    ensures 0 <= LocalIndex(x, y) < BLOCK_CELLS
    ensures BlockOf(x, y) == BlockOf(x', y') && LocalIndex(x, y) == LocalIndex(x', y') ==> x == x' && y == y'
  {
    if BlockOf(x, y) == BlockOf(x', y') && LocalIndex(x, y) == LocalIndex(x', y') {
      var i, i' := LocalIndex(x, y), LocalIndex(x', y');
      assert x % REGION_SIZE == i % REGION_SIZE == x' % REGION_SIZE;
      assert y % REGION_SIZE == i / REGION_SIZE == y' % REGION_SIZE;
    }
  }

  /** write_cell changes the one cell it names and nothing else. */
  lemma StoredCellAt(g: Grid, c: Cell, x: int, y: int, d: bool, x': int, y': int)
    requires Addressable(g, x, y) && Addressable(g, x', y')
    ensures Addressable(Stored(g, c, x, y, d), x', y')
    ensures CellAt(Stored(g, c, x, y, d), x', y') == if x' == x && y' == y then c else CellAt(g, x', y')
  {
    TranslationInjective(x, y, x', y');
  }

  /** write_cell keeps the block keys and the shape of every block; the
      dirty flag of the owning block becomes set when d holds and keeps its
      value otherwise, and every other block's flag is unchanged. */
  lemma StoredFlags(g: Grid, c: Cell, x: int, y: int, d: bool)
    requires Addressable(g, x, y)
    ensures Stored(g, c, x, y, d).Keys == g.Keys
    ensures forall k :: k in g ==> |Stored(g, c, x, y, d)[k].cells| == |g[k].cells|
    ensures forall k :: k in g ==>
      Stored(g, c, x, y, d)[k].dirty == (g[k].dirty || (d && k == BlockOf(x, y)))
    ensures ValidGrid(g) ==> ValidGrid(Stored(g, c, x, y, d))
  {
  }

  /** write_cell changes the one cell it names and nothing else; the dirty
      flag of the owning block becomes set when d holds and keeps its value
      otherwise, and every other block's flag is unchanged. */
  lemma WriteCellEffect(g: Grid, c: Cell, x: int, y: int, d: bool)
    requires Addressable(g, x, y)
    ensures Stored(g, c, x, y, d).Keys == g.Keys
    ensures Addressable(Stored(g, c, x, y, d), x, y) && CellAt(Stored(g, c, x, y, d), x, y) == c
    ensures forall x', y' :: Addressable(g, x', y') ==>
      Addressable(Stored(g, c, x, y, d), x', y') &&
      CellAt(Stored(g, c, x, y, d), x', y') == if x' == x && y' == y then c else CellAt(g, x', y')
    ensures forall k :: k in g ==>
      Stored(g, c, x, y, d)[k].dirty == (g[k].dirty || (d && k == BlockOf(x, y)))
    ensures ValidGrid(g) ==> ValidGrid(Stored(g, c, x, y, d))
  {
    StoredFlags(g, c, x, y, d);
    forall x', y' | Addressable(g, x', y')
      ensures Addressable(Stored(g, c, x, y, d), x', y')
      ensures CellAt(Stored(g, c, x, y, d), x', y') == if x' == x && y' == y then c else CellAt(g, x', y')
    {
      StoredCellAt(g, c, x, y, d, x', y');
    }
  }

  /** Two well-formed grids with the same dirty flags and the same cell at
      every coordinate are the same grid. */
  lemma GridExtensionality(g: Grid, h: Grid)
    requires ValidGrid(g) && ValidGrid(h)
    requires forall k :: k in g ==> g[k].dirty == h[k].dirty
    requires forall x, y :: InGrid(x, y) && Addressable(g, x, y) && Addressable(h, x, y) ==> CellAt(g, x, y) == CellAt(h, x, y)
    ensures g == h
  {
    forall k | k in g ensures g[k] == h[k] {
      forall i | 0 <= i < BLOCK_CELLS ensures g[k].cells[i] == h[k].cells[i] {
        var x, y := k.0 * REGION_SIZE + i % REGION_SIZE, k.1 * REGION_SIZE + i / REGION_SIZE;
        assert BlockOf(x, y) == k && LocalIndex(x, y) == i;
        assert InGrid(x, y);
        InGridAddressable(g, x, y);
        InGridAddressable(h, x, y);
      }
    }
  }

  /** The engine's grid, whose blocks the operations below update in place. */
  class GameState {
    var blocks: Grid
    /** The grid height in cells; rules treat size - 1 as the last row. */
    const size: int

    ghost predicate Valid()
      reads this
    {
      ValidGrid(blocks) && size == GRID_SIDE
    }

    /** Builds the four fresh blocks (0,0), (1,0), (0,1) and (1,1). */
    constructor ()
      ensures Valid()
      ensures forall k :: k in blocks ==> blocks[k] == CellBlock.New()
    {
      blocks := map[(0, 0) := CellBlock.New(), (1, 0) := CellBlock.New(),
                    (0, 1) := CellBlock.New(), (1, 1) := CellBlock.New()];
      size := GRID_SIDE;
    }

    /** Replaces the block with block coordinates (x, y) by a fresh all-Air,
        dirty block. */
    method ResetBlock(x: int, y: int)
      modifies this
      ensures blocks == old(blocks)[(x, y) := CellBlock.New()]
      ensures old(Valid()) && (x, y) in old(blocks) ==> Valid()
    {
      blocks := blocks[(x, y) := CellBlock.New()];
    }

    /** Stores cell c at the global coordinate (x, y); marks the owning
        block dirty when d holds. */
    method WriteCell(c: Cell, x: int, y: int, d: bool)
      requires Addressable(blocks, x, y)
      modifies this
      ensures blocks == Stored(old(blocks), c, x, y, d)
      ensures old(Valid()) ==> Valid()
    {
      var key := (x / REGION_SIZE, y / REGION_SIZE);
      var ix, iy := x % REGION_SIZE, y % REGION_SIZE;
      var b := blocks[key];
      if d {
        b := b.(dirty := d);
      }
      b := b.(cells := b.cells[ix + iy * REGION_SIZE := c]);
      blocks := blocks[key := b];
      WriteCellEffect(old(blocks), c, x, y, d);
    }

    /** Whether the cell at the global coordinate (x, y) is Air. */
    function IsEmpty(x: int, y: int): (r: bool)
      requires Addressable(blocks, x, y)
      reads this
      ensures r <==> CellAt(blocks, x, y) == Air
    {
      var key := (x / REGION_SIZE, y / REGION_SIZE);
      var ix, iy := x % REGION_SIZE, y % REGION_SIZE;
      blocks[key].cells[ix + iy * REGION_SIZE] == Air
    }
  }
}
