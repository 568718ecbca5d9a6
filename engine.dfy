/** One tick of the engine (function update of src/game.rs): Phase A prepares
    the write buffer from the read buffer, Phase B applies the straight-down
    Sand rule to every cell of every dirty read block. */
module Engine {
  import opened Game

  /** The last row the built-in Sand rule may fall into. */
  const LAST_ROW: int := 15

  /** The Sand at (x, y) is evaluated this tick and falls one row: its block
      is dirty and the cell below is Air in the read buffer. */
  predicate Falls(read: Grid, x: int, y: int)
    requires ValidGrid(read) && InGrid(x, y)
  {
    InGridAddressable(read, x, y);
    && read[BlockOf(x, y)].dirty
    && CellAt(read, x, y) == Sand
    && y + 1 <= LAST_ROW
    && (InGridAddressable(read, x, y + 1); CellAt(read, x, y + 1) == Air)
  }

  /** The Sand at (x, y) is evaluated this tick and cannot fall, so it is
      re-written in place. */
  predicate Rests(read: Grid, x: int, y: int)
    requires ValidGrid(read) && InGrid(x, y)
  {
    InGridAddressable(read, x, y);
    && read[BlockOf(x, y)].dirty
    && CellAt(read, x, y) == Sand
    && !Falls(read, x, y)
  }

  /** The cell Phase A leaves at (x, y): Air in a dirty block, the read cell
      in a clean one. */
  function PreparedCell(read: Grid, x: int, y: int): Cell
    requires ValidGrid(read) && InGrid(x, y)
  {
    InGridAddressable(read, x, y);
    if read[BlockOf(x, y)].dirty then Air else CellAt(read, x, y)
  }

  /** The write buffer after Phase A: dirty read blocks become all Air, clean
      ones are copied, and no block is dirty. */
  function Prepared(read: Grid): (w: Grid)
    ensures w.Keys == read.Keys
    ensures forall k :: k in read ==> !w[k].dirty
    ensures forall k :: k in read && read[k].dirty ==>
      |w[k].cells| == BLOCK_CELLS && forall i :: 0 <= i < |w[k].cells| ==> w[k].cells[i] == Air
    ensures forall k :: k in read && !read[k].dirty ==> w[k].cells == read[k].cells
    ensures ValidGrid(read) ==> ValidGrid(w)
  {
    map k | k in read :: CellBlock(if read[k].dirty then CellBlock.New().cells else read[k].cells, false)
  }

  /** Reference definition of the cell at (x, y) after one tick. */
  function TickCell(read: Grid, x: int, y: int): Cell
    requires ValidGrid(read) && InGrid(x, y)
  {
    if y >= 1 && Falls(read, x, y - 1) then Sand
    else if Rests(read, x, y) then Sand
    else PreparedCell(read, x, y)
  }

  /** Reference definition of a block's dirty flag after one tick: some Sand
      fell into it. */
  ghost predicate TickDirty(read: Grid, k: (int, int))
    requires ValidGrid(read)
  {
    exists x, y :: InGrid(x, y) && Falls(read, x, y) && BlockOf(x, y + 1) == k
  }

  // ----- The order in which Phase B visits the cells -----

  /** Position of a block key in BLOCK_KEYS. */
  function KeyIndex(k: (int, int)): int
  {
    k.0 + 2 * k.1
  }

  /** Position of (x, y) in its block's traversal (local x outer, local y inner). */
  function TupleIndex(x: int, y: int): int
  {
    (x % REGION_SIZE) * REGION_SIZE + y % REGION_SIZE
  }

  /** The step of Phase B at which the cell (x, y) is evaluated. */
  function Order(x: int, y: int): int
  {
    KeyIndex(BlockOf(x, y)) * BLOCK_CELLS + TupleIndex(x, y)
  }

  /** The global coordinate visited as tuple t of block BLOCK_KEYS[b]. */
  lemma Locate(b: int, t: int)
    requires 0 <= b < |BLOCK_KEYS| && 0 <= t < BLOCK_CELLS
    ensures var x, y := t / REGION_SIZE + BLOCK_KEYS[b].0 * REGION_SIZE, t % REGION_SIZE + BLOCK_KEYS[b].1 * REGION_SIZE;
      && InGrid(x, y)
      && BlockOf(x, y) == BLOCK_KEYS[b]
      && LocalIndex(x, y) == t / REGION_SIZE + (t % REGION_SIZE) * REGION_SIZE
      && Order(x, y) == b * BLOCK_CELLS + t
  {
  }

  /** Every cell of the grid is visited inside the stretch of steps given to
      its block. */
  lemma OrderFacts(x: int, y: int)
    requires InGrid(x, y)
    ensures 0 <= TupleIndex(x, y) < BLOCK_CELLS
    ensures 0 <= KeyIndex(BlockOf(x, y)) < |BLOCK_KEYS|
    ensures BLOCK_KEYS[KeyIndex(BlockOf(x, y))] == BlockOf(x, y)
    ensures 0 <= Order(x, y) < |BLOCK_KEYS| * BLOCK_CELLS
  {
  }

  /** No two cells of the grid are visited at the same step. */
  lemma OrderInjective(x: int, y: int, x': int, y': int)
    requires InGrid(x, y) && InGrid(x', y')
    ensures Order(x', y') == Order(x, y) ==> x' == x && y' == y
  {
    if Order(x', y') == Order(x, y) {
      OrderFacts(x, y);
      OrderFacts(x', y');
      assert KeyIndex(BlockOf(x, y)) == KeyIndex(BlockOf(x', y'));
      assert x % REGION_SIZE == x' % REGION_SIZE && y % REGION_SIZE == y' % REGION_SIZE;
    }
  }

  /** Step s, which visits (x, y), changes the partial write buffer at most
      at the cell the rule writes. */
  lemma PartialStep(read: Grid, s: int, x: int, y: int, x': int, y': int)
    requires ValidGrid(read) && InGrid(x, y) && InGrid(x', y') && Order(x, y) == s
    ensures Partial(read, s + 1, x', y') ==
      if (Falls(read, x, y) && x' == x && y' == y + 1) || (Rests(read, x, y) && x' == x && y' == y) then Sand
      else Partial(read, s, x', y')
  {
    OrderInjective(x, y, x', y');
    if y' >= 1 { OrderInjective(x, y, x', y' - 1); }
  }

  // ----- The write buffer part way through Phase B -----

  /** The cell at (x, y) once the first s steps of Phase B are done. */
  function Partial(read: Grid, s: int, x: int, y: int): Cell
    requires ValidGrid(read) && InGrid(x, y)
  {
    if y >= 1 && Order(x, y - 1) < s && Falls(read, x, y - 1) then Sand
    else if Order(x, y) < s && Rests(read, x, y) then Sand
    else PreparedCell(read, x, y)
  }

  /** A block's dirty flag once the first s steps of Phase B are done. */
  ghost predicate DirtyUpTo(read: Grid, s: int, k: (int, int))
    requires ValidGrid(read)
  {
    exists x, y :: InGrid(x, y) && Order(x, y) < s && Falls(read, x, y) && BlockOf(x, y + 1) == k
  }

  /** The write buffer agrees with the first s steps of Phase B. */
  ghost predicate Matches(read: Grid, write: Grid, s: int)
  {
    && ValidGrid(read) && ValidGrid(write)
    && (forall x, y :: InGrid(x, y) ==> Addressable(write, x, y) && CellAt(write, x, y) == Partial(read, s, x, y))
    && (forall k :: k in write ==> write[k].dirty == DirtyUpTo(read, s, k))
  }

  /** Before the first step, each cell is what Phase A left there. */
  lemma PreparedCellAt(read: Grid, x: int, y: int)
    requires ValidGrid(read) && InGrid(x, y)
    ensures Addressable(Prepared(read), x, y) && CellAt(Prepared(read), x, y) == Partial(read, 0, x, y)
  {
    InGridAddressable(read, x, y);
    var w, k := Prepared(read), BlockOf(x, y);
    assert w[k] == CellBlock(if read[k].dirty then CellBlock.New().cells else read[k].cells, false);
    InGridAddressable(w, x, y);
    assert CellAt(w, x, y) == PreparedCell(read, x, y);
    OrderFacts(x, y);
    if y >= 1 { OrderFacts(x, y - 1); }
  }

  lemma MatchesStart(read: Grid)
    requires ValidGrid(read)
    ensures ValidGrid(Prepared(read)) && Matches(read, Prepared(read), 0)
  {
    var w := Prepared(read);
    forall x, y | InGrid(x, y)
      ensures Addressable(w, x, y) && CellAt(w, x, y) == Partial(read, 0, x, y)
    {
      PreparedCellAt(read, x, y);
    }
    forall k | k in w ensures w[k].dirty == DirtyUpTo(read, 0, k) {
      if DirtyUpTo(read, 0, k) {
        var x, y :| InGrid(x, y) && Order(x, y) < 0 && Falls(read, x, y) && BlockOf(x, y + 1) == k;
        OrderFacts(x, y);
      }
    }
  }

  /** Step s evaluates a falling Sand at (x, y): Sand is written below it,
      dirty. */
  lemma StepFalls(read: Grid, write: Grid, s: int, x: int, y: int)
    requires Matches(read, write, s) && InGrid(x, y) && Order(x, y) == s
    requires Falls(read, x, y)
    ensures Addressable(write, x, y + 1)
    ensures Matches(read, Stored(write, Sand, x, y + 1, true), s + 1)
  {
    var w := Stored(write, Sand, x, y + 1, true);
    WriteCellEffect(write, Sand, x, y + 1, true);
    OrderFacts(x, y);
    forall x', y' | InGrid(x', y')
      ensures Addressable(w, x', y') && CellAt(w, x', y') == Partial(read, s + 1, x', y')
    {
      InGridAddressable(write, x', y');
      PartialStep(read, s, x, y, x', y');
    }
    forall k | k in w ensures w[k].dirty == DirtyUpTo(read, s + 1, k) {
      DirtyStep(read, s, x, y, k);
    }
  }

  /** Step s evaluates a resting Sand at (x, y): Sand is re-written in place,
      not dirty. */
  lemma StepRests(read: Grid, write: Grid, s: int, x: int, y: int)
    requires Matches(read, write, s) && InGrid(x, y) && Order(x, y) == s
    requires Rests(read, x, y)
    ensures Addressable(write, x, y)
    ensures Matches(read, Stored(write, Sand, x, y, false), s + 1)
  {
    var w := Stored(write, Sand, x, y, false);
    WriteCellEffect(write, Sand, x, y, false);
    OrderFacts(x, y);
    forall x', y' | InGrid(x', y')
      ensures Addressable(w, x', y') && CellAt(w, x', y') == Partial(read, s + 1, x', y')
    {
      InGridAddressable(write, x', y');
      PartialStep(read, s, x, y, x', y');
    }
    forall k | k in w ensures w[k].dirty == DirtyUpTo(read, s + 1, k) {
      DirtyStep(read, s, x, y, k);
    }
  }

  /** Step s evaluates an Air cell or a cell of a clean block: nothing is
      written. */
  lemma StepIdle(read: Grid, write: Grid, s: int, x: int, y: int)
    requires Matches(read, write, s) && InGrid(x, y) && Order(x, y) == s
    requires !Falls(read, x, y) && !Rests(read, x, y)
    ensures Matches(read, write, s + 1)
  {
    OrderFacts(x, y);
    forall x', y' | InGrid(x', y')
      ensures CellAt(write, x', y') == Partial(read, s + 1, x', y')
    {
      PartialStep(read, s, x, y, x', y');
    }
    forall k | k in write ensures write[k].dirty == DirtyUpTo(read, s + 1, k) {
      DirtyStep(read, s, x, y, k);
    }
  }

  /** Step s, which visits (x, y), marks a block dirty exactly when the Sand
      there falls into that block. */
  lemma DirtyStep(read: Grid, s: int, x: int, y: int, k: (int, int))
    requires ValidGrid(read) && InGrid(x, y) && Order(x, y) == s
    ensures DirtyUpTo(read, s + 1, k) == (DirtyUpTo(read, s, k) || (Falls(read, x, y) && BlockOf(x, y + 1) == k))
  {
    if DirtyUpTo(read, s + 1, k) && !(Falls(read, x, y) && BlockOf(x, y + 1) == k) {
      var x', y' :| InGrid(x', y') && Order(x', y') < s + 1 && Falls(read, x', y') && BlockOf(x', y' + 1) == k;
      OrderInjective(x, y, x', y');
      assert Order(x', y') < s;
    }
    if DirtyUpTo(read, s, k) {
      var x', y' :| InGrid(x', y') && Order(x', y') < s && Falls(read, x', y') && BlockOf(x', y' + 1) == k;
      assert Order(x', y') < s + 1;
    }
    if Falls(read, x, y) && BlockOf(x, y + 1) == k {
      assert Order(x, y) < s + 1;
    }
  }

  /** A clean read block is skipped: its 64 steps write nothing. */
  lemma SkipClean(read: Grid, write: Grid, b: int)
    requires 0 <= b < |BLOCK_KEYS| && Matches(read, write, b * BLOCK_CELLS)
    requires !read[BLOCK_KEYS[b]].dirty
    ensures Matches(read, write, (b + 1) * BLOCK_CELLS)
  {
    forall x, y | InGrid(x, y) && b * BLOCK_CELLS <= Order(x, y) < (b + 1) * BLOCK_CELLS
      ensures !Falls(read, x, y) && !Rests(read, x, y)
    {
      OrderFacts(x, y);
      assert KeyIndex(BlockOf(x, y)) == b;
    }
    forall x, y | InGrid(x, y)
      ensures CellAt(write, x, y) == Partial(read, (b + 1) * BLOCK_CELLS, x, y)
    {
      assert Partial(read, (b + 1) * BLOCK_CELLS, x, y) == Partial(read, b * BLOCK_CELLS, x, y);
    }
    forall k | k in write ensures write[k].dirty == DirtyUpTo(read, (b + 1) * BLOCK_CELLS, k) {
      if DirtyUpTo(read, (b + 1) * BLOCK_CELLS, k) {
        var x, y :| InGrid(x, y) && Order(x, y) < (b + 1) * BLOCK_CELLS && Falls(read, x, y) && BlockOf(x, y + 1) == k;
        assert Order(x, y) < b * BLOCK_CELLS;
      }
    }
  }

  /** After the last step the write buffer is the reference tick. */
  lemma MatchesEnd(read: Grid, write: Grid)
    requires Matches(read, write, |BLOCK_KEYS| * BLOCK_CELLS)
    ensures forall x, y :: InGrid(x, y) ==> Addressable(write, x, y) && CellAt(write, x, y) == TickCell(read, x, y)
    ensures forall k :: k in write ==> write[k].dirty == TickDirty(read, k)
  {
    forall x, y | InGrid(x, y)
      ensures CellAt(write, x, y) == TickCell(read, x, y)
    {
      OrderFacts(x, y);
      if y >= 1 { OrderFacts(x, y - 1); }
    }
    forall k | k in write ensures write[k].dirty == TickDirty(read, k) {
      if TickDirty(read, k) {
        var x, y :| InGrid(x, y) && Falls(read, x, y) && BlockOf(x, y + 1) == k;
        OrderFacts(x, y);
        assert Order(x, y) < |BLOCK_KEYS| * BLOCK_CELLS;
      }
    }
  }

  // ----- The tick -----

  /** Phase A: reset every write block whose read block is dirty, copy the
      cells of every other one, then clear every write dirty flag. */
  method PrepareWrite(read: GameState, write: GameState)
    requires read.Valid() && write.Valid() && read != write
    modifies write
    ensures write.Valid()
    ensures write.blocks == Prepared(read.blocks)
  {
    ResetOrCopy(read, write);
    ClearDirty(write);
    ghost var target := Prepared(read.blocks);
    forall k | k in write.blocks ensures write.blocks[k] == target[k] {
      assert k == BLOCK_KEYS[KeyIndex(k)];
    }
  }

  /** The write buffer after the first loop of Phase A: a block whose read
      block is dirty is replaced by a fresh one (all Air, dirty); any other
      takes the read block's cells and keeps its own dirty flag. */
  function ResetCopied(read: Grid, write: Grid): (w: Grid)
    requires ValidGrid(read) && ValidGrid(write)
    ensures ValidGrid(w)
    ensures forall k :: k in w ==> w[k].dirty == (read[k].dirty || write[k].dirty)
    ensures forall k :: k in w && read[k].dirty ==> forall i :: 0 <= i < |w[k].cells| ==> w[k].cells[i] == Air
    ensures forall k :: k in w && !read[k].dirty ==> w[k].cells == read[k].cells
  {
    map k | k in write :: if read[k].dirty then CellBlock.New() else write[k].(cells := read[k].cells)
  }

  /** The first loop of Phase A: every write block whose read block is dirty
      is reset, every other one takes a copy of the read cells. */
  method ResetOrCopy(read: GameState, write: GameState)
    requires read.Valid() && write.Valid() && read != write
    modifies write
    ensures write.Valid()
    ensures write.blocks == ResetCopied(read.blocks, old(write.blocks))
  {
    ghost var start := write.blocks;
    ghost var target := ResetCopied(read.blocks, start);
    var b := 0;
    while b < |BLOCK_KEYS|
      invariant 0 <= b <= |BLOCK_KEYS|
      invariant write.Valid()
      invariant forall i :: 0 <= i < b ==> write.blocks[BLOCK_KEYS[i]] == target[BLOCK_KEYS[i]]
      invariant forall i :: b <= i < |BLOCK_KEYS| ==> write.blocks[BLOCK_KEYS[i]] == start[BLOCK_KEYS[i]]
    {
      var pos := BLOCK_KEYS[b];
      var block := read.blocks[pos];
      if block.dirty {
        write.ResetBlock(pos.0, pos.1);
      } else {
        write.blocks := write.blocks[pos := write.blocks[pos].(cells := block.cells)];
      }
      b := b + 1;
    }
    forall k | k in write.blocks ensures write.blocks[k] == target[k] {
      assert k == BLOCK_KEYS[KeyIndex(k)];
    }
  }

  /** The second loop of Phase A: every write dirty flag is cleared, the
      cells are left alone. */
  method ClearDirty(write: GameState)
    requires write.Valid()
    modifies write
    ensures write.Valid()
    ensures forall k :: k in write.blocks ==> write.blocks[k] == old(write.blocks)[k].(dirty := false)
  {
    var b := 0;
    while b < |BLOCK_KEYS|
      invariant 0 <= b <= |BLOCK_KEYS|
      invariant write.Valid()
      invariant forall i :: 0 <= i < |BLOCK_KEYS| ==> write.blocks[BLOCK_KEYS[i]].cells == old(write.blocks)[BLOCK_KEYS[i]].cells
      invariant forall i :: 0 <= i < |BLOCK_KEYS| ==>
        write.blocks[BLOCK_KEYS[i]].dirty == (i >= b && old(write.blocks)[BLOCK_KEYS[i]].dirty)
    {
      var pos := BLOCK_KEYS[b];
      write.blocks := write.blocks[pos := write.blocks[pos].(dirty := false)];
      b := b + 1;
    }
    forall k | k in write.blocks ensures write.blocks[k] == old(write.blocks)[k].(dirty := false) {
      assert k == BLOCK_KEYS[KeyIndex(k)];
    }
  }

  /** Tuple t = (c, i, j) of block BLOCK_KEYS[b] names the cell of the read
      buffer at world position (i, j) plus the block's offset, visited at step
      b * 64 + t. */
  lemma Visit(read: Grid, b: int, t: int, i: int, j: int, x: int, y: int)
    requires ValidGrid(read) && 0 <= b < |BLOCK_KEYS| && 0 <= t < BLOCK_CELLS
    requires i == t / REGION_SIZE && j == t % REGION_SIZE
    requires x == i + BLOCK_KEYS[b].0 * REGION_SIZE && y == j + BLOCK_KEYS[b].1 * REGION_SIZE
    ensures InGrid(x, y) && Addressable(read, x, y) && BlockOf(x, y) == BLOCK_KEYS[b]
    ensures CellAt(read, x, y) == read[BLOCK_KEYS[b]].cells[i + j * REGION_SIZE]
    ensures Order(x, y) == b * BLOCK_CELLS + t
  {
    Locate(b, t);
    InGridAddressable(read, x, y);
  }

  /** The built-in rule for the cell c read at (x, y) of a dirty block: a
      Sand falls into the cell below when that is Air in the read buffer,
      marking the destination block dirty, and is re-written in place
      otherwise; Air writes nothing. */
  method EvaluateCell(read: GameState, write: GameState, c: Cell, x: int, y: int, ghost s: int)
    requires read.Valid() && write.Valid() && read != write
    requires InGrid(x, y) && Order(x, y) == s && read.blocks[BlockOf(x, y)].dirty
    requires Addressable(read.blocks, x, y) && c == CellAt(read.blocks, x, y)
    requires Matches(read.blocks, write.blocks, s)
    modifies write
    ensures write.Valid()
    ensures Matches(read.blocks, write.blocks, s + 1)
  {
    ghost var before := write.blocks;
    match c {
      case Sand =>
        var down := y + 1;
        if down <= LAST_ROW && (InGridAddressable(read.blocks, x, down); read.IsEmpty(x, down)) {
          StepFalls(read.blocks, before, s, x, y);
          write.WriteCell(Sand, x, down, true);
        } else {
          StepRests(read.blocks, before, s, x, y);
          write.WriteCell(Sand, x, y, false);
        }
      case Air =>
        StepIdle(read.blocks, before, s, x, y);
    }
  }

  /** Phase B for one dirty read block: every cell is evaluated in the
      traversal order; a Sand falls into the cell below when that is Air in
      the read buffer (marking the destination block dirty) and is re-written
      in place otherwise. */
  method EvaluateBlock(read: GameState, write: GameState, b: int)
    requires read.Valid() && write.Valid() && read != write
    requires 0 <= b < |BLOCK_KEYS| && read.blocks[BLOCK_KEYS[b]].dirty
    requires Matches(read.blocks, write.blocks, b * BLOCK_CELLS)
    modifies write
    ensures write.Valid()
    ensures Matches(read.blocks, write.blocks, (b + 1) * BLOCK_CELLS)
  {
    var pos := BLOCK_KEYS[b];
    var offset := (pos.0 * REGION_SIZE, pos.1 * REGION_SIZE);
    var block := read.blocks[pos];
    var tuples := block.Cells();
    var t := 0;
    ghost var s := b * BLOCK_CELLS;
    while t < |tuples|
      invariant 0 <= t <= |tuples| == BLOCK_CELLS
      invariant s == b * BLOCK_CELLS + t
      invariant write.Valid()
      invariant Matches(read.blocks, write.blocks, s)
    {
      var (c, i, j) := tuples[t];
      var x, y := i + offset.0, j + offset.1;
      Visit(read.blocks, b, t, i, j, x, y);
      EvaluateCell(read, write, c, x, y, s);
      t, s := t + 1, s + 1;
    }
  }

  /** Phase B: every dirty read block is evaluated; clean ones are skipped. */
  method EvaluateRules(read: GameState, write: GameState)
    requires read.Valid() && write.Valid() && read != write
    requires write.blocks == Prepared(read.blocks)
    modifies write
    ensures write.Valid()
    ensures forall x, y :: InGrid(x, y) ==> Addressable(write.blocks, x, y) && CellAt(write.blocks, x, y) == TickCell(read.blocks, x, y)
    ensures forall k :: k in write.blocks ==> write.blocks[k].dirty == TickDirty(read.blocks, k)
  {
    MatchesStart(read.blocks);
    var b := 0;
    while b < |BLOCK_KEYS|
      invariant 0 <= b <= |BLOCK_KEYS|
      invariant write.Valid()
      invariant Matches(read.blocks, write.blocks, b * BLOCK_CELLS)
    {
      var pos := BLOCK_KEYS[b];
      var block := read.blocks[pos];
      if block.dirty {
        EvaluateBlock(read, write, b);
      } else {
        SkipClean(read.blocks, write.blocks, b);
      }
      b := b + 1;
    }
    MatchesEnd(read.blocks, write.blocks);
  }

  /** One tick: Phase A, then Phase B. The read buffer is not changed; the
      write buffer ends up as the reference tick of the read buffer. */
  method Update(read: GameState, write: GameState)
    requires read.Valid() && write.Valid() && read != write
    modifies write
    ensures write.Valid()
    ensures forall x, y :: InGrid(x, y) ==> Addressable(write.blocks, x, y) && CellAt(write.blocks, x, y) == TickCell(read.blocks, x, y)
    ensures forall k :: k in write.blocks ==> write.blocks[k].dirty == TickDirty(read.blocks, k)
  {
    PrepareWrite(read, write);
    EvaluateRules(read, write);
  }

  // ----- What one tick does -----

  /** Where the Sand read at (x, y) is after the tick. */
  function Destination(read: Grid, x: int, y: int): (int, int)
    requires ValidGrid(read) && InGrid(x, y)
  {
    if Falls(read, x, y) then (x, y + 1) else (x, y)
  }

  /** Where the Sand found at (x, y) after the tick was read. */
  function Origin(read: Grid, x: int, y: int): (int, int)
    requires ValidGrid(read) && InGrid(x, y)
  {
    if y >= 1 && Falls(read, x, y - 1) then (x, y - 1) else (x, y)
  }

  /** A Sand of a dirty block whose cell below is Air moves there: its own
      cell is Air after the tick, the cell below is Sand, and the block the
      Sand lands in is dirty, also when that block was clean before. */
  lemma FallingSandMoves(read: Grid, x: int, y: int)
    requires ValidGrid(read) && InGrid(x, y) && Falls(read, x, y)
    ensures InGrid(x, y + 1)
    ensures TickCell(read, x, y) == Air && TickCell(read, x, y + 1) == Sand
    ensures TickDirty(read, BlockOf(x, y + 1))
  {
  }

  /** A Sand of a dirty block that cannot fall stays where it is, and it does
      not keep its block dirty by itself: the block is dirty after the tick
      only if some Sand fell into it. */
  lemma RestingSandStays(read: Grid, x: int, y: int)
    requires ValidGrid(read) && InGrid(x, y) && Rests(read, x, y)
    ensures TickCell(read, x, y) == Sand
    ensures TickDirty(read, BlockOf(x, y)) ==>
      exists x', y' :: InGrid(x', y') && Falls(read, x', y') && BlockOf(x', y' + 1) == BlockOf(x, y)
  {
    InGridAddressable(read, x, y);
  }

  /** A cell of a clean block that no Sand falls into keeps its read value. */
  lemma CleanCellKept(read: Grid, x: int, y: int)
    requires ValidGrid(read) && InGrid(x, y)
    requires Addressable(read, x, y) && !read[BlockOf(x, y)].dirty
    requires !(y >= 1 && Falls(read, x, y - 1))
    ensures TickCell(read, x, y) == CellAt(read, x, y)
  {
  }

  /** The Sand read at (x, y) is found after the tick at exactly its
      destination, and that cell traces back to (x, y). */
  lemma SandForward(read: Grid, x: int, y: int)
    requires ValidGrid(read) && InGrid(x, y) && Addressable(read, x, y) && CellAt(read, x, y) == Sand
    ensures var d := Destination(read, x, y);
      InGrid(d.0, d.1) && TickCell(read, d.0, d.1) == Sand && Origin(read, d.0, d.1) == (x, y)
  {
    if Falls(read, x, y) {
      FallingSandMoves(read, x, y);
    } else if y >= 1 {
      InGridAddressable(read, x, y - 1);
    }
  }

  /** The Sand found at (x, y) after the tick was read at its origin, and
      that Sand's destination is (x, y). */
  lemma SandBackward(read: Grid, x: int, y: int)
    requires ValidGrid(read) && InGrid(x, y) && TickCell(read, x, y) == Sand
    ensures var o := Origin(read, x, y);
      InGrid(o.0, o.1) && Addressable(read, o.0, o.1) && CellAt(read, o.0, o.1) == Sand && Destination(read, o.0, o.1) == (x, y)
  {
    InGridAddressable(read, x, y);
    if y >= 1 { InGridAddressable(read, x, y - 1); }
  }

  /** Sand is neither created nor lost by a tick: Destination and Origin are
      inverse maps between the Sand cells of the read buffer and the Sand
      cells after the tick, so every grain occupies exactly one cell, its own
      or the one below. */
  lemma SandConserved(read: Grid)
    requires ValidGrid(read)
    ensures forall x, y :: InGrid(x, y) && Addressable(read, x, y) && CellAt(read, x, y) == Sand ==>
      var d := Destination(read, x, y);
      InGrid(d.0, d.1) && TickCell(read, d.0, d.1) == Sand && Origin(read, d.0, d.1) == (x, y)
    ensures forall x, y :: InGrid(x, y) && TickCell(read, x, y) == Sand ==>
      var o := Origin(read, x, y);
      InGrid(o.0, o.1) && Addressable(read, o.0, o.1) && CellAt(read, o.0, o.1) == Sand && Destination(read, o.0, o.1) == (x, y)
  {
    forall x, y | InGrid(x, y) && Addressable(read, x, y) && CellAt(read, x, y) == Sand
      ensures var d := Destination(read, x, y);
        InGrid(d.0, d.1) && TickCell(read, d.0, d.1) == Sand && Origin(read, d.0, d.1) == (x, y)
    {
      SandForward(read, x, y);
    }
    forall x, y | InGrid(x, y) && TickCell(read, x, y) == Sand
      ensures var o := Origin(read, x, y);
        InGrid(o.0, o.1) && Addressable(read, o.0, o.1) && CellAt(read, o.0, o.1) == Sand && Destination(read, o.0, o.1) == (x, y)
    {
      SandBackward(read, x, y);
    }
  }

  /** A block that Sand only leaves ends the tick clean. If the Sand on the
      bottom row (x, y) of a dirty block falls into the next block, the Sand
      resting on it at (x, y - 1) stays, and no Sand falls into (x, y)'s
      block, then in the following tick that block is copied, not evaluated:
      the grain at (x, y - 1) stays above the now empty (x, y). */
  lemma StrandedSand(read: Grid, next: Grid, x: int, y: int)
    requires ValidGrid(read) && ValidGrid(next) && InGrid(x, y) && y >= 1
    requires y % REGION_SIZE == REGION_SIZE - 1
    requires Falls(read, x, y) && Addressable(read, x, y - 1) && CellAt(read, x, y - 1) == Sand
    requires forall x', y' :: InGrid(x', y') && Falls(read, x', y') ==> BlockOf(x', y' + 1) != BlockOf(x, y)
    requires forall x', y' :: InGrid(x', y') ==> Addressable(next, x', y') && CellAt(next, x', y') == TickCell(read, x', y')
    requires forall k :: k in next ==> next[k].dirty == TickDirty(read, k)
    ensures Addressable(next, x, y) && Addressable(next, x, y - 1)
    ensures CellAt(next, x, y - 1) == Sand && CellAt(next, x, y) == Air && !next[BlockOf(x, y)].dirty
    ensures TickCell(next, x, y - 1) == Sand && TickCell(next, x, y) == Air
  {
    InGridAddressable(read, x, y);
    assert BlockOf(x, y - 1) == BlockOf(x, y);
    assert Rests(read, x, y - 1);
    FallingSandMoves(read, x, y);
    InGridAddressable(next, x, y);
    InGridAddressable(next, x, y - 1);
    assert !TickDirty(read, BlockOf(x, y));
    if y >= 2 { InGridAddressable(next, x, y - 2); }
  }
}
