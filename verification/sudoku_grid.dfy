/** The constraint grid of a proposed solution: 81 cells (0 = unset) and,
    per row, column and 3x3 block, a bit mask of the digits already placed
    there. Its one operation, `Set`, places a digit atomically or changes
    nothing. */
module SudokuGrid {

  /** The digits recorded in a row, column or block mask. The source keeps
      them as bits of an `int` (bit v for digit v); the model keeps the set
      of digits whose bit is set. */
  type Mask = set<int>

  function RowOf(loc: int): int { loc / 9 }

  function ColOf(loc: int): int { loc % 9 }

  function BlockOf(loc: int): int { (loc / 9 / 3) * 3 + loc % 9 / 3 }

  /** The three kinds of unit a cell belongs to. */
  datatype Unit = Row | Column | Block

  function UnitOf(u: Unit, loc: int): int {
    match u
    case Row => RowOf(loc)
    case Column => ColOf(loc)
    case Block => BlockOf(loc)
  }

  /** Two cells constrain each other when they share a row, column or block
      (every cell shares all three with itself). */
  predicate SharesUnit(a: int, b: int) {
    RowOf(a) == RowOf(b) || ColOf(a) == ColOf(b) || BlockOf(a) == BlockOf(b)
  }

  lemma UnitIndexInRange(u: Unit, loc: int)
    requires 0 <= loc < 81
    ensures 0 <= UnitOf(u, loc) < 9
  {
  }

  datatype Grid = Grid(
    cells: seq<int>,
    rowsSet: seq<Mask>,
    colsSet: seq<Mask>,
    subgridSet: seq<Mask>)

  predicate WellFormed(g: Grid) {
    && |g.cells| == 81
    && |g.rowsSet| == 9 && |g.colsSet| == 9 && |g.subgridSet| == 9
    && forall i | 0 <= i < 81 :: 0 <= g.cells[i] <= 9
  }

  function MaskOf(g: Grid, u: Unit, i: int): Mask
    requires WellFormed(g) && 0 <= i < 9
  {
    match u
    case Row => g.rowsSet[i]
    case Column => g.colsSet[i]
    case Block => g.subgridSet[i]
  }

  /** Some cell of unit (u, i) holds digit v. */
  predicate Holds(cells: seq<int>, u: Unit, i: int, v: int) {
    exists j :: 0 <= j < |cells| && UnitOf(u, j) == i && cells[j] == v
  }

  /** The masks record exactly the digits placed: bit v of a unit's mask is
      set if and only if some cell of that unit holds v. */
  predicate Consistent(g: Grid) {
    && WellFormed(g)
    && forall u: Unit, i, v | 0 <= i < 9 && 1 <= v <= 9 :: v in MaskOf(g, u, i) <==> Holds(g.cells, u, i, v)
  }

  /** No digit appears twice in any row, column or block. */
  predicate NoConflict(cells: seq<int>) {
    forall a, b | 0 <= a < |cells| && 0 <= b < |cells| && a != b && SharesUnit(a, b) && cells[a] != 0 ::
      cells[a] != cells[b]
  }

  /** Digit v may go into cell loc: the cell is unset and no cell sharing a
      unit with it holds v. */
  predicate Fits(cells: seq<int>, loc: int, v: int)
    requires 0 <= loc < |cells|
  {
    cells[loc] == 0 && forall j | 0 <= j < |cells| && SharesUnit(j, loc) :: cells[j] != v
  }

  function Zeros(n: nat): (z: seq<int>)
    ensures |z| == n && forall i | 0 <= i < n :: z[i] == 0
  {
    seq(n, _ => 0)
  }

  /** The grid a scan starts from: every cell unset, every mask empty. */
  function Empty(): (g: Grid)
    ensures Consistent(g) && NoConflict(g.cells)
    ensures g.cells == Zeros(81)
  {
    Grid(Zeros(81), seq(9, _ => {}), seq(9, _ => {}), seq(9, _ => {}))
  }

  /** The successful half of `set`: write the cell and add num to the
      cell's row, column and block masks. Every other mask stays as it was. */
  function Place(g: Grid, loc: int, num: int): (g': Grid)
    requires WellFormed(g) && 0 <= loc < 81 && 1 <= num <= 9
    ensures WellFormed(g')
    ensures g'.cells == g.cells[loc := num]
    ensures forall u: Unit, i | 0 <= i < 9 && i != UnitOf(u, loc) :: MaskOf(g', u, i) == MaskOf(g, u, i)
    ensures forall u: Unit :: MaskOf(g', u, UnitOf(u, loc)) == MaskOf(g, u, UnitOf(u, loc)) + {num}
  {
    var row, col, block := RowOf(loc), ColOf(loc), BlockOf(loc);
    var g' := Grid(
      g.cells[loc := num],
      g.rowsSet[row := g.rowsSet[row] + {num}],
      g.colsSet[col := g.colsSet[col] + {num}],
      g.subgridSet[block := g.subgridSet[block] + {num}]);
    g'
  }

  /** `set(loc, num)`: succeeds when the cell is unset and num is absent
      from the cell's column, row and block masks, and then places the digit;
      on failure nothing changes. */
  function Set(g: Grid, loc: int, num: int): (r: (bool, Grid))
    requires WellFormed(g) && 0 <= loc < 81 && 1 <= num <= 9
    ensures WellFormed(r.1)
    ensures !r.0 ==> r.1 == g
    ensures g.cells[loc] != 0 ==> !r.0
    ensures r.0 ==> r.1 == Place(g, loc, num)
  {
    var canSet := g.cells[loc] == 0
      && num !in g.colsSet[ColOf(loc)]
      && num !in g.rowsSet[RowOf(loc)]
      && num !in g.subgridSet[BlockOf(loc)];
    if !canSet then (false, g) else (true, Place(g, loc, num))
  }

  /** Against consistent masks, `Set` succeeds exactly when the digit fits:
      the mask test is the same as looking at every peer cell. */
  lemma SetDecidesFit(g: Grid, loc: int, num: int)
    requires Consistent(g) && 0 <= loc < 81 && 1 <= num <= 9
    ensures Set(g, loc, num).0 <==> Fits(g.cells, loc, num)
  {
    var row, col, block := RowOf(loc), ColOf(loc), BlockOf(loc);
    UnitIndexInRange(Row, loc);
    UnitIndexInRange(Column, loc);
    UnitIndexInRange(Block, loc);
    var free := !Holds(g.cells, Row, row, num) && !Holds(g.cells, Column, col, num)
      && !Holds(g.cells, Block, block, num);
    assert Set(g, loc, num).0 <==> g.cells[loc] == 0 && free by {
      assert num in MaskOf(g, Row, row) <==> Holds(g.cells, Row, row, num);
      assert num in MaskOf(g, Column, col) <==> Holds(g.cells, Column, col, num);
      assert num in MaskOf(g, Block, block) <==> Holds(g.cells, Block, block, num);
    }
    if Fits(g.cells, loc, num) {
      forall u: Unit ensures !Holds(g.cells, u, UnitOf(u, loc), num) {
        if j :| 0 <= j < 81 && UnitOf(u, j) == UnitOf(u, loc) && g.cells[j] == num {
          assert SharesUnit(j, loc);
        }
      }
      assert free by {
        assert UnitOf(Row, loc) == row && UnitOf(Column, loc) == col && UnitOf(Block, loc) == block;
      }
    }
    if g.cells[loc] == 0 && free {
      forall j | 0 <= j < 81 && SharesUnit(j, loc) ensures g.cells[j] != num {
        if RowOf(j) == row {
          assert UnitOf(Row, j) == row;
        } else if ColOf(j) == col {
          assert UnitOf(Column, j) == col;
        } else {
          assert UnitOf(Block, j) == block;
        }
      }
    }
  }

  /** Writing v into an unset cell adds v to that cell's three units and to
      no other unit. */
  lemma HoldsAfterWrite(cells: seq<int>, loc: int, num: int, u: Unit, i: int, v: int)
    requires 0 <= loc < |cells| && cells[loc] == 0 && 1 <= v
    ensures Holds(cells[loc := num], u, i, v) <==> Holds(cells, u, i, v) || (UnitOf(u, loc) == i && v == num)
  {
    var cells' := cells[loc := num];
    if Holds(cells', u, i, v) {
      var j :| 0 <= j < |cells'| && UnitOf(u, j) == i && cells'[j] == v;
      if j != loc {
        assert cells[j] == v;
      }
    }
    if Holds(cells, u, i, v) {
      var j :| 0 <= j < |cells| && UnitOf(u, j) == i && cells[j] == v;
      assert j != loc;
      assert cells'[j] == v;
    }
    if UnitOf(u, loc) == i && v == num {
      assert cells'[loc] == v;
    }
  }

  /** `Set` keeps the masks in step with the cells. */
  lemma SetPreservesConsistent(g: Grid, loc: int, num: int)
    requires Consistent(g) && 0 <= loc < 81 && 1 <= num <= 9
    ensures Consistent(Set(g, loc, num).1)
  {
    var r := Set(g, loc, num);
    if r.0 {
      var g' := r.1;
      forall u: Unit, i, v | 0 <= i < 9 && 1 <= v <= 9
        ensures v in MaskOf(g', u, i) <==> Holds(g'.cells, u, i, v)
      {
        HoldsAfterWrite(g.cells, loc, num, u, i, v);
        if i == UnitOf(u, loc) {
          assert MaskOf(g', u, UnitOf(u, loc)) == MaskOf(g, u, UnitOf(u, loc)) + {num};
        } else {
          assert MaskOf(g', u, i) == MaskOf(g, u, i);
        }
      }
    }
  }

  /** Writing a digit that fits into its cell keeps every unit free of
      duplicates. */
  lemma WriteFitKeepsNoConflict(cells: seq<int>, loc: int, num: int)
    requires NoConflict(cells) && 0 <= loc < |cells| && 1 <= num <= 9 && Fits(cells, loc, num)
    ensures NoConflict(cells[loc := num])
  {
    var c := cells[loc := num];
    forall a, b | 0 <= a < |c| && 0 <= b < |c| && a != b && SharesUnit(a, b) && c[a] != 0
      ensures c[a] != c[b]
    {
      if a == loc {
        assert SharesUnit(b, loc);
      } else if b == loc {
        assert SharesUnit(a, loc);
      }
    }
  }

  /** `Set` never places a digit next to a peer holding the same digit. */
  lemma SetPreservesNoConflict(g: Grid, loc: int, num: int)
    requires Consistent(g) && NoConflict(g.cells) && 0 <= loc < 81 && 1 <= num <= 9
    ensures NoConflict(Set(g, loc, num).1.cells)
  {
    if Set(g, loc, num).0 {
      SetDecidesFit(g, loc, num);
      WriteFitKeepsNoConflict(g.cells, loc, num);
    }
  }

  /** Placement exclusivity: once `Set(loc, v)` has succeeded, every later
      `Set(loc2, v)` on a peer of loc fails, and so does any `Set` on loc
      itself, whatever the digit. */
  lemma PlacementExclusive(g: Grid, loc: int, v: int, loc2: int, w: int)
    requires Consistent(g) && 0 <= loc < 81 && 0 <= loc2 < 81 && 1 <= v <= 9 && 1 <= w <= 9
    requires Set(g, loc, v).0
    requires SharesUnit(loc2, loc)
    ensures !Set(Set(g, loc, v).1, loc2, v).0
    ensures !Set(Set(g, loc, v).1, loc, w).0
  {
    var g' := Set(g, loc, v).1;
    SetPreservesConsistent(g, loc, v);
    SetDecidesFit(g', loc2, v);
    assert g'.cells[loc] == v;
  }
}
