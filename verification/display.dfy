/** The logical framebuffer and the sprite draw of Dxyn.

    The draw is written twice: `DrawSprite` follows the interpreter's nested
    loops (rows, then the eight bits of a row, with the `break` on a clipped
    coordinate), and `SpriteCells` lists, independently of the screen, which
    cells the set bits land on. `DrawIsFlipAll` connects the two, and the
    XOR laws (`DrawSpriteXor`, `DrawTwiceRestores`) are proved from the list. */
module Display {
  import opened Util

  const WIDTH: nat := 64
  const HEIGHT: nat := 32

  /** The framebuffer, indexed `pixels[x][y]`: 64 columns of 32 cells,
      `true` for a lit cell (the source's 1). */
  type Grid = seq<seq<bool>>

  predicate IsGrid(g: Grid)
  {
    |g| == WIDTH && forall x :: 0 <= x < WIDTH ==> |g[x]| == HEIGHT
  }

  /** The 64 x 32 grid of zeros (`Array(64)` of `Array(32).fill(0)`). */
  function Blank(): (g: Grid)
    ensures IsGrid(g)
    ensures forall x, y :: 0 <= x < WIDTH && 0 <= y < HEIGHT ==> !g[x][y]
  {
    seq(WIDTH, _ => seq(HEIGHT, _ => false))
  }

  /** Two grids with the same cells are the same grid. */
  lemma GridExt(g: Grid, h: Grid)
    requires IsGrid(g) && IsGrid(h)
    requires forall x, y :: 0 <= x < WIDTH && 0 <= y < HEIGHT ==> g[x][y] == h[x][y]
    ensures g == h
  {
    forall x | 0 <= x < WIDTH
      ensures g[x] == h[x]
    {
      assert forall y :: 0 <= y < HEIGHT ==> g[x][y] == h[x][y];
    }
  }

  /** Invert one cell and leave every other cell alone. */
  function Flip(g: Grid, x: nat, y: nat): (r: Grid)
    requires IsGrid(g) && x < WIDTH && y < HEIGHT
    ensures IsGrid(r)
    ensures forall c, w :: 0 <= c < WIDTH && 0 <= w < HEIGHT ==>
      r[c][w] == (if c == x && w == y then !g[c][w] else g[c][w])
  {
    g[x := g[x][y := !g[x][y]]]
  }

  datatype Cell = Cell(x: nat, y: nat)

  predicate InBounds(c: Cell)
  {
    c.x < WIDTH && c.y < HEIGHT
  }

  /** Column of bit j: `coordX + j`, reduced by `& 63` when wrapping. */
  function ColX(cx: nat, j: nat, wrap: bool): nat
  {
    if wrap then (cx + j) % WIDTH else cx + j
  }

  /** Row of sprite row i: `coordY + i`, reduced by `& 31` when wrapping. */
  function RowY(cy: nat, i: nat, wrap: bool): nat
  {
    if wrap then (cy + i) % HEIGHT else cy + i
  }

  function Target(cx: nat, cy: nat, i: nat, j: nat, wrap: bool): Cell
  {
    Cell(ColX(cx, j, wrap), RowY(cy, i, wrap))
  }

  /** Without wrapping, a coordinate past the edge ends the row (`break`). */
  predicate Clipped(cx: nat, cy: nat, i: nat, j: nat, wrap: bool)
  {
    !wrap && (ColX(cx, j, wrap) > WIDTH - 1 || RowY(cy, i, wrap) > HEIGHT - 1)
  }

  /** `ByteToBits(row).reverse()`: the eight bits of a sprite row, most
      significant first. */
  function RowBits(row: Byte): (bits: seq<nat>)
    ensures |bits| == 8
    ensures forall j :: 0 <= j < 8 ==> bits[j] == Bit(row, 7 - j)
  {
    var lsbFirst := ByteToBits(row);
    seq(8, j requires 0 <= j < 8 => lsbFirst[7 - j])
  }

  /** A drawn screen together with the collision flag. */
  datatype Drawn = Drawn(grid: Grid, collision: bool)

  /** The inner loop of Dxyn: bits j.. of sprite row i. */
  function DrawBits(g: Grid, bits: seq<nat>, cx: nat, cy: nat, i: nat, j: nat, wrap: bool, hit: bool): (d: Drawn)
    requires IsGrid(g) && |bits| == 8 && j <= 8
    ensures IsGrid(d.grid)
    decreases 8 - j
  {
    if j == 8 then Drawn(g, hit)
    else if Clipped(cx, cy, i, j, wrap) then Drawn(g, hit)
    else
      var t := Target(cx, cy, i, j, wrap);
      if bits[j] == 1 && g[t.x][t.y] then
        DrawBits(Flip(g, t.x, t.y), bits, cx, cy, i, j + 1, wrap, true)
      else if bits[j] == 1 then
        DrawBits(Flip(g, t.x, t.y), bits, cx, cy, i, j + 1, wrap, hit)
      else
        DrawBits(g, bits, cx, cy, i, j + 1, wrap, hit)
  }

  /** The outer loop of Dxyn: sprite rows i.. */
  function DrawRows(g: Grid, rows: seq<Byte>, cx: nat, cy: nat, i: nat, wrap: bool, hit: bool): (d: Drawn)
    requires IsGrid(g) && i <= |rows|
    ensures IsGrid(d.grid)
    decreases |rows| - i
  {
    if i == |rows| then Drawn(g, hit)
    else
      var d := DrawBits(g, RowBits(rows[i]), cx, cy, i, 0, wrap, hit);
      DrawRows(d.grid, rows, cx, cy, i + 1, wrap, d.collision)
  }

  /** Dxyn's effect on the screen: the collision flag starts cleared. */
  function DrawSprite(g: Grid, rows: seq<Byte>, cx: nat, cy: nat, wrap: bool): (d: Drawn)
    requires IsGrid(g)
    ensures IsGrid(d.grid)
  {
    DrawRows(g, rows, cx, cy, 0, wrap, false)
  }

  // ---------------------------------------------------------------------
  // The cells a sprite lands on, independent of what is on the screen.

  function RowCells(bits: seq<nat>, cx: nat, cy: nat, i: nat, j: nat, wrap: bool): (cells: seq<Cell>)
    requires |bits| == 8 && j <= 8
    ensures forall k :: 0 <= k < |cells| ==> InBounds(cells[k]) && cells[k].y == RowY(cy, i, wrap)
    decreases 8 - j
  {
    if j == 8 || Clipped(cx, cy, i, j, wrap) then []
    else (if bits[j] == 1 then [Target(cx, cy, i, j, wrap)] else []) + RowCells(bits, cx, cy, i, j + 1, wrap)
  }

  function SpriteCells(rows: seq<Byte>, cx: nat, cy: nat, i: nat, wrap: bool): (cells: seq<Cell>)
    requires i <= |rows|
    ensures forall k :: 0 <= k < |cells| ==> InBounds(cells[k])
    decreases |rows| - i
  {
    if i == |rows| then []
    else RowCells(RowBits(rows[i]), cx, cy, i, 0, wrap) + SpriteCells(rows, cx, cy, i + 1, wrap)
  }

  /** Flip the listed cells in order, noting whether a lit cell was flipped. */
  function FlipAll(g: Grid, cells: seq<Cell>, hit: bool): (d: Drawn)
    requires IsGrid(g) && forall k :: 0 <= k < |cells| ==> InBounds(cells[k])
    ensures IsGrid(d.grid)
    decreases |cells|
  {
    if cells == [] then Drawn(g, hit)
    else
      var c := cells[0];
      assert InBounds(cells[0]);
      FlipAll(Flip(g, c.x, c.y), cells[1..], hit || g[c.x][c.y])
  }

  predicate NoDup<T(==)>(s: seq<T>)
  {
    forall a, b :: 0 <= a < b < |s| ==> s[a] != s[b]
  }

  /** Some set, unclipped bit of the row, from column j on, lands on c. */
  ghost predicate RowLands(bits: seq<nat>, cx: nat, cy: nat, i: nat, j: nat, wrap: bool, c: Cell)
    requires |bits| == 8
  {
    exists j' :: j <= j' < 8 && bits[j'] == 1 && !Clipped(cx, cy, i, j', wrap) && Target(cx, cy, i, j', wrap) == c
  }

  /** Some set, unclipped bit of row i or a later row lands on c. */
  ghost predicate SpriteLands(rows: seq<Byte>, cx: nat, cy: nat, i: nat, wrap: bool, c: Cell)
  {
    exists i', j :: i <= i' < |rows| && 0 <= j < 8 && RowBits(rows[i'])[j] == 1
      && !Clipped(cx, cy, i', j, wrap) && Target(cx, cy, i', j, wrap) == c
  }

  /** A sprite covers cell c when some set bit, not clipped, lands on c. */
  ghost predicate Covers(rows: seq<Byte>, cx: nat, cy: nat, wrap: bool, c: Cell)
  {
    SpriteLands(rows, cx, cy, 0, wrap, c)
  }

  lemma {:induction false} RowCellsMembers(bits: seq<nat>, cx: nat, cy: nat, i: nat, j: nat, wrap: bool)
    requires |bits| == 8 && j <= 8
    ensures forall c :: c in RowCells(bits, cx, cy, i, j, wrap) <==> RowLands(bits, cx, cy, i, j, wrap, c)
    decreases 8 - j
  {
    if j < 8 && !Clipped(cx, cy, i, j, wrap) {
      RowCellsMembers(bits, cx, cy, i, j + 1, wrap);
      forall c
        ensures RowLands(bits, cx, cy, i, j, wrap, c) <==>
          (bits[j] == 1 && Target(cx, cy, i, j, wrap) == c) || RowLands(bits, cx, cy, i, j + 1, wrap, c)
      {
        RowLandsSplit(bits, cx, cy, i, j, wrap, c);
      }
    } else if j < 8 {
      forall c
        ensures !RowLands(bits, cx, cy, i, j, wrap, c)
      {
        ClippedOnward(bits, cx, cy, i, j, wrap, c);
      }
    }
  }

  lemma RowLandsSplit(bits: seq<nat>, cx: nat, cy: nat, i: nat, j: nat, wrap: bool, c: Cell)
    requires |bits| == 8 && j < 8 && !Clipped(cx, cy, i, j, wrap)
    ensures RowLands(bits, cx, cy, i, j, wrap, c) <==>
      (bits[j] == 1 && Target(cx, cy, i, j, wrap) == c) || RowLands(bits, cx, cy, i, j + 1, wrap, c)
  {
    if RowLands(bits, cx, cy, i, j, wrap, c) {
      var j' :| j <= j' < 8 && bits[j'] == 1 && !Clipped(cx, cy, i, j', wrap) && Target(cx, cy, i, j', wrap) == c;
      if j' > j {
        assert RowLands(bits, cx, cy, i, j + 1, wrap, c);
      }
    }
  }

  /** Once a column is clipped, so is every column after it. */
  lemma ClippedOnward(bits: seq<nat>, cx: nat, cy: nat, i: nat, j: nat, wrap: bool, c: Cell)
    requires |bits| == 8 && j < 8 && Clipped(cx, cy, i, j, wrap)
    ensures !RowLands(bits, cx, cy, i, j, wrap, c)
  {
  }

  lemma {:induction false} RowCellsNoDup(bits: seq<nat>, cx: nat, cy: nat, i: nat, j: nat, wrap: bool)
    requires |bits| == 8 && j <= 8
    ensures NoDup(RowCells(bits, cx, cy, i, j, wrap))
    decreases 8 - j
  {
    if j < 8 && !Clipped(cx, cy, i, j, wrap) {
      var rest := RowCells(bits, cx, cy, i, j + 1, wrap);
      RowCellsNoDup(bits, cx, cy, i, j + 1, wrap);
      if bits[j] == 1 {
        var t := Target(cx, cy, i, j, wrap);
        RowCellsMembers(bits, cx, cy, i, j + 1, wrap);
        NotLandedLater(bits, cx, cy, i, j, wrap);
        NoDupAppend([t], rest);
      } else {
        assert [] + rest == rest;
      }
    }
  }

  /** The later columns of a row never land on the cell of column j. */
  lemma NotLandedLater(bits: seq<nat>, cx: nat, cy: nat, i: nat, j: nat, wrap: bool)
    requires |bits| == 8 && j < 8
    ensures !RowLands(bits, cx, cy, i, j + 1, wrap, Target(cx, cy, i, j, wrap))
  {
  }

  lemma {:induction false} SpriteCellsMembers(rows: seq<Byte>, cx: nat, cy: nat, i: nat, wrap: bool)
    requires i <= |rows|
    ensures forall c :: c in SpriteCells(rows, cx, cy, i, wrap) <==> SpriteLands(rows, cx, cy, i, wrap, c)
    decreases |rows| - i
  {
    if i < |rows| {
      RowCellsMembers(RowBits(rows[i]), cx, cy, i, 0, wrap);
      SpriteCellsMembers(rows, cx, cy, i + 1, wrap);
      forall c
        ensures SpriteLands(rows, cx, cy, i, wrap, c) <==>
          RowLands(RowBits(rows[i]), cx, cy, i, 0, wrap, c) || SpriteLands(rows, cx, cy, i + 1, wrap, c)
      {
        SpriteLandsSplit(rows, cx, cy, i, wrap, c);
      }
    }
  }

  lemma SpriteLandsSplit(rows: seq<Byte>, cx: nat, cy: nat, i: nat, wrap: bool, c: Cell)
    requires i < |rows|
    ensures SpriteLands(rows, cx, cy, i, wrap, c) <==>
      RowLands(RowBits(rows[i]), cx, cy, i, 0, wrap, c) || SpriteLands(rows, cx, cy, i + 1, wrap, c)
  {
    if SpriteLands(rows, cx, cy, i, wrap, c) {
      var i', j :| i <= i' < |rows| && 0 <= j < 8 && RowBits(rows[i'])[j] == 1
        && !Clipped(cx, cy, i', j, wrap) && Target(cx, cy, i', j, wrap) == c;
      if i' == i {
        assert RowLands(RowBits(rows[i]), cx, cy, i, 0, wrap, c);
      } else {
        assert SpriteLands(rows, cx, cy, i + 1, wrap, c);
      }
    }
    if RowLands(RowBits(rows[i]), cx, cy, i, 0, wrap, c) {
      var j :| 0 <= j < 8 && RowBits(rows[i])[j] == 1 && !Clipped(cx, cy, i, j, wrap) && Target(cx, cy, i, j, wrap) == c;
      assert SpriteLands(rows, cx, cy, i, wrap, c);
    }
    if SpriteLands(rows, cx, cy, i + 1, wrap, c) {
      var i', j :| i + 1 <= i' < |rows| && 0 <= j < 8 && RowBits(rows[i'])[j] == 1
        && !Clipped(cx, cy, i', j, wrap) && Target(cx, cy, i', j, wrap) == c;
      assert SpriteLands(rows, cx, cy, i, wrap, c);
    }
  }

  /** Every cell listed from row i on lies in the row of some i' >= i. */
  lemma {:induction false} SpriteCellsRows(rows: seq<Byte>, cx: nat, cy: nat, i: nat, wrap: bool)
    requires i <= |rows|
    ensures forall c :: c in SpriteCells(rows, cx, cy, i, wrap) ==>
      exists i' :: i <= i' < |rows| && c.y == RowY(cy, i', wrap)
    decreases |rows| - i
  {
    if i < |rows| {
      var here := RowCells(RowBits(rows[i]), cx, cy, i, 0, wrap);
      SpriteCellsRows(rows, cx, cy, i + 1, wrap);
      forall c | c in here
        ensures c.y == RowY(cy, i, wrap)
      {
        var k :| 0 <= k < |here| && here[k] == c;
      }
    }
  }

  lemma NoDupAppend<T>(a: seq<T>, b: seq<T>)
    requires NoDup(a) && NoDup(b)
    requires forall x :: x in a ==> x !in b
    ensures NoDup(a + b)
  {
    var all := a + b;
    forall p, q | 0 <= p < q < |all|
      ensures all[p] != all[q]
    {
      if q < |a| {
        assert all[p] == a[p] && all[q] == a[q];
      } else if p >= |a| {
        assert all[p] == b[p - |a|] && all[q] == b[q - |a|];
      } else {
        assert all[p] == a[p] && all[q] == b[q - |a|];
        assert a[p] in a;
      }
    }
  }

  /** Distinct sprite rows land on distinct screen rows (at most 32 rows). */
  lemma RowYInjective(cy: nat, i: nat, i': nat, wrap: bool)
    requires i < i' < HEIGHT
    ensures RowY(cy, i, wrap) != RowY(cy, i', wrap)
  {
  }

  lemma {:induction false} SpriteCellsNoDup(rows: seq<Byte>, cx: nat, cy: nat, i: nat, wrap: bool)
    requires i <= |rows| <= HEIGHT
    ensures NoDup(SpriteCells(rows, cx, cy, i, wrap))
    decreases |rows| - i
  {
    if i < |rows| {
      var here := RowCells(RowBits(rows[i]), cx, cy, i, 0, wrap);
      var rest := SpriteCells(rows, cx, cy, i + 1, wrap);
      RowCellsNoDup(RowBits(rows[i]), cx, cy, i, 0, wrap);
      SpriteCellsNoDup(rows, cx, cy, i + 1, wrap);
      SpriteCellsRows(rows, cx, cy, i + 1, wrap);
      forall c | c in here
        ensures c !in rest
      {
        var k :| 0 <= k < |here| && here[k] == c;
        assert c.y == RowY(cy, i, wrap);
        if c in rest {
          var i' :| i + 1 <= i' < |rows| && c.y == RowY(cy, i', wrap);
          RowYInjective(cy, i, i', wrap);
        }
      }
      NoDupAppend(here, rest);
    }
  }

  lemma {:induction false} FlipAllAppend(g: Grid, a: seq<Cell>, b: seq<Cell>, hit: bool)
    requires IsGrid(g)
    requires forall k :: 0 <= k < |a| ==> InBounds(a[k])
    requires forall k :: 0 <= k < |b| ==> InBounds(b[k])
    ensures var d := FlipAll(g, a, hit); FlipAll(g, a + b, hit) == FlipAll(d.grid, b, d.collision)
    decreases |a|
  {
    if a == [] {
      assert a + b == b;
    } else {
      var c := a[0];
      assert (a + b)[0] == c && (a + b)[1..] == a[1..] + b;
      FlipAllAppend(Flip(g, c.x, c.y), a[1..], b, hit || g[c.x][c.y]);
    }
  }

  lemma {:induction false} DrawBitsIsFlipAll(g: Grid, bits: seq<nat>, cx: nat, cy: nat, i: nat, j: nat, wrap: bool, hit: bool)
    requires IsGrid(g) && |bits| == 8 && j <= 8
    ensures DrawBits(g, bits, cx, cy, i, j, wrap, hit) == FlipAll(g, RowCells(bits, cx, cy, i, j, wrap), hit)
    decreases 8 - j
  {
    if j < 8 && !Clipped(cx, cy, i, j, wrap) {
      var t := Target(cx, cy, i, j, wrap);
      var rest := RowCells(bits, cx, cy, i, j + 1, wrap);
      if bits[j] == 1 {
        var g' := Flip(g, t.x, t.y);
        var hit' := hit || g[t.x][t.y];
        assert DrawBits(g, bits, cx, cy, i, j, wrap, hit) == DrawBits(g', bits, cx, cy, i, j + 1, wrap, hit');
        assert RowCells(bits, cx, cy, i, j, wrap) == [t] + rest;
        DrawBitsIsFlipAll(g', bits, cx, cy, i, j + 1, wrap, hit');
        FlipAllCons(g, t, rest, hit);
      } else {
        assert RowCells(bits, cx, cy, i, j, wrap) == [] + rest == rest;
        DrawBitsIsFlipAll(g, bits, cx, cy, i, j + 1, wrap, hit);
      }
    }
  }

  lemma FlipAllCons(g: Grid, c: Cell, rest: seq<Cell>, hit: bool)
    requires IsGrid(g) && InBounds(c)
    requires forall k :: 0 <= k < |rest| ==> InBounds(rest[k])
    ensures FlipAll(g, [c] + rest, hit) == FlipAll(Flip(g, c.x, c.y), rest, hit || g[c.x][c.y])
  {
    assert ([c] + rest)[0] == c && ([c] + rest)[1..] == rest;
  }

  /** The nested loops flip exactly the listed cells, in list order. */
  lemma {:induction false} DrawIsFlipAll(g: Grid, rows: seq<Byte>, cx: nat, cy: nat, i: nat, wrap: bool, hit: bool)
    requires IsGrid(g) && i <= |rows|
    ensures DrawRows(g, rows, cx, cy, i, wrap, hit) == FlipAll(g, SpriteCells(rows, cx, cy, i, wrap), hit)
    decreases |rows| - i
  {
    if i < |rows| {
      var bits := RowBits(rows[i]);
      var here := RowCells(bits, cx, cy, i, 0, wrap);
      var rest := SpriteCells(rows, cx, cy, i + 1, wrap);
      DrawBitsIsFlipAll(g, bits, cx, cy, i, 0, wrap, hit);
      var d := FlipAll(g, here, hit);
      FlipAllAppend(g, here, rest, hit);
      DrawIsFlipAll(d.grid, rows, cx, cy, i + 1, wrap, d.collision);
    }
  }

  lemma NoDupTail<T>(s: seq<T>)
    requires NoDup(s) && s != []
    ensures NoDup(s[1..]) && s[0] !in s[1..]
  {
    var rest := s[1..];
    forall a, b | 0 <= a < b < |rest|
      ensures rest[a] != rest[b]
    {
      assert rest[a] == s[a + 1] && rest[b] == s[b + 1];
    }
    forall k | 0 <= k < |rest|
      ensures rest[k] != s[0]
    {
      assert rest[k] == s[k + 1];
    }
  }

  /** Flipping a duplicate-free list inverts exactly the listed cells. */
  lemma {:induction false} FlipAllCells(g: Grid, cells: seq<Cell>, hit: bool)
    requires IsGrid(g) && NoDup(cells)
    requires forall k :: 0 <= k < |cells| ==> InBounds(cells[k])
    ensures forall x, y :: 0 <= x < WIDTH && 0 <= y < HEIGHT ==>
      FlipAll(g, cells, hit).grid[x][y] == (g[x][y] != (Cell(x, y) in cells))
    decreases |cells|
  {
    if cells != [] {
      var c := cells[0];
      var rest := cells[1..];
      assert InBounds(cells[0]);
      var g1 := Flip(g, c.x, c.y);
      NoDupTail(cells);
      FlipAllCells(g1, rest, hit || g[c.x][c.y]);
      forall x, y | 0 <= x < WIDTH && 0 <= y < HEIGHT
        ensures (Cell(x, y) in cells) <==> (Cell(x, y) == c || Cell(x, y) in rest)
      {
        assert cells == [c] + rest;
      }
    }
  }

  /** The flag reports whether a listed cell was lit when its turn came;
      with no duplicates, that is whether it was lit beforehand. */
  lemma {:induction false} FlipAllCollision(g: Grid, cells: seq<Cell>, hit: bool)
    requires IsGrid(g) && NoDup(cells)
    requires forall k :: 0 <= k < |cells| ==> InBounds(cells[k])
    ensures FlipAll(g, cells, hit).collision <==> hit || exists k :: 0 <= k < |cells| && g[cells[k].x][cells[k].y]
    decreases |cells|
  {
    if cells != [] {
      var c := cells[0];
      var rest := cells[1..];
      assert InBounds(cells[0]);
      var g1 := Flip(g, c.x, c.y);
      NoDupTail(cells);
      FlipAllCollision(g1, rest, hit || g[c.x][c.y]);
      forall k | 0 <= k < |rest|
        ensures g1[rest[k].x][rest[k].y] == g[cells[k + 1].x][cells[k + 1].y]
      {
        assert rest[k] == cells[k + 1];
        assert rest[k] in rest;
        assert InBounds(rest[k]);
      }
      if exists k :: 0 <= k < |cells| && g[cells[k].x][cells[k].y] {
        var k :| 0 <= k < |cells| && g[cells[k].x][cells[k].y];
        if k > 0 {
          assert g1[rest[k - 1].x][rest[k - 1].y];
        }
      }
    }
  }

  /** Dxyn on the screen: each covered cell is inverted, every other cell is
      untouched, and the flag is set exactly when a lit cell was covered
      (a cell went from 1 to 0). */
  lemma DrawSpriteXor(g: Grid, rows: seq<Byte>, cx: nat, cy: nat, wrap: bool)
    requires IsGrid(g) && |rows| <= HEIGHT
    ensures var d := DrawSprite(g, rows, cx, cy, wrap);
      && (forall x, y :: 0 <= x < WIDTH && 0 <= y < HEIGHT ==>
            d.grid[x][y] == (g[x][y] != Covers(rows, cx, cy, wrap, Cell(x, y))))
      && (d.collision <==> exists x, y :: 0 <= x < WIDTH && 0 <= y < HEIGHT && g[x][y] && !d.grid[x][y])
  {
    var cells := SpriteCells(rows, cx, cy, 0, wrap);
    DrawIsFlipAll(g, rows, cx, cy, 0, wrap, false);
    SpriteCellsNoDup(rows, cx, cy, 0, wrap);
    SpriteCellsMembers(rows, cx, cy, 0, wrap);
    FlipAllCells(g, cells, false);
    FlipAllCollision(g, cells, false);
    var d := DrawSprite(g, rows, cx, cy, wrap);
    forall x, y | 0 <= x < WIDTH && 0 <= y < HEIGHT
      ensures (Cell(x, y) in cells) == Covers(rows, cx, cy, wrap, Cell(x, y))
    {
    }
    if d.collision {
      var k :| 0 <= k < |cells| && g[cells[k].x][cells[k].y];
      var c := cells[k];
      assert c in cells;
      assert g[c.x][c.y] && !d.grid[c.x][c.y];
    }
    if exists x, y :: 0 <= x < WIDTH && 0 <= y < HEIGHT && g[x][y] && !d.grid[x][y] {
      var x, y :| 0 <= x < WIDTH && 0 <= y < HEIGHT && g[x][y] && !d.grid[x][y];
      assert Cell(x, y) in cells;
      var k :| 0 <= k < |cells| && cells[k] == Cell(x, y);
    }
  }

  /** Drawing the same sprite twice at the same place restores the screen. */
  lemma DrawTwiceRestores(g: Grid, rows: seq<Byte>, cx: nat, cy: nat, wrap: bool)
    requires IsGrid(g) && |rows| <= HEIGHT
    ensures DrawSprite(DrawSprite(g, rows, cx, cy, wrap).grid, rows, cx, cy, wrap).grid == g
  {
    var g1 := DrawSprite(g, rows, cx, cy, wrap).grid;
    var g2 := DrawSprite(g1, rows, cx, cy, wrap).grid;
    DrawSpriteXor(g, rows, cx, cy, wrap);
    DrawSpriteXor(g1, rows, cx, cy, wrap);
    GridExt(g2, g);
  }

  /** Redrawing reports a collision exactly when the first draw lit a cell. */
  lemma RedrawCollides(g: Grid, rows: seq<Byte>, cx: nat, cy: nat, wrap: bool)
    requires IsGrid(g) && |rows| <= HEIGHT
    ensures var g1 := DrawSprite(g, rows, cx, cy, wrap).grid;
      DrawSprite(g1, rows, cx, cy, wrap).collision <==>
        exists x, y :: 0 <= x < WIDTH && 0 <= y < HEIGHT && !g[x][y] && g1[x][y]
  {
    var g1 := DrawSprite(g, rows, cx, cy, wrap).grid;
    DrawSpriteXor(g, rows, cx, cy, wrap);
    DrawSpriteXor(g1, rows, cx, cy, wrap);
    DrawTwiceRestores(g, rows, cx, cy, wrap);
  }
}
