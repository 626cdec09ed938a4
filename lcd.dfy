/**
 * The character LCD: a grid of rows x cols characters that Update writes
 * strings into, Clear blanks and the timer event handler repaints from a
 * list of display variables (a row, a column, a field length and a value).
 *
 * Locking always succeeds here. The driver hooks that push the grid or a
 * clear to the hardware (_update, _clear), command registration and the
 * refresh timer itself are not part of this model.
 */
module LcdDisplay {

  const NUL: char := '\0'
  const PAD: char := ' '

  function Min(a: nat, b: nat): nat
  {
    if a < b then a else b
  }

  /** g has exactly rows rows of cols characters each. */
  ghost predicate IsGrid(g: seq<seq<char>>, rows: nat, cols: nat)
  {
    |g| == rows && forall r :: 0 <= r < rows ==> |g[r]| == cols
  }

  // ---------------------------------------------------------------------
  // SetLimits: std::vector::resize of the grid, then of every row
  // ---------------------------------------------------------------------

  /** A line resized to n characters: its first n are kept, new cells are NUL. */
  function Fit(line: seq<char>, n: nat): (r: seq<char>)
    ensures |r| == n
    ensures forall c :: 0 <= c < n ==> r[c] == if c < |line| then line[c] else NUL
  {
    seq(n, c requires 0 <= c < n => if c < |line| then line[c] else NUL)
  }

  /** The grid resized to rows rows: existing rows are kept, new ones are empty. */
  function FitRows(g: seq<seq<char>>, rows: nat): (r: seq<seq<char>>)
    ensures |r| == rows
  {
    seq(rows, i requires 0 <= i < rows => if i < |g| then g[i] else [])
  }

  /** The grid after SetLimits(rows, cols). */
  function Resized(g: seq<seq<char>>, rows: nat, cols: nat): seq<seq<char>>
  {
    seq(rows, i requires 0 <= i < rows => Fit(if i < |g| then g[i] else [], cols))
  }

  /**
   * After SetLimits the grid has exactly rows rows of cols cells; a cell
   * inside both the old and the new limits keeps its character and every
   * other cell is NUL.
   */
  lemma ResizedCells(g: seq<seq<char>>, oldRows: nat, oldCols: nat, rows: nat, cols: nat)
    requires IsGrid(g, oldRows, oldCols)
    ensures IsGrid(Resized(g, rows, cols), rows, cols)
    ensures forall r, c :: 0 <= r < rows && 0 <= c < cols ==>
              Resized(g, rows, cols)[r][c] == if r < oldRows && c < oldCols then g[r][c] else NUL
  {
    var n := Resized(g, rows, cols);
    forall r | 0 <= r < rows
      ensures n[r] == Fit(if r < |g| then g[r] else [], cols)
    {
    }
  }

  // ---------------------------------------------------------------------
  // Update: a string written row by row from (row0, col0)
  // ---------------------------------------------------------------------

  /**
   * One row of Update: from column col0 up to (not including) column upto
   * the line takes s[start], s[start + 1], ... while the string lasts.
   */
  function WriteRow(line: seq<char>, s: string, start: nat, col0: nat, upto: nat): (r: seq<char>)
    ensures |r| == |line|
  {
    seq(|line|, c requires 0 <= c < |line| => if col0 <= c < upto && start + (c - col0) < |s| then s[start + (c - col0)] else line[c])
  }

  /** n * w, by repeated addition, so that the row arithmetic below stays linear. */
  function Times(n: nat, w: nat): (p: nat)
  {
    if n == 0 then 0 else Times(n - 1, w) + w
  }

  lemma {:induction false} TimesIsMul(n: nat, w: nat)
    ensures Times(n, w) == n * w
  {
    if n > 0 {
      TimesIsMul(n - 1, w);
    }
  }

  /**
   * Update on a grid whose rows are cols wide, applied to rows row0 up to
   * (not including) upto: each row takes the next cols - col0 characters,
   * starting again at column col0.
   */
  function Updated(g: seq<seq<char>>, s: string, row0: nat, col0: nat, cols: nat, upto: nat): (r: seq<seq<char>>)
    requires col0 < cols && upto <= |g|
    ensures |r| == |g| && forall i :: 0 <= i < |g| ==> |r[i]| == |g[i]|
    decreases upto
  {
    if upto <= row0 then g
    else Updated(g, s, row0, col0, cols, upto - 1)[upto - 1 := WriteRow(g[upto - 1], s, Times(upto - 1 - row0, cols - col0), col0, cols)]
  }

  /** Row r of the updated grid: its share of the string if it is one of the rows written, else as before. */
  lemma {:induction false} UpdatedRow(g: seq<seq<char>>, s: string, row0: nat, col0: nat, cols: nat, upto: nat, r: nat)
    requires col0 < cols && upto <= |g| && r < |g|
    ensures Updated(g, s, row0, col0, cols, upto)[r] ==
            if row0 <= r < upto then WriteRow(g[r], s, Times(r - row0, cols - col0), col0, cols) else g[r]
    decreases upto
  {
    if row0 < upto {
      var last := upto - 1;
      var share := WriteRow(g[last], s, Times(last - row0, cols - col0), col0, cols);
      assert Updated(g, s, row0, col0, cols, upto) == Updated(g, s, row0, col0, cols, last)[last := share];
      if r != last {
        UpdatedRow(g, s, row0, col0, cols, last, r);
      }
    }
  }

  /**
   * Update writes the string in order: character k lands in row
   * row0 + k / (cols - col0), column col0 + k % (cols - col0), as long as
   * that row exists; a full row continues on the next row at col0, not 0.
   */
  lemma UpdateWritesInOrder(g: seq<seq<char>>, s: string, rows: nat, cols: nat, row0: nat, col0: nat, k: nat)
    requires IsGrid(g, rows, cols) && col0 < cols
    requires k < |s| && row0 + k / (cols - col0) < rows
    ensures Updated(g, s, row0, col0, cols, rows)[row0 + k / (cols - col0)][col0 + k % (cols - col0)] == s[k]
  {
    var w := cols - col0;
    var r, c := row0 + k / w, col0 + k % w;
    TimesIsMul(r - row0, w);
    assert Times(r - row0, w) + (c - col0) == k;
    UpdatedRow(g, s, row0, col0, cols, rows, r);
  }

  /** A row whose share of the string starts past its end is not changed. */
  lemma WriteRowPast(line: seq<char>, s: string, start: nat, col0: nat, upto: nat)
    requires start >= |s|
    ensures WriteRow(line, s, start, col0, upto) == line
  {
  }

  /** Update changes no cell above row0, none left of col0, and none past the end of the string. */
  lemma UpdateConfined(g: seq<seq<char>>, s: string, rows: nat, cols: nat, row0: nat, col0: nat, r: nat, c: nat)
    requires IsGrid(g, rows, cols) && col0 < cols && r < rows && c < cols
    requires r < row0 || c < col0 || (r - row0) * (cols - col0) + (c - col0) >= |s|
    ensures Updated(g, s, row0, col0, cols, rows)[r][c] == g[r][c]
  {
    UpdatedRow(g, s, row0, col0, cols, rows, r);
    if row0 <= r {
      TimesIsMul(r - row0, cols - col0);
      assert WriteRow(g[r], s, Times(r - row0, cols - col0), col0, cols)[c] == g[r][c];
    }
  }

  lemma TimesSucc(n: nat, w: nat)
    ensures Times(n + 1, w) == Times(n, w) + w
  {
  }

  lemma {:induction false} TimesMono(a: nat, b: nat, w: nat)
    requires a <= b
    ensures Times(a, w) <= Times(b, w)
  {
    if a < b {
      TimesMono(a, b - 1, w);
    }
  }

  /** Rows whose share of the string would start past its end are left as they are. */
  lemma UpdatedTail(g: seq<seq<char>>, s: string, row0: nat, col0: nat, cols: nat, row: nat, rows: nat)
    requires col0 < cols && row0 <= row <= rows == |g|
    requires Times(row - row0, cols - col0) >= |s|
    ensures Updated(g, s, row0, col0, cols, row) == Updated(g, s, row0, col0, cols, rows)
  {
    forall r | 0 <= r < |g|
      ensures Updated(g, s, row0, col0, cols, row)[r] == Updated(g, s, row0, col0, cols, rows)[r]
    {
      UpdatedRow(g, s, row0, col0, cols, row, r);
      UpdatedRow(g, s, row0, col0, cols, rows, r);
      if row <= r < rows {
        TimesMono(row - row0, r - row0, cols - col0);
        WriteRowPast(g[r], s, Times(r - row0, cols - col0), col0, cols);
      }
    }
  }

  // ---------------------------------------------------------------------
  // Display variables and the repaint done by the timer event handler
  // ---------------------------------------------------------------------

  /** size_t: CreateVar's row, column and length, and the sum it checks, are 64-bit. */
  const SIZE_LIMIT: nat := 0x1_0000_0000_0000_0000

  type size = x: nat | x < SIZE_LIMIT

  /**
   * CreateVar's check: the row exists and the field ends strictly before
   * the last column, where the end col + length is a size_t sum and wraps.
   */
  predicate AcceptsVar(rows: nat, cols: nat, row: nat, col: nat, length: nat)
  {
    row < rows && (col + length) % SIZE_LIMIT < cols
  }

  /** Without the wrap, a variable is accepted exactly when its row exists and its field ends before the last column. */
  lemma AcceptsVarNoWrap(rows: nat, cols: nat, row: nat, col: nat, length: nat)
    requires col + length < SIZE_LIMIT
    ensures AcceptsVar(rows, cols, row, col, length) <==> row < rows && col + length < cols
  {
  }

  /** A display variable: where its field is, how long it is, and the value shown in it. */
  class LcdVar {
    const name: string
    var row: nat
    var col: nat
    var length: nat
    var value: string

    constructor (name: string, row: nat, col: nat, length: nat)
      ensures this.name == name && this.row == row && this.col == col && this.length == length
      ensures value == ""
    {
      this.name := name;
      this.row := row;
      this.col := col;
      this.length := length;
      value := "";
    }
  }

  datatype VarView = VarView(row: nat, col: nat, length: nat, value: string)

  function ViewOf(v: LcdVar): VarView
    reads v
  {
    VarView(v.row, v.col, v.length, v.value)
  }

  function Views(vs: seq<LcdVar>): (r: seq<VarView>)
    reads set v | v in vs
    ensures |r| == |vs|
    ensures forall k :: 0 <= k < |vs| ==> r[k] == ViewOf(vs[k])
  {
    if vs == [] then [] else [ViewOf(vs[0])] + Views(vs[1..])
  }

  /**
   * How many cells the repaint writes for a variable: one per character of
   * the value, then spaces up to the field's length.
   */
  function Span(length: nat, val: string): (n: nat)
    ensures n >= length && n >= |val|
    ensures n == length || n == |val|
  {
    if |val| < length then length else |val|
  }

  /** The characters the repaint writes, in order: the value, then spaces up to the field's length. */
  function FieldText(length: nat, val: string): (f: string)
    ensures |f| == Span(length, val)
    ensures f[..|val|] == val
    ensures forall i :: |val| <= i < |f| ==> f[i] == PAD
  {
    val + seq(Span(length, val) - |val|, _ => PAD)
  }

  /** The character at offset i of a field showing val: the value, then space padding. */
  function Glyph(val: string, i: nat): char
  {
    if i < |val| then val[i] else PAD
  }

  /** A line with the first n cells of a field at column col painted; cells past the line's end are skipped. */
  function Paint(line: seq<char>, col: nat, n: nat, val: string): (r: seq<char>)
    ensures |r| == |line|
    ensures forall c :: 0 <= c < |line| && !(col <= c < col + n) ==> r[c] == line[c]
  {
    seq(|line|, c requires 0 <= c < |line| => if col <= c < col + n then Glyph(val, c - col) else line[c])
  }

  /** Painting one more cell of the field: the next glyph, if that cell exists. */
  lemma PaintStep(line: seq<char>, col: nat, i: nat, val: string)
    ensures Paint(line, col, i + 1, val) ==
            if col + i < |line| then Paint(line, col, i, val)[col + i := Glyph(val, i)] else Paint(line, col, i, val)
  {
  }

  /**
   * A repainted field shows the value then spaces, from col for Span cells
   * or up to the end of the line, whichever comes first; no cell before col
   * or after the field changes, and a field starting past the line leaves
   * it as it was.
   */
  lemma PaintField(line: seq<char>, col: nat, length: nat, val: string)
    ensures col >= |line| ==> Paint(line, col, Span(length, val), val) == line
    ensures col < |line| ==>
              var r, end := Paint(line, col, Span(length, val), val), Min(col + Span(length, val), |line|);
              r[..col] == line[..col] && r[col..end] == FieldText(length, val)[..end - col] && r[end..] == line[end..]
  {
    var n := Span(length, val);
    var r := Paint(line, col, n, val);
    var f := FieldText(length, val);
    if col < |line| {
      var end := Min(col + n, |line|);
      forall i | 0 <= i < end - col
        ensures r[col..end][i] == f[..end - col][i]
      {
        assert r[col + i] == Glyph(val, i);
        if i < |val| {
          assert f[i] == f[..|val|][i];
        }
      }
    }
  }

  /** Whether cell (r, c) lies in the Span of cells that repainting v writes. */
  predicate Covers(v: VarView, r: nat, c: nat)
  {
    r == v.row && v.col <= c < v.col + Span(v.length, v.value)
  }

  /** One variable repainted: Span cells of its row from its column; a variable whose row is outside the grid is skipped. */
  function RenderVar(g: seq<seq<char>>, v: VarView): (r: seq<seq<char>>)
    ensures |r| == |g|
    ensures forall i :: 0 <= i < |g| && i != v.row ==> r[i] == g[i]
    ensures v.row < |g| ==> |r[v.row]| == |g[v.row]|
  {
    if v.row < |g| then g[v.row := Paint(g[v.row], v.col, Span(v.length, v.value), v.value)] else g
  }

  /** The variables repainted in list order, so that a later one overwrites an earlier one. */
  function RenderAll(g: seq<seq<char>>, vs: seq<VarView>): (r: seq<seq<char>>)
    ensures |r| == |g|
  {
    if vs == [] then g else RenderVar(RenderAll(g, vs[..|vs| - 1]), vs[|vs| - 1])
  }

  /** Repainting keeps the shape of the grid. */
  lemma {:induction false} RenderAllGrid(g: seq<seq<char>>, vs: seq<VarView>, rows: nat, cols: nat)
    requires IsGrid(g, rows, cols)
    ensures IsGrid(RenderAll(g, vs), rows, cols)
  {
    if vs != [] {
      RenderAllGrid(g, vs[..|vs| - 1], rows, cols);
    }
  }

  /**
   * The columns the source's repaint loops write for a variable, in order:
   * one per character of the value, then padding up to its length, with no
   * check against the end of the row.
   */
  function WrittenColumns(col: nat, length: nat, val: string): (cs: seq<nat>)
    ensures |cs| == Span(length, val)
    ensures forall i :: 0 <= i < |cs| ==> cs[i] == col + i
  {
    seq(Span(length, val), i requires 0 <= i => col + i)
  }

  /**
   * As written, the repaint is not limited to the row: a variable that
   * CreateVar accepts on a 1 x 4 grid (column 0, length 2) whose value is
   * "hello" makes it write column 4 of a row that has columns 0-3; and the
   * wrapping check accepts column 2^64 - 1 with length 2, so that even an
   * empty value makes it write that column.
   */
  lemma RepaintOverflowsRow()
    ensures AcceptsVar(1, 4, 0, 0, 2)
    ensures 4 in WrittenColumns(0, 2, "hello")
    ensures AcceptsVar(1, 4, 0, SIZE_LIMIT - 1, 2)
    ensures SIZE_LIMIT - 1 in WrittenColumns(SIZE_LIMIT - 1, 2, "")
  {
    assert WrittenColumns(0, 2, "hello")[4] == 4;
    assert WrittenColumns(SIZE_LIMIT - 1, 2, "")[0] == SIZE_LIMIT - 1;
  }

  /**
   * The repaint as modelled writes only cells that exist: the grid keeps
   * its shape, the cells of the variable's Span that lie in its row show the
   * value then spaces, and every other cell is unchanged.
   */
  lemma RepaintStaysInRow(g: seq<seq<char>>, rows: nat, cols: nat, v: VarView, r: nat, c: nat)
    requires IsGrid(g, rows, cols) && r < rows && c < cols
    ensures IsGrid(RenderVar(g, v), rows, cols)
    ensures RenderVar(g, v)[r][c] ==
            if Covers(v, r, c) then FieldText(v.length, v.value)[c - v.col] else g[r][c]
  {
    var n := Span(v.length, v.value);
    if r == v.row {
      assert RenderVar(g, v)[r] == Paint(g[r], v.col, n, v.value);
      if v.col <= c < v.col + n {
        var f := FieldText(v.length, v.value);
        assert Paint(g[r], v.col, n, v.value)[c] == Glyph(v.value, c - v.col);
        if c - v.col < |v.value| {
          assert f[c - v.col] == f[..|v.value|][c - v.col];
        }
      }
    }
  }

  /**
   * Repainting every variable in list order: a cell that no variable's Span
   * covers is unchanged, and any other cell shows the field text of the last
   * variable in the list that covers it.
   */
  lemma {:induction false} RepaintAllStaysInRow(g: seq<seq<char>>, rows: nat, cols: nat, vs: seq<VarView>, r: nat, c: nat)
    requires IsGrid(g, rows, cols) && r < rows && c < cols
    ensures IsGrid(RenderAll(g, vs), rows, cols)
    ensures (forall k :: 0 <= k < |vs| ==> !Covers(vs[k], r, c)) ==> RenderAll(g, vs)[r][c] == g[r][c]
    ensures forall k :: 0 <= k < |vs| && Covers(vs[k], r, c) && (forall j :: k < j < |vs| ==> !Covers(vs[j], r, c)) ==>
              RenderAll(g, vs)[r][c] == FieldText(vs[k].length, vs[k].value)[c - vs[k].col]
  {
    if vs != [] {
      var init, last := vs[..|vs| - 1], vs[|vs| - 1];
      RepaintAllStaysInRow(g, rows, cols, init, r, c);
      RepaintStaysInRow(RenderAll(g, init), rows, cols, last, r, c);
      assert forall k :: 0 <= k < |init| ==> init[k] == vs[k];
    }
  }

  /** SetRefresh's timer period: a rate in Hz turned into microseconds, rounded down. */
  function RefreshPeriod(rate: nat): (usec: nat)
    requires rate > 0
    ensures usec * rate <= 1000000 < (usec + 1) * rate
  {
    1000000 / rate
  }

  /** The grid after Clear: every cell NUL. */
  function Blank(rows: nat, cols: nat): (g: seq<seq<char>>)
    ensures IsGrid(g, rows, cols)
    ensures forall r, c :: 0 <= r < rows && 0 <= c < cols ==> g[r][c] == NUL
  {
    seq(rows, _ => seq(cols, _ => NUL))
  }

  /** Every element of vs other than v, in order: std::list::remove. */
  function Without(vs: seq<LcdVar>, v: LcdVar?): (r: seq<LcdVar>)
    ensures |r| <= |vs|
  {
    if vs == [] then []
    else if vs[0] == v then Without(vs[1..], v)
    else [vs[0]] + Without(vs[1..], v)
  }

  /** A variable is left after the removal exactly when it was in the list and is not the one removed. */
  lemma {:induction false} WithoutMembers(vs: seq<LcdVar>, v: LcdVar?)
    ensures forall x :: x in Without(vs, v) <==> x in vs && x != v
  {
    if vs != [] {
      WithoutMembers(vs[1..], v);
      assert forall x :: x in vs <==> x == vs[0] || x in vs[1..];
    }
  }

  /** Removal from a single variable: nothing if it is the one removed, else the variable. */
  lemma WithoutSingle(x: LcdVar, v: LcdVar?)
    ensures Without([x], v) == if x == v then [] else [x]
  {
    assert [x][1..] == [];
  }

  /** Removal is a filter that keeps order: it works on each part of a list separately. */
  lemma {:induction false} WithoutAppend(a: seq<LcdVar>, b: seq<LcdVar>, v: LcdVar?)
    ensures Without(a + b, v) == Without(a, v) + Without(b, v)
  {
    if a == [] {
      assert a + b == b;
    } else {
      var ab := a + b;
      assert ab[0] == a[0] && ab[1..] == a[1..] + b;
      WithoutAppend(a[1..], b, v);
      if a[0] == v {
        calc {
          Without(ab, v);
          Without(a[1..] + b, v);
          Without(a[1..], v) + Without(b, v);
        }
      } else {
        calc {
          Without(ab, v);
          [a[0]] + Without(a[1..] + b, v);
          [a[0]] + (Without(a[1..], v) + Without(b, v));
          ([a[0]] + Without(a[1..], v)) + Without(b, v);
        }
      }
    }
  }

  /**
   * One row of Update: from column col0 the line takes the string's
   * characters from index start on, until the row or the string ends;
   * next is the index of the first character not written.
   */
  method WriteLine(line: seq<char>, s: string, start: nat, col0: nat) returns (out: seq<char>, next: nat)
    requires start <= |s| && col0 <= |line|
    ensures out == WriteRow(line, s, start, col0, |line|)
    ensures next == Min(|s|, start + (|line| - col0))
  {
    out, next := line, start;
    var col := col0;
    while next < |s| && col < |line|
      invariant col0 <= col <= |line| && |out| == |line|
      invariant next == start + (col - col0) <= |s|
      invariant out == WriteRow(line, s, start, col0, col)
    {
      out := out[col := s[next]];
      next, col := next + 1, col + 1;
    }
  }

  /**
   * The repaint of one variable's row by the event handler's two loops:
   * every character of the value, then spaces up to the field's length,
   * from col on, skipping cells past the end of the row.
   */
  method PaintLine(cells: seq<char>, col: nat, length: nat, val: string) returns (line: seq<char>)
    ensures line == Paint(cells, col, Span(length, val), val)
  {
    line := cells;
    var i := 0;
    while i < |val|
      invariant 0 <= i <= |val|
      invariant line == Paint(cells, col, i, val)
    {
      PaintStep(cells, col, i, val);
      if col + i < |line| {
        line := line[col + i := val[i]];
      }
      i := i + 1;
    }
    while i < length
      invariant |val| <= i <= Span(length, val)
      invariant line == Paint(cells, col, i, val)
    {
      PaintStep(cells, col, i, val);
      if col + i < |line| {
        line := line[col + i := PAD];
      }
      i := i + 1;
    }
  }

  class Lcd {
    var rows: nat
    var cols: nat
    var buf: seq<seq<char>>
    var vars: seq<LcdVar>

    ghost predicate Valid()
      reads this
    {
      IsGrid(buf, rows, cols)
    }

    /** A new display has no rows, no columns and no variables. */
    constructor ()
      ensures Valid() && rows == 0 && cols == 0 && buf == [] && vars == []
    {
      rows, cols, buf, vars := 0, 0, [], [];
    }

    /** SetLimits: the grid becomes rows_ x cols_, keeping what fits. */
    method SetLimits(rows_: nat, cols_: nat)
      modifies this
      ensures Valid() && rows == rows_ && cols == cols_ && vars == old(vars)
      ensures buf == Resized(old(buf), rows_, cols_)
    {
      ghost var g := buf;
      buf := FitRows(buf, rows_);
      rows := rows_;
      var row := 0;
      while row < rows_
        invariant 0 <= row <= rows_ && |buf| == rows_ && rows == rows_ && vars == old(vars)
        invariant forall r :: 0 <= r < row ==> buf[r] == Fit(if r < |g| then g[r] else [], cols_)
        invariant forall r :: row <= r < rows_ ==> buf[r] == if r < |g| then g[r] else []
      {
        buf := buf[row := Fit(buf[row], cols_)];
        row := row + 1;
      }
      cols := cols_;
      assert buf == Resized(g, rows_, cols_);
    }

    method CreateVar(name: string, row: size, col: size, length: size) returns (v: LcdVar?)
      modifies this
      ensures v == null <==> !AcceptsVar(rows, cols, row, col, length)
      ensures v != null ==> fresh(v) && v.name == name && ViewOf(v) == VarView(row, col, length, "") &&
                            vars == old(vars) + [v]
      ensures v == null ==> vars == old(vars)
      ensures rows == old(rows) && cols == old(cols) && buf == old(buf)
    {
      v := null;
      if row < rows && (col + length) % SIZE_LIMIT < cols {
        v := new LcdVar(name, row, col, length);
        vars := vars + [v];
      }
    }

    method DeleteVar(v: LcdVar?) returns (status: bool)
      modifies this
      ensures status && vars == Without(old(vars), v)
      ensures rows == old(rows) && cols == old(cols) && buf == old(buf)
    {
      vars := Without(vars, v);
      status := true;
    }

    /** Update: false, and nothing written, unless (row0, col0) is inside the grid. */
    method Update(s: string, row0: nat, col0: nat) returns (status: bool)
      requires Valid()
      modifies this
      ensures Valid() && rows == old(rows) && cols == old(cols) && vars == old(vars)
      ensures status <==> row0 < rows && col0 < cols
      ensures buf == if status then Updated(old(buf), s, row0, col0, cols, rows) else old(buf)
    {
      status := false;
      if row0 < rows && col0 < cols {
        ghost var g := buf;
        ghost var w := cols - col0;
        ghost var start: nat := 0;
        var i, row := 0, row0;
        while i < |s| && row < rows
          invariant row0 <= row <= rows && rows == old(rows) && cols == old(cols) && vars == old(vars)
          invariant start == Times(row - row0, w) && i == Min(|s|, start)
          invariant IsGrid(buf, rows, cols)
          invariant buf == Updated(g, s, row0, col0, cols, row)
        {
          var line;
          line, i := WriteLine(buf[row], s, i, col0);
          assert buf[row] == g[row] by {
            UpdatedRow(g, s, row0, col0, cols, row, row);
          }
          buf := buf[row := line];
          TimesSucc(row - row0, w);
          row, start := row + 1, start + w;
        }
        if row < rows {
          UpdatedTail(g, s, row0, col0, cols, row, rows);
        }
        status := true;
      }
    }

    /** Clear: every cell of the grid becomes NUL. */
    method Clear() returns (status: bool)
      requires Valid()
      modifies this
      ensures Valid() && status && rows == old(rows) && cols == old(cols) && vars == old(vars)
      ensures buf == Blank(rows, cols)
    {
      var row := 0;
      while row < rows
        invariant 0 <= row <= rows && IsGrid(buf, rows, cols)
        invariant rows == old(rows) && cols == old(cols) && vars == old(vars)
        invariant forall r :: 0 <= r < row ==> buf[r] == Blank(rows, cols)[r]
      {
        var line := buf[row];
        var col := 0;
        while col < cols
          invariant 0 <= col <= cols && |line| == cols
          invariant forall c :: 0 <= c < col ==> line[c] == NUL
        {
          line := line[col := NUL];
          col := col + 1;
        }
        buf := buf[row := line];
        row := row + 1;
      }
      assert buf == Blank(rows, cols);
      status := true;
    }

    /**
     * The timer event handler: on a timer notification every variable is
     * repainted in list order; any other notification does nothing.
     */
    method EventHandler(isTimer: bool) returns (status: bool)
      requires Valid()
      modifies this
      ensures Valid() && status == isTimer && rows == old(rows) && cols == old(cols) && vars == old(vars)
      ensures buf == if isTimer then RenderAll(old(buf), Views(vars)) else old(buf)
    {
      if !isTimer {
        return false;
      }
      ghost var g := buf;
      ghost var views := Views(vars);
      var k := 0;
      while k < |vars|
        invariant 0 <= k <= |vars| && IsGrid(buf, rows, cols)
        invariant rows == old(rows) && cols == old(cols) && vars == old(vars)
        invariant buf == RenderAll(g, views[..k])
      {
        var v := vars[k];
        var row, col, length, val := v.row, v.col, v.length, v.value;
        if row < rows {
          var line := PaintLine(buf[row], col, length, val);
          buf := buf[row := line];
        }
        assert views[..k + 1][..k] == views[..k];
        k := k + 1;
      }
      assert views[..|vars|] == views;
      status := true;
    }
  }
}
