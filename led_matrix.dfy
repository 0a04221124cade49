/** `LedMatrix`: a view of an LED strip laid out as a `base_width` by
    `base_height` grid, wired in one of four patterns from one of four
    corners, through a rectangular sub-matrix window that may be mirrored
    along either axis. Lookups give the strip index; the strip itself (the
    colour array) is not modelled. All coordinates are non-negative; the
    unsigned subtractions `n - (i + 1)` are only taken with `i < n`. */
module LedMatrices {
  import opened CppArith

  datatype WiringPattern = HorizontalLines | HorizontalZigZag | VerticalLines | VerticalZigZag

  datatype WiringStart = TopLeft | TopRight | BottomLeft | BottomRight

  /** The enumerators' values, 0 to 3 in declaration order. */
  function PatternValue(p: WiringPattern): (v: nat)
    ensures v < 4
  {
    match p
    case HorizontalLines => 0
    case HorizontalZigZag => 1
    case VerticalLines => 2
    case VerticalZigZag => 3
  }

  function StartValue(s: WiringStart): (v: nat)
    ensures v < 4
  {
    match s
    case TopLeft => 0
    case TopRight => 1
    case BottomLeft => 2
    case BottomRight => 3
  }

  /** Each enumeration has exactly four values, numbered without gaps or
      repeats, so a switch over the pattern and the start covers every case. */
  lemma EnumValuesAreExact(p: WiringPattern, q: WiringPattern, s: WiringStart, t: WiringStart, v: nat)
    ensures PatternValue(p) == PatternValue(q) ==> p == q
    ensures StartValue(s) == StartValue(t) ==> s == t
    ensures v < 4 ==> (exists p' :: PatternValue(p') == v) && (exists s' :: StartValue(s') == v)
  {
    if v < 4 {
      var ps := [HorizontalLines, HorizontalZigZag, VerticalLines, VerticalZigZag];
      var ss := [TopLeft, TopRight, BottomLeft, BottomRight];
      assert PatternValue(ps[v]) == v;
      assert StartValue(ss[v]) == v;
    }
  }

  /** `n - (i + 1)`: position `i` counted from the other end. */
  function Flip(i: nat, n: nat): (r: nat)
    requires i < n
    ensures r < n
  {
    n - (i + 1)
  }

  datatype LedMatrix = LedMatrix(
    baseWidth: nat, baseHeight: nat,
    start: WiringStart, pattern: WiringPattern,
    rowOffset: nat, columnOffset: nat,
    subWidth: nat, subHeight: nat,
    reverseRows: bool, reverseColumns: bool)
  {
    /** `width()`: the window's width. */
    function Width(): (w: nat)
      ensures w == subWidth
    {
      subWidth
    }

    /** `height()`: the window's height. */
    function Height(): (h: nat)
      ensures h == subHeight
    {
      subHeight
    }

    /** `size()`. */
    function Size(): (n: nat)
      ensures n == 0 <==> Width() == 0 || Height() == 0
    {
      ProductZero(Width(), Height());
      Width() * Height()
    }

    /** The window lies inside the grid. */
    predicate Fits()
    {
      rowOffset + subHeight <= baseHeight && columnOffset + subWidth <= baseWidth
    }

    /** `submat(...)`: the same grid seen through another window. */
    function Submat(rowOffset': nat, columnOffset': nat, width': nat, height': nat,
                    reverseRows': bool, reverseColumns': bool): (m: LedMatrix)
      ensures m.baseWidth == baseWidth && m.baseHeight == baseHeight
      ensures m.start == start && m.pattern == pattern
      ensures m.Width() == width' && m.Height() == height'
      ensures m.rowOffset == rowOffset' && m.columnOffset == columnOffset'
      ensures m.reverseRows == reverseRows' && m.reverseColumns == reverseColumns'
    {
      this.(rowOffset := rowOffset', columnOffset := columnOffset',
            subWidth := width', subHeight := height',
            reverseRows := reverseRows', reverseColumns := reverseColumns')
    }

    /** `basemat()` as written: the copy's window fields are assigned the
        receiver's own, so nothing is reset. */
    function BasematAsWritten(): (m: LedMatrix)
      ensures m.Width() == Width() && m.Height() == Height()
    {
      this.(rowOffset := rowOffset, columnOffset := columnOffset,
            subWidth := subWidth, subHeight := subHeight,
            reverseRows := reverseRows, reverseColumns := reverseColumns)
    }

    /** `basemat()` as its comment describes it: the window reset to the
        whole grid, unmirrored. */
    function Basemat(): (m: LedMatrix)
      ensures m.Fits() && m.Size() == baseWidth * baseHeight
    {
      NewMatrix(baseWidth, baseHeight, start, pattern)
    }
  }

  /** `LedMatrix(leds, width, height, start, pattern)`: the window is the
      whole grid, unmirrored. */
  function NewMatrix(width: nat, height: nat, start: WiringStart, pattern: WiringPattern): (m: LedMatrix)
    ensures m.baseWidth == width && m.baseHeight == height && m.start == start && m.pattern == pattern
    ensures m.Fits() && m.Width() == width && m.Height() == height
    ensures m.Size() == width * height
  {
    LedMatrix(width, height, start, pattern, 0, 0, width, height, false, false)
  }

  // ---------------------------------------------------------------------
  // From the grid to the strip

  /** `matrix_index_to_led_string_index`: the strip index of grid cell
      (`row`, `column`), case by case. */
  function LedIndex(m: LedMatrix, row: nat, column: nat): (i: int)
    requires row < m.baseHeight && column < m.baseWidth
    ensures i == LineOf(m, row, column) * LineLength(m) + PlaceOf(m, row, column)
  {
    var w, h := m.baseWidth, m.baseHeight;
    match m.pattern
    case HorizontalLines => (
      match m.start
      case TopLeft => row * w + column
      case TopRight => row * w + Flip(column, w)
      case BottomLeft => Flip(row, h) * w + column
      case BottomRight => Flip(row, h) * w + Flip(column, w))
    case HorizontalZigZag => (
      match m.start
      case TopLeft => row * w + (if row % 2 == 0 then column else Flip(column, w))
      case TopRight => row * w + (if row % 2 == 0 then Flip(column, w) else column)
      case BottomLeft => Flip(row, h) * w + (if Flip(row, h) % 2 == 0 then column else Flip(column, w))
      case BottomRight => Flip(row, h) * w + (if Flip(row, h) % 2 == 0 then Flip(column, w) else column))
    case VerticalLines => (
      match m.start
      case TopLeft => column * h + row
      case BottomLeft => column * h + Flip(row, h)
      case TopRight => Flip(column, w) * h + row
      case BottomRight => Flip(column, w) * h + Flip(row, h))
    case VerticalZigZag => (
      match m.start
      case TopLeft => column * h + (if column % 2 == 0 then row else Flip(row, h))
      case BottomLeft => column * h + (if column % 2 == 0 then Flip(row, h) else row)
      case TopRight => Flip(column, w) * h + (if Flip(column, w) % 2 == 0 then row else Flip(row, h))
      case BottomRight => Flip(column, w) * h + (if Flip(column, w) % 2 == 0 then Flip(row, h) else row))
  }

  predicate Horizontal(p: WiringPattern)
  {
    p == HorizontalLines || p == HorizontalZigZag
  }

  predicate ZigZag(p: WiringPattern)
  {
    p == HorizontalZigZag || p == VerticalZigZag
  }

  predicate FromBottom(s: WiringStart)
  {
    s == BottomLeft || s == BottomRight
  }

  predicate FromRight(s: WiringStart)
  {
    s == TopRight || s == BottomRight
  }

  /** How many wires (rows or columns) the strip runs along, and how many
      LEDs each has. */
  function Lines(m: LedMatrix): nat
  {
    if Horizontal(m.pattern) then m.baseHeight else m.baseWidth
  }

  function LineLength(m: LedMatrix): nat
  {
    if Horizontal(m.pattern) then m.baseWidth else m.baseHeight
  }

  /** Which wire a cell is on, counted from the start corner. */
  function LineOf(m: LedMatrix, row: nat, column: nat): (l: nat)
    requires row < m.baseHeight && column < m.baseWidth
    ensures l < Lines(m)
  {
    if Horizontal(m.pattern) then (if FromBottom(m.start) then Flip(row, m.baseHeight) else row)
    else (if FromRight(m.start) then Flip(column, m.baseWidth) else column)
  }

  /** Whether wire `line` runs against the start corner's direction: always
      for a start on the far side, and on odd wires of a zig-zag. */
  predicate Backwards(m: LedMatrix, line: nat)
  {
    (if Horizontal(m.pattern) then FromRight(m.start) else FromBottom(m.start))
      != (ZigZag(m.pattern) && line % 2 == 1)
  }

  /** Where along its wire a cell is. */
  function PlaceOf(m: LedMatrix, row: nat, column: nat): (k: nat)
    requires row < m.baseHeight && column < m.baseWidth
    ensures k < LineLength(m)
  {
    var along := if Horizontal(m.pattern) then column else row;
    var n := LineLength(m);
    if Backwards(m, LineOf(m, row, column)) then Flip(along, n) else along
  }

  /** Every one of the sixteen cases is "wire number times wire length
      plus place on the wire", where zig-zag wiring runs forwards on even
      wires and backwards on odd ones (numbered from the start corner). */
  lemma LedIndexIsWireMajor(m: LedMatrix, row: nat, column: nat)
    requires row < m.baseHeight && column < m.baseWidth
    ensures LedIndex(m, row, column) == LineOf(m, row, column) * LineLength(m) + PlaceOf(m, row, column)
  {
  }

  /** The grid cell at place `k` of wire `line`. */
  function CellAt(m: LedMatrix, line: nat, k: nat): (rc: (nat, nat))
    requires line < Lines(m) && k < LineLength(m)
    ensures rc.0 < m.baseHeight && rc.1 < m.baseWidth
  {
    var along := if Backwards(m, line) then Flip(k, LineLength(m)) else k;
    if Horizontal(m.pattern) then
      (if FromBottom(m.start) then Flip(line, m.baseHeight) else line, along)
    else
      (along, if FromRight(m.start) then Flip(line, m.baseWidth) else line)
  }

  /** The grid cell at strip index `i`: the inverse of `LedIndex`. */
  function CellOf(m: LedMatrix, i: nat): (rc: (nat, nat))
    requires i < m.baseWidth * m.baseHeight
    ensures rc.0 < m.baseHeight && rc.1 < m.baseWidth
  {
    SplitIndex(i, LineLength(m), Lines(m));
    CellAt(m, i / LineLength(m), i % LineLength(m))
  }

  predicate Adjacent(a: (nat, nat), b: (nat, nat))
  {
    Abs(a.0 - b.0) + Abs(a.1 - b.1) == 1
  }

  /** Neighbouring places on one wire are neighbouring cells. */
  lemma AlongWireAdjacent(m: LedMatrix, line: nat, k: nat)
    requires line < Lines(m) && k + 1 < LineLength(m)
    ensures Adjacent(CellAt(m, line, k), CellAt(m, line, k + 1))
  {
  }

  /** On a zig-zag, the end of one wire is next to the start of the next. */
  lemma AcrossWiresAdjacent(m: LedMatrix, line: nat)
    requires ZigZag(m.pattern) && line + 1 < Lines(m) && 0 < LineLength(m)
    ensures Adjacent(CellAt(m, line, LineLength(m) - 1), CellAt(m, line + 1, 0))
  {
    assert Backwards(m, line) != Backwards(m, line + 1);
  }

  /** `line * len + k` with `k < len` stays below `lines * len`. */
  lemma WireMajorBound(line: nat, k: nat, len: nat, lines: nat)
    requires line < lines && k < len
    ensures 0 <= line * len + k < lines * len
  {
    MulMonotone(0, line, len);
    assert (line + 1) * len == line * len + len;
    MulMonotone(line + 1, lines, len);
  }

  lemma MulMonotone(a: nat, b: nat, c: nat)
    requires a <= b
    ensures a * c <= b * c
  {
    assert b * c == a * c + (b - a) * c;
  }

  /** An index below `lines * len` splits into a wire and a place. */
  lemma SplitIndex(i: nat, len: nat, lines: nat)
    requires i < len * lines
    ensures len > 0 && i / len < lines && i % len < len
    ensures i == (i / len) * len + i % len
  {
    if lines <= i / len {
      MulMonotone(lines, i / len, len);
    }
  }

  /** Every cell of the grid lands on the strip. */
  lemma LedIndexBounds(m: LedMatrix, row: nat, column: nat)
    requires row < m.baseHeight && column < m.baseWidth
    ensures 0 <= LedIndex(m, row, column) < m.baseWidth * m.baseHeight
  {
    LedIndexIsWireMajor(m, row, column);
    WireMajorBound(LineOf(m, row, column), PlaceOf(m, row, column), LineLength(m), Lines(m));
  }

  /** Reading a cell's strip index back gives the cell: no two cells share
      an LED. */
  lemma CellOfLedIndex(m: LedMatrix, row: nat, column: nat)
    requires row < m.baseHeight && column < m.baseWidth
    ensures 0 <= LedIndex(m, row, column) < m.baseWidth * m.baseHeight
    ensures CellOf(m, LedIndex(m, row, column)) == (row, column)
  {
    LedIndexBounds(m, row, column);
    LedIndexIsWireMajor(m, row, column);
    var line, k := LineOf(m, row, column), PlaceOf(m, row, column);
    var i := LedIndex(m, row, column);
    ModUnique(i, LineLength(m), line, k);
    assert CellOf(m, i) == CellAt(m, line, k);
    CellAtInvertsPlace(m, row, column);
  }

  /** The wire and place of a cell lead back to the cell. */
  lemma CellAtInvertsPlace(m: LedMatrix, row: nat, column: nat)
    requires row < m.baseHeight && column < m.baseWidth
    ensures CellAt(m, LineOf(m, row, column), PlaceOf(m, row, column)) == (row, column)
  {
  }

  /** Every LED of the strip is the index of a cell: the wiring covers
      the strip. */
  lemma LedIndexOfCellOf(m: LedMatrix, i: nat)
    requires i < m.baseWidth * m.baseHeight
    ensures LedIndex(m, CellOf(m, i).0, CellOf(m, i).1) == i
  {
    var len := LineLength(m);
    SplitIndex(i, len, Lines(m));
    var q, r := i / len, i % len;
    assert CellOf(m, i) == CellAt(m, q, r);
    var (row, column) := CellAt(m, q, r);
    PlaceOfCellAt(m, q, r);
    LedIndexIsWireMajor(m, row, column);
  }

  /** A cell found from its wire and place is on that wire, at that place. */
  lemma PlaceOfCellAt(m: LedMatrix, line: nat, k: nat)
    requires line < Lines(m) && k < LineLength(m)
    ensures LineOf(m, CellAt(m, line, k).0, CellAt(m, line, k).1) == line
    ensures PlaceOf(m, CellAt(m, line, k).0, CellAt(m, line, k).1) == k
  {
  }

  /** With zig-zag wiring the strip is one unbroken path: consecutive LEDs
      sit on cells that share an edge. */
  lemma ZigZagIsContinuous(m: LedMatrix, i: nat)
    requires ZigZag(m.pattern) && i + 1 < m.baseWidth * m.baseHeight
    ensures Adjacent(CellOf(m, i), CellOf(m, i + 1))
  {
    var len := LineLength(m);
    NextIndex(i, len, Lines(m));
    NextCell(m, i, i / len, i % len);
  }

  /** The cells of LED `i` and LED `i + 1`, from the wire and place of `i`. */
  lemma NextCell(m: LedMatrix, i: nat, q: nat, r: nat)
    requires ZigZag(m.pattern) && i + 1 < m.baseWidth * m.baseHeight
    requires 0 < LineLength(m) && q == i / LineLength(m) && r == i % LineLength(m)
    requires q < Lines(m) && r < LineLength(m)
    requires r + 1 < LineLength(m) ==> (i + 1) / LineLength(m) == q && (i + 1) % LineLength(m) == r + 1
    requires r + 1 == LineLength(m) ==> (i + 1) / LineLength(m) == q + 1 < Lines(m) && (i + 1) % LineLength(m) == 0
    ensures Adjacent(CellOf(m, i), CellOf(m, i + 1))
  {
    assert CellOf(m, i) == CellAt(m, q, r);
    if r + 1 < LineLength(m) {
      assert CellOf(m, i + 1) == CellAt(m, q, r + 1);
      AlongWireAdjacent(m, q, r);
    } else {
      assert CellOf(m, i + 1) == CellAt(m, q + 1, 0);
      AcrossWiresAdjacent(m, q);
    }
  }

  /** The wire and place of the next index: one further along the same
      wire, or the start of the next wire. */
  lemma NextIndex(i: nat, len: nat, lines: nat)
    requires i + 1 < len * lines
    ensures 0 < len && i / len < lines && i % len < len
    ensures i % len + 1 < len ==> (i + 1) / len == i / len && (i + 1) % len == i % len + 1
    ensures i % len + 1 == len ==> (i + 1) / len == i / len + 1 < lines && (i + 1) % len == 0
  {
    SplitIndex(i, len, lines);
    SplitIndex(i + 1, len, lines);
    var q, r := i / len, i % len;
    if r + 1 < len {
      ModUnique(i + 1, len, q, r + 1);
    } else {
      assert i + 1 == (q + 1) * len + 0 by {
        assert (q + 1) * len == q * len + len;
      }
      ModUnique(i + 1, len, q + 1, 0);
    }
  }

  // ---------------------------------------------------------------------
  // From the window to the grid

  /** `submatrix_index_to_base_matrix_index`: offset plus the (possibly
      mirrored) position inside the window. */
  function BaseCell(m: LedMatrix, subrow: nat, subcolumn: nat): (rc: (nat, nat))
    requires subrow < m.subHeight && subcolumn < m.subWidth
    ensures m.Fits() ==> rc.0 < m.baseHeight && rc.1 < m.baseWidth
  {
    (m.rowOffset + (if m.reverseRows then Flip(subrow, m.subHeight) else subrow),
     m.columnOffset + (if m.reverseColumns then Flip(subcolumn, m.subWidth) else subcolumn))
  }

  /** Different window cells are different grid cells. */
  lemma BaseCellInjective(m: LedMatrix, r1: nat, c1: nat, r2: nat, c2: nat)
    requires r1 < m.subHeight && c1 < m.subWidth && r2 < m.subHeight && c2 < m.subWidth
    requires BaseCell(m, r1, c1) == BaseCell(m, r2, c2)
    ensures r1 == r2 && c1 == c2
  {
  }

  /** `operator()(row, column)`: the strip index of a window cell. */
  function At(m: LedMatrix, row: nat, column: nat): (i: nat)
    requires m.Fits() && row < m.Height() && column < m.Width()
    ensures i < m.baseWidth * m.baseHeight
  {
    var (r, c) := BaseCell(m, row, column);
    LedIndexBounds(m, r, c);
    LedIndex(m, r, c)
  }

  /** `operator[](k)`: the window read row by row. */
  function Index(m: LedMatrix, k: nat): (i: nat)
    requires m.Fits() && k < m.Size()
    ensures i < m.baseWidth * m.baseHeight
  {
    SplitIndex(k, m.Width(), m.Height());
    At(m, k / m.Width(), k % m.Width())
  }

  /** `operator[]` visits the window row by row: index `r * width + c`
      is cell (`r`, `c`). */
  lemma IndexIsRowMajor(m: LedMatrix, r: nat, c: nat)
    requires m.Fits() && r < m.Height() && c < m.Width()
    ensures r * m.Width() + c < m.Size()
    ensures Index(m, r * m.Width() + c) == At(m, r, c)
  {
    WireMajorBound(r, c, m.Width(), m.Height());
    ModUnique(r * m.Width() + c, m.Width(), r, c);
  }

  /** Through a window that fits, different cells light different LEDs. */
  lemma AtInjective(m: LedMatrix, r1: nat, c1: nat, r2: nat, c2: nat)
    requires m.Fits() && r1 < m.Height() && c1 < m.Width() && r2 < m.Height() && c2 < m.Width()
    requires At(m, r1, c1) == At(m, r2, c2)
    ensures r1 == r2 && c1 == c2
  {
    var (b1, d1) := BaseCell(m, r1, c1);
    var (b2, d2) := BaseCell(m, r2, c2);
    CellOfLedIndex(m, b1, d1);
    CellOfLedIndex(m, b2, d2);
    BaseCellInjective(m, r1, c1, r2, c2);
  }

  /** The fresh matrix reads the grid directly, and its indices are the
      strip in the grid's row-major order. */
  lemma NewMatrixIsWholeGrid(width: nat, height: nat, start: WiringStart, pattern: WiringPattern,
                             r: nat, c: nat)
    requires r < height && c < width
    ensures At(NewMatrix(width, height, start, pattern), r, c)
         == LedIndex(NewMatrix(width, height, start, pattern), r, c)
  {
  }

  // ---------------------------------------------------------------------
  // basemat

  /** `basemat()` as written returns its receiver unchanged, so on a
      window smaller than the grid it does not give back the grid; the
      reset version does, from any window. */
  lemma BasematAsWrittenKeepsWindow(m: LedMatrix, r: nat, c: nat, w: nat, h: nat)
    ensures m.BasematAsWritten() == m
    ensures m.Submat(r, c, w, h, false, false).BasematAsWritten().Width() == w
    ensures m.Submat(r, c, w, h, true, true).Basemat() == m.Basemat()
    ensures m.Basemat() == NewMatrix(m.baseWidth, m.baseHeight, m.start, m.pattern)
  {
  }

  /** A concrete case: the top-left 2 by 2 window of a 4 by 4 grid. */
  lemma BasematAsWrittenExample()
    ensures var m := NewMatrix(4, 4, TopLeft, HorizontalLines).Submat(0, 0, 2, 2, false, false);
            m.BasematAsWritten().Size() == 4 && m.Basemat().Size() == 16
  {
  }
}
