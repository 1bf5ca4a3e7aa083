/** The toboggan ride: a map of open squares and trees that repeats endlessly
    to the right, a slide that moves by a fixed slope until it leaves the
    bottom of the map, and the count of trees it meets on the way.
 */
module Toboggan {
  import opened Text

  //----------------------------------------------------------------------
  // Coordinates
  //----------------------------------------------------------------------

  /** A column and a row, counted from the top-left square. */
  datatype Vec2 = Vec2(x: nat, y: nat)
  {
    /** Adds `step`, wrapping the column around a map `max` squares wide. */
    function WrappingXAdd(step: Vec2, max: nat): (r: Vec2)
      requires max > 0
      ensures r.x < max && (x + step.x - r.x) % max == 0
      ensures r.y == y + step.y
    {
      var sum := x + step.x;
      assert sum == (sum / max) * max + sum % max;
      MulModShift(sum / max, 0, max);
      Vec2(sum % max, y + step.y)
    }
  }

  //----------------------------------------------------------------------
  // The map
  //----------------------------------------------------------------------

  datatype Position = Open | Tree

  datatype Map = Map(lines: seq<seq<Position>>)
  {
    function Height(): nat
    {
      |lines|
    }

    /** The width of the first row, which `width` reads without checking that
        the map has one. */
    function Width(): nat
      requires |lines| > 0
    {
      |lines[0]|
    }

    /** The square at `c`, or nothing once `c` is below the last row. */
    function At(c: Vec2): (p: Option<Position>)
      requires c.y < Height() ==> c.x < |lines[c.y]|
      ensures p.None? <==> c.y >= Height()
      ensures p.Some? ==> p.value == lines[c.y][c.x]
    {
      if c.y >= Height() then None else Some(lines[c.y][c.x])
    }
  }

  /** Every row as wide as the first, and the first not empty: what the slide
      needs so that wrapping and indexing cannot fail. */
  predicate Rectangular(m: Map)
  {
    && |m.lines| > 0
    && |m.lines[0]| > 0
    && forall i :: 0 <= i < |m.lines| ==> |m.lines[i]| == |m.lines[0]|
  }

  function Symbol(p: Position): char
  {
    match p
    case Open => '.'
    case Tree => '#'
  }

  /** One map character; any other character is refused and reported. */
  function Cell(c: char): (r: Result<Position, char>)
    ensures r.Ok? <==> c in ".#"
    ensures r.Ok? ==> Symbol(r.value) == c
    ensures r.Err? ==> r.error == c
  {
    if c == '.' then Ok(Open)
    else if c == '#' then Ok(Tree)
    else Err(c)
  }

  /** `Map::parse`: one row per line, one square per character. The first
      character that is neither `.` nor `#` is the error. */
  function ParseMap(raw: string): (r: Result<Map, char>)
    ensures r.Ok? <==> forall i, j :: 0 <= i < |Lines(raw)| && 0 <= j < |Lines(raw)[i]| ==>
                                       Lines(raw)[i][j] in ".#"
    ensures r.Ok? ==> |r.value.lines| == |Lines(raw)|
    ensures r.Ok? ==> forall i :: 0 <= i < |Lines(raw)| ==> |r.value.lines[i]| == |Lines(raw)[i]|
    ensures r.Ok? ==> forall i, j :: 0 <= i < |Lines(raw)| && 0 <= j < |Lines(raw)[i]| ==>
                                   Symbol(r.value.lines[i][j]) == Lines(raw)[i][j]
    ensures r.Err? ==> r.error !in ".#"
    ensures r.Err? ==>
              exists i, j :: 0 <= i < |Lines(raw)| && 0 <= j < |Lines(raw)[i]| && Lines(raw)[i][j] == r.error
                             && (forall a, b :: 0 <= a < i && 0 <= b < |Lines(raw)[a]| ==> Lines(raw)[a][b] in ".#")
                             && (forall b :: 0 <= b < j ==> Lines(raw)[i][b] in ".#")
  {
    var lines := Lines(raw);
    match MapResults(lines, ParseRow)
    case Err(c) =>
      RowsRefused(lines, c);
      Err(c)
    case Ok(rs) =>
      RowsRead(lines, rs);
      Ok(Map(rs))
  }

  /** Every line read as a row: one row per line, one square per character. */
  lemma RowsRead(lines: seq<string>, rows: seq<seq<Position>>)
    requires MapResults(lines, ParseRow) == Ok(rows)
    ensures forall i, j :: 0 <= i < |lines| && 0 <= j < |lines[i]| ==> lines[i][j] in ".#"
    ensures |rows| == |lines|
    ensures forall i :: 0 <= i < |lines| ==> |rows[i]| == |lines[i]|
    ensures forall i, j :: 0 <= i < |lines| && 0 <= j < |lines[i]| ==> Symbol(rows[i][j]) == lines[i][j]
  {
    assert forall i :: 0 <= i < |lines| ==> ParseRow(lines[i]) == Ok(rows[i]);
  }

  /** A line that is not a row: the error is the first character, line by
      line, that is neither `.` nor `#`. */
  lemma RowsRefused(lines: seq<string>, c: char)
    requires MapResults(lines, ParseRow) == Err(c)
    ensures c !in ".#"
    ensures exists i, j :: 0 <= i < |lines| && 0 <= j < |lines[i]| && lines[i][j] == c
                           && (forall a, b :: 0 <= a < i && 0 <= b < |lines[a]| ==> lines[a][b] in ".#")
                           && (forall b :: 0 <= b < j ==> lines[i][b] in ".#")
  {
    var i :| 0 <= i < |lines| && ParseRow(lines[i]) == Err(c)
              && forall a :: 0 <= a < i ==> ParseRow(lines[a]).Ok?;
    var j :| 0 <= j < |lines[i]| && lines[i][j] == c && forall b :: 0 <= b < j ==> lines[i][b] in ".#";
  }

  /** One row: one square per character. The first character that is
      neither `.` nor `#` is the error. */
  function ParseRow(line: string): (r: Result<seq<Position>, char>)
    ensures r.Ok? <==> forall j :: 0 <= j < |line| ==> line[j] in ".#"
    ensures r.Ok? ==> |r.value| == |line|
    ensures r.Ok? ==> forall j :: 0 <= j < |line| ==> Symbol(r.value[j]) == line[j]
    ensures r.Err? ==> r.error !in ".#"
    ensures r.Err? ==> exists j :: 0 <= j < |line| && line[j] == r.error
                                   && forall b :: 0 <= b < j ==> line[b] in ".#"
  {
    var cell := Cell;
    var r := MapResults(line, cell);
    assert r.Err? ==> exists j :: 0 <= j < |line| && line[j] == r.error && r.error !in ".#"
                                  && forall b :: 0 <= b < j ==> line[b] in ".#" by {
      if r.Err? {
        var j :| 0 <= j < |line| && cell(line[j]) == Err(r.error)
                  && forall b :: 0 <= b < j ==> cell(line[b]).Ok?;
        assert Cell(line[j]) == Err(r.error);
        assert forall b :: 0 <= b < j ==> Cell(line[b]).Ok?;
      }
    }
    assert r.Ok? <== forall j :: 0 <= j < |line| ==> line[j] in ".#" by {
      if forall j :: 0 <= j < |line| ==> line[j] in ".#" {
        assert forall j :: 0 <= j < |line| ==> cell(line[j]).Ok?;
      }
    }
    r
  }

  /** The map written out, one `\n`-terminated line per row. */
  function RenderMap(m: Map): string
  {
    Unlines(seq(|m.lines|, i requires 0 <= i < |m.lines| => RenderRow(m.lines[i])))
  }

  function RenderRow(row: seq<Position>): (line: string)
    ensures |line| == |row|
    ensures forall j :: 0 <= j < |row| ==> line[j] == Symbol(row[j])
  {
    seq(|row|, j requires 0 <= j < |row| => Symbol(row[j]))
  }

  /** Parsing a rendered map gives the map back. */
  lemma ParseRenderMap(m: Map)
    ensures ParseMap(RenderMap(m)) == Ok(m)
  {
    var rendered := seq(|m.lines|, i requires 0 <= i < |m.lines| => RenderRow(m.lines[i]));
    forall k | 0 <= k < |rendered|
      ensures '\n' !in rendered[k] && StripCarriageReturn(rendered[k]) == rendered[k]
    {
    }
    LinesOfUnlines(rendered);
    var r := ParseMap(RenderMap(m));
    assert r.Ok?;
    forall i | 0 <= i < |m.lines|
      ensures r.value.lines[i] == m.lines[i]
    {
      forall j | 0 <= j < |m.lines[i]|
        ensures r.value.lines[i][j] == m.lines[i][j]
      {
        assert Symbol(r.value.lines[i][j]) == Symbol(m.lines[i][j]);
      }
    }
    assert r.value.lines == m.lines;
  }

  //----------------------------------------------------------------------
  // The slide
  //----------------------------------------------------------------------

  /** `SlideIterator`: the map, the slope, and the last position reached. */
  datatype Slide = Slide(grid: Map, slope: Vec2, current: Vec2)

  /** `Toboggan::slide_to_bottom`: a slide that starts at the top-left square. */
  function SlideToBottom(m: Map, slope: Vec2): Slide
  {
    Slide(m, slope, Vec2(0, 0))
  }

  /** `SlideIterator::next`: move first, then look; the starting square is
      never yielded. */
  function Next(s: Slide): (r: (Slide, Option<Position>))
    requires Rectangular(s.grid)
    ensures r.0.grid == s.grid && r.0.slope == s.slope
    ensures r.0.current.y == s.current.y + s.slope.y
    ensures r.0.current.x < s.grid.Width()
    ensures r.1.None? <==> r.0.current.y >= s.grid.Height()
  {
    var c := s.current.WrappingXAdd(s.slope, s.grid.Width());
    (s.(current := c), s.grid.At(c))
  }

  /** The squares a `for` loop over the slide sees: each `next` up to the
      first one that yields nothing. A slope that never moves down never
      reaches the bottom, so the slope must move down. */
  function Ride(s: Slide): seq<Position>
    requires Rectangular(s.grid) && s.slope.y >= 1
    decreases s.grid.Height() - s.current.y
  {
    var (n, p) := Next(s);
    if p.None? then [] else [p.value] + Ride(n)
  }

  /** The square the slide reaches after `k` steps from the top-left corner. */
  function SquareOnSlope(m: Map, slope: Vec2, k: nat): Position
    requires Rectangular(m) && k * slope.y < m.Height()
  {
    m.lines[k * slope.y][(k * slope.x) % m.Width()]
  }

  //----------------------------------------------------------------------
  // Arithmetic on columns
  //----------------------------------------------------------------------

  lemma MulSubDist(a: int, b: int, w: int)
    ensures a * w - b * w == (a - b) * w
  {
  }

  lemma DivModUnique(y: int, w: int, a: int, r: int)
    requires w > 0 && 0 <= r < w && y == a * w + r
    ensures y / w == a && y % w == r
  {
    var a', r' := y / w, y % w;
    assert y == a' * w + r';
    MulSubDist(a', a, w);
    assert (a' - a) * w == r - r';
    if a' > a {
      MulAtLeast(a' - a, w);
    } else if a' < a {
      MulSubDist(a, a', w);
      MulAtLeast(a - a', w);
    }
  }

  lemma MulAtLeast(k: int, w: int)
    requires k >= 1 && w > 0
    ensures k * w >= w
  {
  }

  lemma MulModShift(q: nat, x: nat, w: nat)
    requires w > 0
    ensures (q * w + x) % w == x % w
  {
    DivModUnique(q * w + x, w, q + x / w, x % w);
  }

  lemma ModAddMod(a: nat, b: nat, w: nat)
    requires w > 0
    ensures (a % w + b) % w == (a + b) % w
  {
    var q := a / w;
    assert a == q * w + a % w;
    MulModShift(q, a % w + b, w);
  }

  lemma DivStep(a: nat, d: nat)
    requires d > 0
    ensures a < d ==> a / d == 0
    ensures a >= d ==> (a - d) / d + 1 == a / d
  {
    if a < d {
      DivModUnique(a, d, 0, a);
    } else {
      var q := (a - d) / d;
      var r := (a - d) % d;
      assert a - d == q * d + r;
      assert a == (q + 1) * d + r;
      DivModUnique(a, d, q + 1, r);
    }
  }

  /** The coordinate `k` steps of size `step` on from `start`, counted step
      by step so that the ride's proofs stay free of multiplication. */
  function Along(start: nat, step: nat, k: nat): nat
  {
    if k == 0 then start else Along(start, step, k - 1) + step
  }

  lemma {:induction false} AlongIsProduct(start: nat, step: nat, k: nat)
    ensures Along(start, step, k) == start + k * step
  {
    if k > 0 {
      AlongIsProduct(start, step, k - 1);
      assert (k - 1) * step + step == k * step;
    }
  }

  lemma {:induction false} AlongNext(start: nat, step: nat, k: nat)
    ensures Along(start + step, step, k) == Along(start, step, k + 1)
  {
    if k > 0 {
      AlongNext(start, step, k - 1);
    }
  }

  lemma {:induction false} AlongShift(start: nat, step: nat, k: nat)
    ensures Along(start, step, k) == start + Along(0, step, k)
  {
    if k > 0 {
      AlongShift(start, step, k - 1);
    }
  }

  /** Wrapping the start column first does not change where the slide lands. */
  lemma AlongMod(start: nat, step: nat, k: nat, w: nat)
    requires w > 0
    ensures Along(start % w, step, k) % w == Along(start, step, k) % w
  {
    AlongShift(start % w, step, k);
    AlongShift(start, step, k);
    ModAddMod(start, Along(0, step, k), w);
  }

  /** The `k`-th of `squares` is the one `k` slopes on from `start`. */
  predicate Visits(squares: seq<Position>, m: Map, start: Vec2, slope: Vec2)
    requires Rectangular(m)
  {
    forall k :: 1 <= k <= |squares| ==>
      && Along(start.y, slope.y, k) < m.Height()
      && squares[k - 1] == m.lines[Along(start.y, slope.y, k)][Along(start.x, slope.x, k) % m.Width()]
  }

  /** One step of the ride: nothing once the next square is below the map,
      otherwise that square followed by the ride from it. */
  lemma RideStep(s: Slide)
    requires Rectangular(s.grid) && s.slope.y >= 1
    ensures s.current.y + s.slope.y >= s.grid.Height() ==> Ride(s) == []
    ensures s.current.y + s.slope.y < s.grid.Height() ==>
              var next := s.(current := Vec2((s.current.x + s.slope.x) % s.grid.Width(), s.current.y + s.slope.y));
              Ride(s) == [s.grid.lines[next.current.y][next.current.x]] + Ride(next)
  {
  }

  /** The slide from row `y` yields one square for every whole slope that
      still fits above the last row. */
  lemma {:induction false} RideLength(s: Slide)
    requires Rectangular(s.grid) && s.slope.y >= 1
    requires s.current.y < s.grid.Height()
    ensures |Ride(s)| == (s.grid.Height() - 1 - s.current.y) / s.slope.y
    decreases s.grid.Height() - s.current.y
  {
    var h, dy := s.grid.Height(), s.slope.y;
    RideStep(s);
    DivStep(h - 1 - s.current.y, dy);
    if s.current.y + dy < h {
      RideLength(s.(current := Vec2((s.current.x + s.slope.x) % s.grid.Width(), s.current.y + dy)));
    }
  }

  /** Starting from any square of a rectangular map, the slide meets the
      squares `k` slopes further on, `k = 1, 2, ...`, for as long as they are
      on the map. */
  lemma {:induction false} RideVisitsSlope(s: Slide)
    requires Rectangular(s.grid) && s.slope.y >= 1
    requires s.current.x < s.grid.Width()
    ensures Visits(Ride(s), s.grid, s.current, s.slope)
    decreases s.grid.Height() - s.current.y
  {
    var h, w := s.grid.Height(), s.grid.Width();
    var dx, dy := s.slope.x, s.slope.y;
    var cx, cy := s.current.x, s.current.y;
    RideStep(s);
    if cy + dy < h {
      var n := s.(current := Vec2((cx + dx) % w, cy + dy));
      RideVisitsSlope(n);
      var rest := Ride(n);
      var ride := Ride(s);
      assert Visits(rest, s.grid, n.current, s.slope);
      forall k | 1 <= k <= |ride|
        ensures Along(cy, dy, k) < h
        ensures ride[k - 1] == s.grid.lines[Along(cy, dy, k)][Along(cx, dx, k) % w]
      {
        if k == 1 {
          assert Along(cy, dy, 1) == cy + dy;
          assert Along(cx, dx, 1) == cx + dx;
        } else {
          assert ride[k - 1] == rest[k - 2];
          assert Along(n.current.y, dy, k - 1) < h;
          AlongNext(cy, dy, k - 1);
          AlongNext(cx, dx, k - 1);
          AlongMod(cx + dx, dx, k - 1, w);
        }
      }
    }
  }

  /** The ride from the top-left corner, square by square. */
  lemma RideFromCorner(m: Map, slope: Vec2)
    requires Rectangular(m) && slope.y >= 1
    ensures |Ride(SlideToBottom(m, slope))| == (m.Height() - 1) / slope.y
    ensures forall k :: 1 <= k <= |Ride(SlideToBottom(m, slope))| ==>
              k * slope.y < m.Height() && Ride(SlideToBottom(m, slope))[k - 1] == SquareOnSlope(m, slope, k)
  {
    var ride := Ride(SlideToBottom(m, slope));
    RideLength(SlideToBottom(m, slope));
    RideVisitsSlope(SlideToBottom(m, slope));
    assert Visits(ride, m, Vec2(0, 0), slope);
    forall k | 1 <= k <= |ride|
      ensures k * slope.y < m.Height() && ride[k - 1] == SquareOnSlope(m, slope, k)
    {
      VisitFromCorner(ride, m, slope, k);
    }
  }

  lemma VisitFromCorner(ride: seq<Position>, m: Map, slope: Vec2, k: nat)
    requires Rectangular(m) && Visits(ride, m, Vec2(0, 0), slope) && 1 <= k <= |ride|
    ensures k * slope.y < m.Height() && ride[k - 1] == SquareOnSlope(m, slope, k)
  {
    assert Along(0, slope.y, k) < m.Height();
    AlongIsProduct(0, slope.y, k);
    AlongIsProduct(0, slope.x, k);
  }

  //----------------------------------------------------------------------
  // Counting trees
  //----------------------------------------------------------------------

  function Trees(squares: seq<Position>): nat
  {
    if |squares| == 0 then 0
    else Trees(squares[..|squares| - 1]) + (if squares[|squares| - 1] == Tree then 1 else 0)
  }

  lemma {:induction false} TreesAppend(a: seq<Position>, b: seq<Position>)
    ensures Trees(a + b) == Trees(a) + Trees(b)
    decreases |b|
  {
    if |b| > 0 {
      assert (a + b)[..|a + b| - 1] == a + b[..|b| - 1];
      TreesAppend(a, b[..|b| - 1]);
    } else {
      assert a + b == a;
    }
  }

  /** The reference count: trees among the first `k` squares down the slope. */
  function TreesOnSlope(m: Map, slope: Vec2, k: nat): nat
    requires Rectangular(m) && k * slope.y < m.Height()
  {
    if k == 0 then 0
    else
      assert (k - 1) * slope.y <= k * slope.y;
      TreesOnSlope(m, slope, k - 1) + (if SquareOnSlope(m, slope, k) == Tree then 1 else 0)
  }

  lemma {:induction false} TreesMatchSlope(m: Map, slope: Vec2, squares: seq<Position>, k: nat)
    requires Rectangular(m) && k <= |squares| && k * slope.y < m.Height()
    requires forall i :: 1 <= i <= k ==> i * slope.y < m.Height() && squares[i - 1] == SquareOnSlope(m, slope, i)
    ensures Trees(squares[..k]) == TreesOnSlope(m, slope, k)
    decreases k
  {
    if k > 0 {
      assert (k - 1) * slope.y <= k * slope.y;
      TreesMatchSlope(m, slope, squares, k - 1);
      assert squares[..k][..k - 1] == squares[..k - 1];
    }
  }

  /** `count_trees`: drive the slide to the bottom, counting trees. */
  method CountTrees(m: Map, slope: Vec2) returns (count: nat)
    requires Rectangular(m) && slope.y >= 1
    ensures count == TreesOnSlope(m, slope, (m.Height() - 1) / slope.y)
    ensures count <= (m.Height() - 1) / slope.y
  {
    var start := SlideToBottom(m, slope);
    var slide := start;
    var step := Next(slide);
    count := 0;
    while step.1.Some?
      invariant slide.grid == m && slide.slope == slope
      invariant slide.current.x < m.Width() && slide.current.y < m.Height()
      invariant step == Next(slide)
      invariant count + Trees(Ride(slide)) == Trees(Ride(start))
      decreases m.Height() - slide.current.y
    {
      var square := step.1.value;
      assert Ride(slide) == [square] + Ride(step.0);
      TreesAppend([square], Ride(step.0));
      assert Trees([square]) == (if square == Tree then 1 else 0) by {
        assert [square][..0] == [];
      }
      if square == Tree {
        count := count + 1;
      }
      slide := step.0;
      step := Next(slide);
    }
    var ride := Ride(start);
    RideFromCorner(m, slope);
    var k := (m.Height() - 1) / slope.y;
    assert k * slope.y <= m.Height() - 1;
    TreesMatchSlope(m, slope, ride, k);
    assert ride[..k] == ride;
    TreesAtMostLength(ride);
  }

  lemma {:induction false} TreesAtMostLength(squares: seq<Position>)
    ensures Trees(squares) <= |squares|
    decreases |squares|
  {
    if |squares| > 0 {
      TreesAtMostLength(squares[..|squares| - 1]);
    }
  }

  //----------------------------------------------------------------------
  // The unit test's example
  //----------------------------------------------------------------------

  /** A row of squares read from its picture, `#` for a tree. */
  function Row(picture: string): (row: seq<Position>)
    ensures |row| == |picture|
  {
    seq(|picture|, j requires 0 <= j < |picture| => if picture[j] == '#' then Tree else Open)
  }

  const SampleMap: Map := Map([
    Row("..##......."),
    Row("#...#...#.."),
    Row(".#....#..#."),
    Row("..#.#...#.#"),
    Row(".#...##..#."),
    Row("..#.##....."),
    Row(".#.#.#....#"),
    Row(".#........#"),
    Row("#.##...#..."),
    Row("#...##....#"),
    Row(".#..#...#.#")])

  /** The squares the slope right 3, down 1 meets on the example map. */
  const SampleSquares: seq<Position> := [Open, Tree, Open, Tree, Tree, Open, Tree, Tree, Tree, Tree]

  lemma SampleSquare(k: nat)
    requires 1 <= k <= 10
    ensures Rectangular(SampleMap) && k * 1 < SampleMap.Height()
    ensures SquareOnSlope(SampleMap, Vec2(3, 1), k) == SampleSquares[k - 1]
  {
    var col := (k * 3) % 11;
    assert col == [3, 6, 9, 1, 4, 7, 10, 2, 5, 8][k - 1];
  }

  /** On the example map, the slope right 3, down 1 meets 7 trees. */
  lemma {:induction false} SampleTrees(k: nat)
    requires k <= 10
    ensures Rectangular(SampleMap)
    ensures TreesOnSlope(SampleMap, Vec2(3, 1), k) == Trees(SampleSquares[..k])
  {
    if k > 0 {
      SampleTrees(k - 1);
      SampleSquare(k);
      assert SampleSquares[..k][..k - 1] == SampleSquares[..k - 1];
    }
  }

  lemma SampleMapHasSevenTrees()
    ensures Rectangular(SampleMap)
    ensures TreesOnSlope(SampleMap, Vec2(3, 1), (SampleMap.Height() - 1) / 1) == 7
  {
    SampleTrees(10);
    assert SampleSquares[..10] == SampleSquares;
    assert Trees(SampleSquares) == 7 by {
      var s := SampleSquares;
      assert s[..9][..8] == s[..8] && s[..8][..7] == s[..7] && s[..7][..6] == s[..6];
      assert s[..6][..5] == s[..5] && s[..5][..4] == s[..4] && s[..4][..3] == s[..3];
      assert s[..3][..2] == s[..2] && s[..2][..1] == s[..1] && s[..1][..0] == s[..0];
      assert s[..10][..9] == s[..9] && s[..10] == s;
    }
  }
}
