/** Bilinear interpolation between anchors: LinearUpscale.h.  A flat array with rows of a fixed length is
    a two-dimensional array here. */
module LinearUpscale {
  import opened CInts

  /** How the template's type interpolates: k of n steps from a to b. */
  type Lerp<!T> = (T, T, nat, nat) -> T

  lemma DivMod(q: nat, k: nat, s: nat)
    requires k < s
    ensures (q * s + k) / s == q && (q * s + k) % s == k
  {
    var y := q * s + k;
    var p, r := y / s, y % s;
    assert y == p * s + r;
    if p < q {
      MulLess(p, q, s);
    } else if p > q {
      MulLess(q, p, s);
    }
  }

  lemma DivBound(y: nat, s: nat, n: nat)
    requires s > 0 && y <= n * s
    ensures y / s <= n && (y % s != 0 ==> y / s < n)
  {
    var q, r := y / s, y % s;
    assert y == q * s + r;
    if q > n {
      MulLess(n, q, s);
    }
  }

  // ----- what upscaling means

  /** anchors[y][x] are the values at the anchors: cx by cy cells of sx by sy steps. */
  datatype Job<!T(!new)> = Job(lerp: Lerp<T>, anchors: seq<seq<T>>, cx: nat, cy: nat, sx: nat, sy: nat) {
    ghost predicate Valid() {
      sx > 0 && sy > 0 && |anchors| == cy + 1 && forall y :: 0 <= y <= cy ==> |anchors[y]| == cx + 1
    }

    ghost predicate OnColumn(x: nat) { sx > 0 && x % sx == 0 }
    ghost predicate OnRow(y: nat) { sy > 0 && y % sy == 0 }

    ghost function Width(): nat { cx * sx + 1 }
    ghost function Height(): nat { cy * sy + 1 }

    /** The value at height y on the line of the anchors number ax. */
    ghost function Column(ax: nat, y: nat): T
      requires Valid() && ax <= cx && y < Height()
    {
      DivBound(y, sy, cy);
      if y % sy == 0 then anchors[y / sy][ax] else lerp(anchors[y / sy][ax], anchors[y / sy + 1][ax], y % sy, sy)
    }

    /** The upscaled value. */
    ghost function At(x: nat, y: nat): T
      requires Valid() && x < Width() && y < Height()
    {
      DivBound(x, sx, cx);
      if x % sx == 0 then Column(x / sx, y) else lerp(Column(x / sx, y), Column(x / sx + 1, y), x % sx, sx)
    }

    lemma ColumnAt(ax: nat, ay: nat, k: nat)
      requires Valid() && ax <= cx && ay <= cy && k < sy && (k > 0 ==> ay < cy)
      ensures ay * sy + k < Height()
      ensures Column(ax, ay * sy + k) == if k == 0 then anchors[ay][ax]
        else lerp(anchors[ay][ax], anchors[ay + 1][ax], k, sy)
    {
      DivMod(ay, k, sy);
      MulLess(ay, cy, sy);
    }

    lemma RowAt(ax: nat, k: nat, y: nat)
      requires Valid() && ax <= cx && k < sx && (k > 0 ==> ax < cx) && y < Height()
      ensures ax * sx + k < Width()
      ensures At(ax * sx + k, y) == if k == 0 then Column(ax, y) else lerp(Column(ax, y), Column(ax + 1, y), k, sx)
    {
      DivMod(ax, k, sx);
      MulLess(ax, cx, sx);
    }

    /** lerp starts at the first value and ends at the second. */
    ghost predicate Exact() {
      && (forall a, b, n: nat :: n > 0 ==> lerp(a, b, 0, n) == a)
      && (forall a, b, n: nat :: n > 0 ==> lerp(a, b, n, n) == b)
    }

    /** Within a cell, its borders included, upscaling interpolates between the corners, first along y
        and then along x; so neighbouring cells agree on their common border. */
    lemma InCell(ax: nat, ay: nat, kx: nat, ky: nat)
      requires Valid() && Exact() && ax < cx && ay < cy && kx <= sx && ky <= sy
      ensures ax * sx + kx < Width() && ay * sy + ky < Height()
      ensures var left := lerp(anchors[ay][ax], anchors[ay + 1][ax], ky, sy);
        var right := lerp(anchors[ay][ax + 1], anchors[ay + 1][ax + 1], ky, sy);
        At(ax * sx + kx, ay * sy + ky) == lerp(left, right, kx, sx)
    {
      InColumn(ax, ay, ky);
      InColumn(ax + 1, ay, ky);
      if kx < sx {
        RowAt(ax, kx, ay * sy + ky);
      } else {
        assert ax * sx + sx == (ax + 1) * sx + 0;
        RowAt(ax + 1, 0, ay * sy + ky);
      }
    }

    lemma InColumn(ax: nat, ay: nat, ky: nat)
      requires Valid() && Exact() && ax <= cx && ay < cy && ky <= sy
      ensures ay * sy + ky < Height()
      ensures Column(ax, ay * sy + ky) == lerp(anchors[ay][ax], anchors[ay + 1][ax], ky, sy)
    {
      if ky < sy {
        ColumnAt(ax, ay, ky);
      } else {
        assert ay * sy + sy == (ay + 1) * sy + 0;
        ColumnAt(ax, ay + 1, 0);
      }
    }
  }

  // ----- in place

  ghost predicate Fits<T(!new)>(a: array2<T>, job: Job<T>) {
    job.Valid() && a.Length0 == job.Height() && a.Length1 == job.Width()
  }

  /** The anchor columns are done up to row y0, in the next cells the columns before x0, and in column x0
      the first rows. */
  ghost predicate ColumnsDone<T(!new)>(a: array2<T>, job: Job<T>, y0: nat, x0: nat, cell: nat)
    requires Fits(a, job)
    reads a
  {
    forall x: nat, y: nat {:trigger a[y, x]} ::
      x < a.Length1 && y < a.Length0 && job.OnColumn(x) && InColumns(job, y0, x0, cell, x, y) ==>
        a[y, x] == job.At(x, y)
  }

  ghost predicate InColumns<T(!new)>(job: Job<T>, y0: nat, x0: nat, cell: nat, x: nat, y: nat) {
    y <= y0 || job.OnRow(y) || (y < y0 + job.sy && x < x0) || (x == x0 && y < y0 + cell)
  }

  /** The rows before y0 are done, and row y0 up to column x0 and a few more. */
  ghost predicate RowsDone<T(!new)>(a: array2<T>, job: Job<T>, y0: nat, x0: nat, cell: nat)
    requires Fits(a, job)
    reads a
  {
    forall x: nat, y: nat {:trigger a[y, x]} ::
      x < a.Length1 && y < a.Length0 && InRows(job, y0, x0, cell, x, y) ==> a[y, x] == job.At(x, y)
  }

  ghost predicate InRows<T(!new)>(job: Job<T>, y0: nat, x0: nat, cell: nat, x: nat, y: nat) {
    y < y0 || job.OnColumn(x) || (y == y0 && (x <= x0 || x < x0 + cell))
  }

  /** The column from one anchor to the next. */
  method FillColumn<T(!new)>(a: array2<T>, lerp: Lerp<T>, step: nat, x0: nat, y0: nat, ghost job: Job<T>,
          ghost ax: nat, ghost ay: nat)
    requires Fits(a, job) && job.lerp == lerp && step == job.sy && ax <= job.cx && ay < job.cy && x0 == ax * job.sx
    requires y0 == ay * job.sy
    requires x0 < a.Length1 && job.OnColumn(x0) && y0 + step < a.Length0 && job.OnRow(y0 + step)
    requires ColumnsDone(a, job, y0, x0, 1)
    modifies a
    ensures ColumnsDone(a, job, y0, x0, step)
  {
    hide Job.At, Job.OnColumn, Job.OnRow, Job.Width, Job.Height;
    var start, end := a[y0, x0], a[y0 + step, x0];
    AnchorValue(job, ax, ay);
    AnchorValue(job, ax, ay + 1);
    NextAnchor(ay, job.sy);
    for cell := 1 to step
      invariant ColumnsDone(a, job, y0, x0, cell)
    {
      ColumnValue(job, ax, ay, cell);
      a[y0 + cell, x0] := lerp(start, end, cell, step);
    }
  }

  lemma NextAnchor(q: nat, s: nat)
    ensures (q + 1) * s == q * s + s
  {}

  lemma AnchorValue<T(!new)>(job: Job<T>, ax: nat, ay: nat)
    requires job.Valid() && ax <= job.cx && ay <= job.cy
    ensures ax * job.sx < job.Width() && ay * job.sy < job.Height()
    ensures job.At(ax * job.sx, ay * job.sy) == job.anchors[ay][ax]
  {
    job.ColumnAt(ax, ay, 0);
    job.RowAt(ax, 0, ay * job.sy);
  }

  lemma ColumnValue<T(!new)>(job: Job<T>, ax: nat, ay: nat, k: nat)
    requires job.Valid() && ax <= job.cx && ay < job.cy && 0 < k < job.sy
    ensures ax * job.sx < job.Width() && ay * job.sy + k < job.Height()
    ensures job.At(ax * job.sx, ay * job.sy + k) == job.lerp(job.anchors[ay][ax], job.anchors[ay + 1][ax], k, job.sy)
  {
    job.ColumnAt(ax, ay, k);
    job.RowAt(ax, 0, ay * job.sy + k);
  }

  /** The row from one anchor column to the next. */
  method FillRow<T(!new)>(a: array2<T>, lerp: Lerp<T>, step: nat, x0: nat, y0: nat, ghost job: Job<T>, ghost ax: nat)
    requires Fits(a, job) && job.lerp == lerp && step == job.sx && ax < job.cx && x0 == ax * job.sx
    requires y0 < a.Length0 && x0 + step < a.Length1 && job.OnColumn(x0) && job.OnColumn(x0 + step)
    requires RowsDone(a, job, y0, x0, 1)
    modifies a
    ensures RowsDone(a, job, y0, x0, step)
  {
    hide Job.At, Job.OnColumn, Job.OnRow, Job.Width, Job.Height, Job.Column;
    var start, end := a[y0, x0], a[y0, x0 + step];
    ColumnHere(job, ax, y0);
    NextAnchor(ax, job.sx);
    ColumnHere(job, ax + 1, y0);
    for cell := 1 to step
      invariant RowsDone(a, job, y0, x0, cell)
    {
      RowValue(job, ax, cell, y0);
      a[y0, x0 + cell] := lerp(start, end, cell, step);
    }
  }

  lemma ColumnHere<T(!new)>(job: Job<T>, ax: nat, y: nat)
    requires job.Valid() && ax <= job.cx && y < job.Height()
    ensures ax * job.sx < job.Width() && job.At(ax * job.sx, y) == job.Column(ax, y)
  {
    job.RowAt(ax, 0, y);
  }

  lemma RowValue<T(!new)>(job: Job<T>, ax: nat, k: nat, y: nat)
    requires job.Valid() && ax < job.cx && 0 < k < job.sx && y < job.Height()
    ensures ax * job.sx + k < job.Width()
    ensures job.At(ax * job.sx + k, y) == job.lerp(job.Column(ax, y), job.Column(ax + 1, y), k, job.sx)
  {
    job.RowAt(ax, k, y);
  }

  /** Multiples of the step up to the last one. */
  lemma Multiples(q: nat, s: nat, n: nat)
    requires s > 0
    ensures q * s < n * s + 1 <==> q <= n
    ensures q * s < n * s + 1 - s <==> q < n
    ensures (q * s) % s == 0
  {
    DivMod(q, 0, s);
    if q <= n {
      MulLess(q, n, s);
    } else {
      MulLess(n, q, s);
    }
  }

  lemma Between(x: nat, y: nat, s: nat)
    requires s > 0 && x % s == 0 && y % s == 0 && x < y + s
    ensures x <= y
  {
    var p, q := x / s, y / s;
    assert x == p * s && y == q * s;
    if p > q {
      MulLess(q, p, s);
    }
  }

  lemma NextColumn<T(!new)>(a: array2<T>, job: Job<T>, y0: nat, x0: nat)
    requires Fits(a, job) && ColumnsDone(a, job, y0, x0, job.sy) && job.OnColumn(x0)
    ensures ColumnsDone(a, job, y0, x0 + job.sx, 1)
  {
    hide Job.At, Job.Width, Job.Height;
    forall x: nat, y: nat | x < a.Length1 && y < a.Length0 && job.OnColumn(x) &&
      InColumns(job, y0, x0 + job.sx, 1, x, y)
      ensures InColumns(job, y0, x0, job.sy, x, y)
    {
      if x < x0 + job.sx {
        Between(x, x0, job.sx);
      }
    }
  }

  lemma NextCells<T(!new)>(a: array2<T>, job: Job<T>, y0: nat, x0: nat)
    requires Fits(a, job) && ColumnsDone(a, job, y0, x0, 1) && x0 >= a.Length1 && job.OnRow(y0 + job.sy)
    ensures ColumnsDone(a, job, y0 + job.sy, 0, 1)
  {
    hide Job.At, Job.OnColumn, Job.OnRow, Job.Width, Job.Height;
  }

  /** The first half of LinearUpscale2DArrayInPlace: the columns with anchors. */
  method FillColumns<T(!new)>(a: array2<T>, lerp: Lerp<T>, stepX: nat, stepY: nat, ghost job: Job<T>)
    requires Fits(a, job) && job.lerp == lerp && stepX == job.sx && stepY == job.sy
    requires ColumnsDone(a, job, 0, 0, 1)
    modifies a
    ensures RowsDone(a, job, 0, 0, 1)
  {
    hide Job.At, Job.Column, ColumnsDone, RowsDone;
    var lastYCell: int := a.Length0 - stepY;
    var y := 0;
    ghost var ay := 0;
    while y < lastYCell
      invariant y == ay * job.sy && ay <= job.cy && ColumnsDone(a, job, y, 0, 1)
      decreases lastYCell - y
    {
      Multiples(ay, job.sy, job.cy);
      Multiples(ay + 1, job.sy, job.cy);
      NextAnchor(ay, job.sy);
      var x := 0;
      ghost var ax := 0;
      while x < a.Length1
        invariant x == ax * job.sx && ColumnsDone(a, job, y, x, 1)
        decreases a.Length1 - x
      {
        Multiples(ax, job.sx, job.cx);
        NextAnchor(ax, job.sx);
        FillColumn(a, lerp, stepY, x, y, job, ax, ay);
        NextColumn(a, job, y, x);
        x := x + stepX;
        ax := ax + 1;
      }
      NextCells(a, job, y, x);
      y := y + stepY;
      ay := ay + 1;
    }
    Multiples(ay, job.sy, job.cy);
    ColumnsToRows(a, job, y);
  }

  lemma ColumnsToRows<T(!new)>(a: array2<T>, job: Job<T>, y: nat)
    requires Fits(a, job) && ColumnsDone(a, job, y, 0, 1) && y + 1 >= a.Length0
    ensures RowsDone(a, job, 0, 0, 1)
  {
    hide Job.At, Job.Width, Job.Height;
    assert job.OnColumn(0);
  }

  lemma NextInRow<T(!new)>(a: array2<T>, job: Job<T>, y0: nat, x0: nat)
    requires Fits(a, job) && RowsDone(a, job, y0, x0, job.sx) && job.OnColumn(x0 + job.sx)
    ensures RowsDone(a, job, y0, x0 + job.sx, 1)
  {
    hide Job.At, Job.Width, Job.Height, Job.OnColumn;
  }

  lemma NextRow<T(!new)>(a: array2<T>, job: Job<T>, y0: nat, x0: nat)
    requires Fits(a, job) && RowsDone(a, job, y0, x0, 1) && x0 + 1 >= a.Length1
    ensures RowsDone(a, job, y0 + 1, 0, 1)
  {
    hide Job.At, Job.Width, Job.Height;
    assert job.OnColumn(0);
  }

  /** The second half: every row has values in the anchor columns. */
  method FillRows<T(!new)>(a: array2<T>, lerp: Lerp<T>, stepX: nat, ghost job: Job<T>)
    requires Fits(a, job) && job.lerp == lerp && stepX == job.sx && RowsDone(a, job, 0, 0, 1)
    modifies a
    ensures RowsDone(a, job, a.Length0, 0, 1)
  {
    hide Job.At, Job.Column, RowsDone;
    var lastXCell: int := a.Length1 - stepX;
    for y := 0 to a.Length0
      invariant RowsDone(a, job, y, 0, 1)
    {
      var x := 0;
      ghost var ax := 0;
      while x < lastXCell
        invariant x == ax * job.sx && ax <= job.cx && RowsDone(a, job, y, x, 1)
        decreases lastXCell - x
      {
        Multiples(ax, job.sx, job.cx);
        Multiples(ax + 1, job.sx, job.cx);
        NextAnchor(ax, job.sx);
        FillRow(a, lerp, stepX, x, y, job, ax);
        NextInRow(a, job, y, x);
        x := x + stepX;
        ax := ax + 1;
      }
      Multiples(ax, job.sx, job.cx);
      NextRow(a, job, y, x);
    }
  }

  /** The array has the anchors where they belong. */
  ghost predicate AnchorsAre<T(!new)>(a: array2<T>, job: Job<T>)
    requires Fits(a, job)
    reads a
  {
    forall ax: nat, ay: nat {:trigger job.anchors[ay][ax]} :: ax <= job.cx && ay <= job.cy ==>
      ay * job.sy < a.Length0 && ax * job.sx < a.Length1 && a[ay * job.sy, ax * job.sx] == job.anchors[ay][ax]
  }

  lemma AnchorsStart<T(!new)>(a: array2<T>, job: Job<T>)
    requires Fits(a, job) && AnchorsAre(a, job)
    ensures ColumnsDone(a, job, 0, 0, 1)
  {
    hide Job.At;
    forall x: nat, y: nat | x < a.Length1 && y < a.Length0 && job.OnColumn(x) && InColumns(job, 0, 0, 1, x, y)
      ensures a[y, x] == job.At(x, y)
    {
      var ax, ay := x / job.sx, y / job.sy;
      DivBound(x, job.sx, job.cx);
      DivBound(y, job.sy, job.cy);
      Whole(x, job.sx);
      ZeroRow(job);
      Whole(y, job.sy);
      AnchorValue(job, ax, ay);
      assert job.anchors[ay][ax] == a[ay * job.sy, ax * job.sx];
    }
  }

  lemma Whole(x: nat, s: nat)
    requires s > 0 && x % s == 0
    ensures x == x / s * s
  {}

  lemma ZeroRow<T(!new)>(job: Job<T>)
    requires job.Valid()
    ensures job.OnRow(0)
  {}

  lemma RowsEnd<T(!new)>(a: array2<T>, job: Job<T>)
    requires Fits(a, job) && RowsDone(a, job, a.Length0, 0, 1)
    ensures forall x: nat, y: nat {:trigger a[y, x]} :: x < a.Length1 && y < a.Length0 ==> a[y, x] == job.At(x, y)
  {
    hide Job.At, Job.OnColumn, Job.Width, Job.Height;
  }

  /** LinearUpscale2DArrayInPlace; job holds the anchors as they were. */
  method LinearUpscale2DArrayInPlace<T(!new)>(a: array2<T>, lerp: Lerp<T>, stepX: nat, stepY: nat, ghost job: Job<T>)
    requires Fits(a, job) && AnchorsAre(a, job) && job.lerp == lerp && stepX == job.sx && stepY == job.sy
    modifies a
    ensures forall x: nat, y: nat {:trigger a[y, x]} :: x < a.Length1 && y < a.Length0 ==> a[y, x] == job.At(x, y)
    ensures AnchorsAre(a, job)
  {
    hide Job.At, Job.Column, ColumnsDone, RowsDone, AnchorsAre;
    AnchorsStart(a, job);
    FillColumns(a, lerp, stepX, stepY, job);
    FillRows(a, lerp, stepX, job);
    RowsEnd(a, job);
    AnchorsKept(a, job);
  }

  /** Every anchor keeps its value. */
  lemma AnchorsKept<T(!new)>(a: array2<T>, job: Job<T>)
    requires Fits(a, job)
    requires forall x: nat, y: nat {:trigger a[y, x]} :: x < a.Length1 && y < a.Length0 ==> a[y, x] == job.At(x, y)
    ensures AnchorsAre(a, job)
  {
    hide Job.At;
    forall ax: nat, ay: nat {:trigger job.anchors[ay][ax]} | ax <= job.cx && ay <= job.cy
      ensures ay * job.sy < a.Length0 && ax * job.sx < a.Length1 && a[ay * job.sy, ax * job.sx] == job.anchors[ay][ax]
    {
      AnchorValue(job, ax, ay);
    }
  }

  /** The anchors in one row. */
  ghost predicate RowIs<T(!new)>(a: array2<T>, y: nat, sx: nat, row: seq<T>)
    reads a
  {
    y < a.Length0 && forall x: nat {:trigger row[x]} :: x < |row| ==> x * sx < a.Length1 && row[x] == a[y, x * sx]
  }

  lemma RowOf<T(!new)>(a: array2<T>, y: nat, cx: nat, sx: nat) returns (row: seq<T>)
    requires sx > 0 && y < a.Length0 && a.Length1 == cx * sx + 1
    ensures |row| == cx + 1 && RowIs(a, y, sx, row)
  {
    row := [];
    for ax := 0 to cx + 1
      invariant |row| == ax && RowIs(a, y, sx, row)
    {
      MulLess(ax, cx, sx);
      row := row + [a[y, ax * sx]];
    }
  }

  /** Every array of the right size has a job. */
  lemma JobOf<T(!new)>(a: array2<T>, lerp: Lerp<T>, cx: nat, cy: nat, sx: nat, sy: nat) returns (job: Job<T>)
    requires sx > 0 && sy > 0 && a.Length0 == cy * sy + 1 && a.Length1 == cx * sx + 1
    ensures Fits(a, job) && AnchorsAre(a, job) && job.lerp == lerp
  {
    hide RowIs;
    var rows: seq<seq<T>> := [];
    for ay := 0 to cy + 1
      invariant |rows| == ay && forall y {:trigger rows[y]} :: 0 <= y < ay ==>
        |rows[y]| == cx + 1 && RowIs(a, y * sy, sx, rows[y])
    {
      MulLess(ay, cy, sy);
      var row := RowOf(a, ay * sy, cx, sx);
      rows := rows + [row];
    }
    job := Job(lerp, rows, cx, cy, sx, sy);
    RowsAre(a, job);
  }

  lemma RowAnchor<T(!new)>(a: array2<T>, y: nat, sx: nat, row: seq<T>, ax: nat)
    requires RowIs(a, y, sx, row) && ax < |row|
    ensures ax * sx < a.Length1 && row[ax] == a[y, ax * sx]
  {
    var v := row[ax];
    assert v == a[y, ax * sx];
  }

  lemma RowsAre<T(!new)>(a: array2<T>, job: Job<T>)
    requires Fits(a, job)
    requires forall y {:trigger job.anchors[y]} :: 0 <= y <= job.cy ==> RowIs(a, y * job.sy, job.sx, job.anchors[y])
    ensures AnchorsAre(a, job)
  {
    forall ax: nat, ay: nat {:trigger job.anchors[ay][ax]} | ax <= job.cx && ay <= job.cy
      ensures ay * job.sy < a.Length0 && ax * job.sx < a.Length1 && a[ay * job.sy, ax * job.sx] == job.anchors[ay][ax]
    {
      var row := job.anchors[ay];
      assert RowIs(a, ay * job.sy, job.sx, row) && ax < |row|;
      RowAnchor(a, ay * job.sy, job.sx, row, ax);
    }
  }

  // ----- from one array to another

  /** Done are the rows of cells before ay, and of this one the cells before ax. */
  ghost predicate CellsDone<T(!new)>(a: array2<T>, job: Job<T>, dx: nat, dy: nat, ax: nat, ay: nat)
    requires Fits(a, job)
    reads a
  {
    forall x: nat, y: nat {:trigger a[y, x]} ::
      x < a.Length1 && y < a.Length0 && InCells(job, dx, dy, ax, ay, x, y) ==> a[y, x] == job.At(x, y)
  }

  ghost predicate InCells<T(!new)>(job: Job<T>, dx: nat, dy: nat, ax: nat, ay: nat, x: nat, y: nat) {
    (ay > 0 && y <= dy) || (ax > 0 && dy <= y <= dy + job.sy && x <= dx)
  }

  /** In the cell at (dx, dy), r rows are done, and of the next row c columns. */
  ghost predicate CellDone<T(!new)>(a: array2<T>, job: Job<T>, dx: nat, dy: nat, r: nat, c: nat)
    requires Fits(a, job)
    reads a
  {
    forall x: nat, y: nat {:trigger a[y, x]} ::
      x < a.Length1 && y < a.Length0 && InCell(job, dx, dy, r, c, x, y) ==> a[y, x] == job.At(x, y)
  }

  ghost predicate InCell<T(!new)>(job: Job<T>, dx: nat, dy: nat, r: nat, c: nat, x: nat, y: nat) {
    dx <= x <= dx + job.sx && dy <= y && (y < dy + r || (y == dy + r && x < dx + c))
  }

  /** The share r of the way from a to b. */
  function Mix(a: real, b: real, r: real): real {
    a + (b - a) * r
  }

  function Ratio(k: nat, n: nat): real
    requires n > 0
  {
    k as real / n as real
  }

  /** Interpolation of real values. */
  function LerpReal(a: real, b: real, k: nat, n: nat): real {
    if n == 0 then a else Mix(a, b, Ratio(k, n))
  }

  lemma LerpRealExact(a: real, b: real, n: nat)
    requires n > 0
    ensures LerpReal(a, b, 0, n) == a && LerpReal(a, b, n, n) == b
  {
    assert Ratio(n, n) == 1.0;
  }

  lemma RealExact(job: Job<real>)
    requires job.lerp == LerpReal
    ensures job.Exact()
  {
    forall a, b, n: nat | n > 0
      ensures job.lerp(a, b, 0, n) == a && job.lerp(a, b, n, n) == b
    {
      LerpRealExact(a, b, n);
    }
  }

  /** The two forms of the expression in the version that works in place. */
  lemma LerpForms(a: real, b: real, k: nat, n: nat)
    requires n > 0
    ensures LerpReal(a, b, k, n) == a + (b - a) * k as real / n as real == a + k as real * (b - a) / n as real
  {}

  const MAX_UPSCALE: nat := 128

  /** The upscaling ratios, one more than the factor.  For the largest factor that the assertion lets
      through, the last of them is written behind the end of the table. */
  method Ratios(n: nat) returns (inBounds: bool, ratio: array<real>)
    requires 0 < n <= MAX_UPSCALE
    ensures inBounds <==> n < MAX_UPSCALE
    ensures fresh(ratio) && ratio.Length == MAX_UPSCALE && (inBounds ==> IsRatio(ratio, n))
  {
    ratio := new real[MAX_UPSCALE];
    for x := 0 to n + 1
      invariant x <= MAX_UPSCALE && forall k: nat :: k < x ==> ratio[k] == Ratio(k, n)
    {
      if x >= ratio.Length {
        return false, ratio;
      }
      ratio[x] := Ratio(x, n);
    }
    return true, ratio;
  }

  ghost predicate IsRatio(ratio: array<real>, n: nat)
    reads ratio
  {
    0 < n < ratio.Length && forall k: nat :: k <= n ==> ratio[k] == Ratio(k, n)
  }

  /** The values of one row of a cell, as the ratios give them. */
  ghost predicate RowValues(job: Job<real>, ratioX: array<real>, lo: real, hi: real, dx: nat, y: nat)
    requires job.Valid()
    reads ratioX
  {
    && job.sx < ratioX.Length && dx + job.sx < job.Width() && y < job.Height()
    && forall k: nat {:trigger ratioX[k]} :: k <= job.sx ==> job.At(dx + k, y) == Mix(lo, hi, ratioX[k])
  }

  /** One row of a cell. */
  method FillCellRow(dst: array2<real>, ratioX: array<real>, ux: nat, lo: real, hi: real, dx: nat, dy: nat, cellY: nat,
                     ghost job: Job<real>, ghost x: nat, ghost y: nat)
    requires Fits(dst, job) && job.sx == ux && RowValues(job, ratioX, lo, hi, dx, dy + cellY)
    requires dx + ux < dst.Length1 && dy + cellY < dst.Length0
    requires CellsDone(dst, job, dx, dy, x, y) && CellDone(dst, job, dx, dy, cellY, 0)
    modifies dst
    ensures CellsDone(dst, job, dx, dy, x, y) && CellDone(dst, job, dx, dy, cellY + 1, 0)
  {
    hide Job.At, Job.Width, Job.Height, Mix, CellsDone, CellDone;
    for cellX := 0 to ux + 1
      invariant CellsDone(dst, job, dx, dy, x, y) && CellDone(dst, job, dx, dy, cellY, cellX)
    {
      label before:
      dst[dy + cellY, dx + cellX] := Mix(lo, hi, ratioX[cellX]);
      OneMore@before(dst, job, dx, dy, x, y, cellY, cellX);
    }
    RowOfCell(dst, job, dx, dy, cellY);
  }

  /** One cell, its borders included. */
  method FillCell(src: array2<real>, dst: array2<real>, ratioX: array<real>, ratioY: array<real>, ux: nat, uy: nat,
                  x: nat, y: nat, dx: nat, dy: nat, ghost job: Job<real>)
    requires Fits(dst, job) && job.lerp == LerpReal && job.sx == ux && job.sy == uy && x < job.cx && y < job.cy
    requires dx == x * ux && dy == y * uy && src != dst
    requires IsSource(src, job) && IsRatio(ratioX, ux) && IsRatio(ratioY, uy)
    requires dx + ux < dst.Length1 && dy + uy < dst.Length0
    requires CellsDone(dst, job, dx, dy, x, y)
    modifies dst
    ensures CellsDone(dst, job, dx, dy, x, y) && CellDone(dst, job, dx, dy, uy + 1, 0)
  {
    hide Job.At, Job.Width, Job.Height, LerpReal, Mix, Ratio, CellsDone, CellDone, RowValues;
    var loXLoY, loXHiY, hiXLoY, hiXHiY := src[y, x], src[y + 1, x], src[y, x + 1], src[y + 1, x + 1];
    NothingInCell(dst, job, dx, dy);
    for cellY := 0 to uy + 1
      invariant CellsDone(dst, job, dx, dy, x, y) && CellDone(dst, job, dx, dy, cellY, 0)
    {
      var loXInY := Mix(loXLoY, loXHiY, ratioY[cellY]);
      var hiXInY := Mix(hiXLoY, hiXHiY, ratioY[cellY]);
      CellRow(src, job, ratioX, ratioY, x, y, cellY);
      FillCellRow(dst, ratioX, ux, loXInY, hiXInY, dx, dy, cellY, job, x, y);
    }
  }

  /** The packed source array holds the anchors. */
  ghost predicate IsSource(src: array2<real>, job: Job<real>)
    reads src
  {
    && job.Valid() && src.Length0 == job.cy + 1 && src.Length1 == job.cx + 1
    && forall x: nat, y: nat {:trigger src[y, x]} :: x <= job.cx && y <= job.cy ==> src[y, x] == job.anchors[y][x]
  }

  lemma CellRow(src: array2<real>, job: Job<real>, ratioX: array<real>, ratioY: array<real>, x: nat, y: nat, cellY: nat)
    requires IsSource(src, job) && job.lerp == LerpReal && x < job.cx && y < job.cy && cellY <= job.sy
    requires IsRatio(ratioX, job.sx) && IsRatio(ratioY, job.sy)
    ensures 0 <= x * job.sx && 0 <= y * job.sy
    ensures var lo := Mix(src[y, x], src[y + 1, x], ratioY[cellY]);
      var hi := Mix(src[y, x + 1], src[y + 1, x + 1], ratioY[cellY]);
      RowValues(job, ratioX, lo, hi, x * job.sx, y * job.sy + cellY)
  {
    hide Job.At, LerpReal, Mix, Ratio, Job.Width, Job.Height, IsSource, IsRatio;
    MulLess(0, x, job.sx);
    MulLess(0, y, job.sy);
    SourceSize(src, job, ratioX, ratioY);
    var lo := Mix(src[y, x], src[y + 1, x], ratioY[cellY]);
    var hi := Mix(src[y, x + 1], src[y + 1, x + 1], ratioY[cellY]);
    var dx: nat, dy: nat := x * job.sx, y * job.sy + cellY;
    CellPlace(src, job, ratioX, ratioY, x, y, cellY, job.sx);
    forall k: nat {:trigger ratioX[k]} | k <= job.sx
      ensures job.At(dx + k, dy) == Mix(lo, hi, ratioX[k])
    {
      CellPlace(src, job, ratioX, ratioY, x, y, cellY, k);
    }
  }

  /** The value of a place in a cell, with the two interpolations written out. */
  lemma CellValue(job: Job<real>, ax: nat, ay: nat, kx: nat, ky: nat)
    requires job.Valid() && job.lerp == LerpReal && ax < job.cx && ay < job.cy && kx <= job.sx && ky <= job.sy
    ensures ax * job.sx + kx < job.Width() && ay * job.sy + ky < job.Height()
    ensures var rx, ry := Ratio(kx, job.sx), Ratio(ky, job.sy);
      var lo := Mix(job.anchors[ay][ax], job.anchors[ay + 1][ax], ry);
      var hi := Mix(job.anchors[ay][ax + 1], job.anchors[ay + 1][ax + 1], ry);
      job.At(ax * job.sx + kx, ay * job.sy + ky) == Mix(lo, hi, rx)
  {
    hide Job.At, Mix, Ratio;
    RealExact(job);
    job.InCell(ax, ay, kx, ky);
  }

  lemma SourceSize(src: array2<real>, job: Job<real>, ratioX: array<real>, ratioY: array<real>)
    requires IsSource(src, job) && IsRatio(ratioX, job.sx) && IsRatio(ratioY, job.sy)
    ensures job.Valid() && src.Length0 == job.cy + 1 && src.Length1 == job.cx + 1 && job.sx < ratioX.Length
    ensures job.sy < ratioY.Length
  {}

  lemma CellPlace(src: array2<real>, job: Job<real>, ratioX: array<real>, ratioY: array<real>, x: nat, y: nat,
          cellY: nat, k: nat)
    requires IsSource(src, job) && job.lerp == LerpReal && x < job.cx && y < job.cy && cellY <= job.sy && k <= job.sx
    requires IsRatio(ratioX, job.sx) && IsRatio(ratioY, job.sy)
    ensures x * job.sx + k < job.Width() && y * job.sy + cellY < job.Height()
    ensures job.At(x * job.sx + k, y * job.sy + cellY) ==
      Mix(Mix(src[y, x], src[y + 1, x], ratioY[cellY]), Mix(src[y, x + 1], src[y + 1, x + 1], ratioY[cellY]), ratioX[k])
  {
    hide Job.At, LerpReal, Mix, Ratio, Job.Width, Job.Height;
    CellValue(job, x, y, k, cellY);
  }

  lemma NothingInCell<T(!new)>(a: array2<T>, job: Job<T>, dx: nat, dy: nat)
    requires Fits(a, job)
    ensures CellDone(a, job, dx, dy, 0, 0)
  {
    hide Job.At;
  }

  lemma RowOfCell<T(!new)>(a: array2<T>, job: Job<T>, dx: nat, dy: nat, r: nat)
    requires Fits(a, job) && CellDone(a, job, dx, dy, r, job.sx + 1)
    ensures CellDone(a, job, dx, dy, r + 1, 0)
  {
    hide Job.At, Job.Width, Job.Height;
  }

  twostate lemma OneMore<T(!new)>(new a: array2<T>, new job: Job<T>, new dx: nat, new dy: nat, new x: nat, new y: nat,
          new r: nat, new c: nat)
    requires old(allocated(a) && allocated(job)) && Fits(a, job)
    requires old(CellsDone(a, job, dx, dy, x, y) && CellDone(a, job, dx, dy, r, c))
    requires dy + r < a.Length0 && dx + c < a.Length1 && a[dy + r, dx + c] == job.At(dx + c, dy + r)
    requires forall i: nat, j: nat {:trigger a[i, j]} ::
      i < a.Length0 && j < a.Length1 && !(i == dy + r && j == dx + c) ==> a[i, j] == old(a[i, j])
    ensures CellsDone(a, job, dx, dy, x, y) && CellDone(a, job, dx, dy, r, c + 1)
  {
    hide Job.At, Job.Width, Job.Height;
  }

  lemma NextCell<T(!new)>(a: array2<T>, job: Job<T>, dx: nat, dy: nat, ax: nat, ay: nat)
    requires Fits(a, job) && CellsDone(a, job, dx, dy, ax, ay) && CellDone(a, job, dx, dy, job.sy + 1, 0)
    requires ax == 0 ==> dx == 0
    ensures CellsDone(a, job, dx + job.sx, dy, ax + 1, ay)
  {
    hide Job.At, Job.Width, Job.Height;
  }

  lemma NextCellRow<T(!new)>(a: array2<T>, job: Job<T>, dx: nat, dy: nat, ax: nat, ay: nat)
    requires Fits(a, job) && CellsDone(a, job, dx, dy, ax, ay) && ax > 0 && dx + 1 >= a.Length1
    requires ay == 0 ==> dy == 0
    ensures CellsDone(a, job, 0, dy + job.sy, 0, ay + 1)
  {
    hide Job.At, Job.Width, Job.Height;
  }

  lemma AllCells<T(!new)>(a: array2<T>, job: Job<T>, dy: nat, ay: nat)
    requires Fits(a, job) && CellsDone(a, job, 0, dy, 0, ay) && ay > 0 && dy + 1 >= a.Length0
    ensures forall x: nat, y: nat {:trigger a[y, x]} :: x < a.Length1 && y < a.Length0 ==> a[y, x] == job.At(x, y)
  {
    hide Job.At, Job.Width, Job.Height;
  }

  lemma NoCells<T(!new)>(a: array2<T>, job: Job<T>)
    requires Fits(a, job)
    ensures CellsDone(a, job, 0, 0, 0, 0)
  {
    hide Job.At, Job.Width, Job.Height;
  }

  /** LinearUpscale2DArray for real values; job describes the source.  It writes nothing unless there
      are at least two anchors in each direction. */
  method LinearUpscale2DArray(src: array2<real>, dst: array2<real>, ux: nat, uy: nat, ghost job: Job<real>)
      returns (inBounds: bool)
    requires IsSource(src, job) && Fits(dst, job) && src != dst && job.lerp == LerpReal
    requires ux == job.sx <= MAX_UPSCALE && uy == job.sy <= MAX_UPSCALE
    modifies dst
    ensures inBounds <==> ux < MAX_UPSCALE && uy < MAX_UPSCALE
    ensures inBounds && job.cx > 0 && job.cy > 0 ==>
      forall x: nat, y: nat {:trigger dst[y, x]} :: x < dst.Length1 && y < dst.Length0 ==> dst[y, x] == job.At(x, y)
    ensures job.cx == 0 || job.cy == 0 ==> unchanged(dst)
  {
    hide Job.At, Job.Column, CellsDone, CellDone, Ratio;
    var ratioX, ratioY;
    inBounds, ratioX := Ratios(ux);
    if !inBounds {
      return;
    }
    inBounds, ratioY := Ratios(uy);
    if !inBounds {
      return;
    }
    NoCells(dst, job);
    if src.Length0 == 1 || src.Length1 == 1 {
      return; // the loops do nothing
    }
    var dy := 0;
    for y := 0 to src.Length0 - 1
      invariant dy == y * uy && CellsDone(dst, job, 0, dy, 0, y)
      invariant IsSource(src, job) && IsRatio(ratioX, ux) && IsRatio(ratioY, uy)
      invariant y == 0 ==> dy == 0
    {
      MulLess(y, job.cy, uy);
      NextAnchor(y, uy);
      var dx := 0;
      for x := 0 to src.Length1 - 1
        invariant dx == x * ux && CellsDone(dst, job, dx, dy, x, y)
        invariant IsSource(src, job) && IsRatio(ratioX, ux) && IsRatio(ratioY, uy)
        invariant x == 0 ==> dx == 0
      {
        MulLess(x, job.cx, ux);
        NextAnchor(x, ux);
        FillCell(src, dst, ratioX, ratioY, ux, uy, x, y, dx, dy, job);
        NextCell(dst, job, dx, dy, x, y);
        dx := dx + ux;
      }
      NextCellRow(dst, job, dx, dy, job.cx, y);
      dy := dy + uy;
    }
    AllCells(dst, job, dy, job.cy);
  }

  // ----- whole numbers

  /** Interpolation in whole numbers, as the version that works in place does it. */
  function LerpInt(a: int, b: int, k: nat, n: nat): int {
    if n == 0 then a else a + Quotient((b - a) * k, n)
  }

  lemma QuotientBetween(d: int, k: nat, n: nat)
    requires k <= n && n > 0
    ensures if d >= 0 then 0 <= Quotient(d * k, n) <= d else d <= Quotient(d * k, n) <= 0
  {
    if d >= 0 {
      QuotientUp(d, k, n);
    } else {
      QuotientUp(-d, k, n);
      assert (-d) * k == -(d * k);
    }
  }

  lemma QuotientUp(d: nat, k: nat, n: nat)
    requires k <= n && n > 0
    ensures 0 <= d * k && 0 <= d * k / n <= d
  {
    MulLess(k, n, d);
    var q := d * k / n;
    assert d * k == q * n + d * k % n;
    assert d * k <= d * n;
    if q > d {
      MulLess(d, q, n);
    }
  }

  lemma LerpIntBetween(a: int, b: int, k: nat, n: nat)
    requires k <= n
    ensures Min(a, b) <= LerpInt(a, b, k, n) <= Max(a, b)
  {
    if n > 0 {
      QuotientBetween(b - a, k, n);
    }
  }

  /** In whole numbers, no value leaves the range of the four anchors around it. */
  lemma IntWithinCorners(job: Job<int>, ax: nat, ay: nat, kx: nat, ky: nat)
    requires job.Valid() && job.lerp == LerpInt && ax < job.cx && ay < job.cy && kx <= job.sx && ky <= job.sy
    ensures ax * job.sx + kx < job.Width() && ay * job.sy + ky < job.Height()
    ensures var v := job.At(ax * job.sx + kx, ay * job.sy + ky);
      var a, b := job.anchors[ay][ax], job.anchors[ay + 1][ax];
      var c, d := job.anchors[ay][ax + 1], job.anchors[ay + 1][ax + 1];
      Min(Min(a, b), Min(c, d)) <= v <= Max(Max(a, b), Max(c, d))
  {
    hide Job.At, LerpInt, Job.Width, Job.Height;
    IntExact(job);
    job.InCell(ax, ay, kx, ky);
    var a, b := job.anchors[ay][ax], job.anchors[ay + 1][ax];
    var c, d := job.anchors[ay][ax + 1], job.anchors[ay + 1][ax + 1];
    LerpIntBetween(a, b, ky, job.sy);
    LerpIntBetween(c, d, ky, job.sy);
    LerpIntBetween(LerpInt(a, b, ky, job.sy), LerpInt(c, d, ky, job.sy), kx, job.sx);
  }

  lemma IntExact(job: Job<int>)
    requires job.lerp == LerpInt
    ensures job.Exact()
  {
    forall a, b, n: nat | n > 0
      ensures job.lerp(a, b, 0, n) == a && job.lerp(a, b, n, n) == b
    {
      WholeWay(b - a, n);
    }
  }

  lemma WholeWay(d: int, n: nat)
    requires n > 0
    ensures Quotient(d * n, n) == d && Quotient(d * 0, n) == 0
  {
    if d >= 0 {
      DivMod(d, 0, n);
    } else {
      DivMod(-d, 0, n);
      assert (-d) * n == -(d * n);
    }
  }
}
