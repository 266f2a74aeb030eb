/** `draw` with `overscan_fill` and `overscan_set_at`: what each level puts in
    the gamma-corrected `overscan` raster, as functions of the game arrays, and
    the loops that write it. */
module Display {
  import opened Grid
  import opened Render
  import opened Firmware

  // ------------------------------------------------------------ the raster

  /** `overscan_fill`: every LED of the raster gets the gamma of one value. */
  method OverscanFill(b: Badge, v: byte)
    requires b.overscan.Length == Size
    modifies b.overscan
    ensures forall i :: 0 <= i < Size ==> b.overscan[i] == Gamma(v)
  {
    var i := 0;
    while i < Size
      invariant i <= Size
      invariant forall j :: 0 <= j < i ==> b.overscan[j] == Gamma(v)
    {
      b.overscan[i] := Gamma(v);
      i := i + 1;
    }
  }

  /** `overscan_set_at`: one LED, addressed by its position, gets the gamma of a value. */
  method OverscanSetAt(b: Badge, x: nat, y: nat, v: byte)
    requires b.overscan.Length == Size && InField(x, y)
    modifies b.overscan
    ensures b.overscan[..] == old(b.overscan[..])[Offset(x, y) := Gamma(v)]
  {
    b.overscan[Offset(x, y)] := Gamma(v);
  }

  /** The raster of levels 1 to 4 and 7 to 14: each cell's value through the gamma table. */
  function Shown(v: seq<byte>): (r: seq<byte>)
    requires |v| == Size
    ensures |r| == Size
  {
    seq(Size, i requires 0 <= i < Size => Gamma(v[i]))
  }

  /** The shown raster keeps the order of the values, keeps dark cells dark and
      full cells full. */
  lemma ShownKeepsOrder(v: seq<byte>, i: nat, j: nat)
    requires |v| == Size && i < Size && j < Size
    ensures v[i] <= v[j] ==> Shown(v)[i] <= Shown(v)[j]
    ensures v[i] == 0 ==> Shown(v)[i] == 0
    ensures v[i] == 255 ==> Shown(v)[i] == 255
  {
    if v[i] <= v[j] {
      GammaMonotone(v[i], v[j]);
    }
  }

  /** The nested row/column loop that writes every cell's value. */
  method ShowValues(b: Badge)
    requires b.Shape()
    modifies b.overscan
    ensures b.overscan[..] == Shown(b.value[..])
  {
    var y := 0;
    while y < Height
      invariant y <= Height
      invariant forall i :: 0 <= i < y * Width ==> b.overscan[i] == Gamma(b.value[i])
    {
      var x := 0;
      while x < Width
        invariant x <= Width
        invariant forall i :: 0 <= i < y * Width + x ==> b.overscan[i] == Gamma(b.value[i])
      {
        OverscanSetAt(b, x, y, b.value[Offset(x, y)]);
        x := x + 1;
      }
      y := y + 1;
    }
  }

  // ------------------------------------------------------------- level 0

  /** The multiplier of level 0's deformation: a quarter of the pressed cell's
      counter, at least 1. */
  function Multiplier(c: byte): (m: nat)
    ensures 1 <= m <= 63
    ensures c >= 4 ==> m == c as nat / 4
  {
    if c / 4 == 0 then 1 else c as nat / 4
  }

  /** A cell's value pushed down by its deformation times the multiplier,
      stopping at dark. */
  function Deformed(v: byte, d: byte, m: nat): (r: byte)
    ensures r <= v
    ensures d == 0 ==> r == v
    ensures r > 0 ==> r as int + d as int * m == v as int
    ensures r == 0 ==> v as int <= d as int * m
  {
    if v as int - d as int * m < 0 then 0 else (v as int - d as int * m) as byte
  }

  /** `node_rendered` after level 0's draw: every cell deformed by the multiplier
      of the cell last pressed. */
  function Rendered(v: seq<byte>, d: seq<byte>, m: nat): (r: seq<byte>)
    requires |v| == Size && |d| == Size
    ensures |r| == Size
  {
    seq(Size, i requires 0 <= i < Size => Deformed(v[i], d[i], m))
  }

  /** Level 0's raster: locked cells are dark, the rest show their rendered value. */
  function Ripple(r: seq<byte>, l: seq<byte>): (o: seq<byte>)
    requires |r| == Size && |l| == Size
    ensures |o| == Size
  {
    seq(Size, i requires 0 <= i < Size => if l[i] == 0 then Gamma(r[i]) else 0)
  }

  /** On level 0 a cell is never brighter than its value alone would show, a
      locked cell is dark, and an undeformed free cell shows its value. */
  lemma RippleBounds(v: seq<byte>, l: seq<byte>, d: seq<byte>, m: nat, i: nat)
    requires |v| == Size && |l| == Size && |d| == Size && i < Size
    ensures Ripple(Rendered(v, d, m), l)[i] <= Shown(v)[i]
    ensures l[i] != 0 ==> Ripple(Rendered(v, d, m), l)[i] == 0
    ensures l[i] == 0 && d[i] == 0 ==> Ripple(Rendered(v, d, m), l)[i] == Shown(v)[i]
  {
    GammaMonotone(Deformed(v[i], d[i], m), v[i]);
  }

  /** Level 0's loops: `node_rendered` and the raster, cell by cell. */
  method DrawRipple(b: Badge, m: nat)
    requires b.Shape()
    modifies b.overscan, b.rendered
    ensures b.rendered[..] == Rendered(b.value[..], b.deform[..], m)
    ensures b.overscan[..] == Ripple(b.rendered[..], b.lock[..])
  {
    var y := 0;
    while y < Height
      invariant y <= Height
      invariant forall i :: 0 <= i < y * Width ==> b.rendered[i] == Deformed(b.value[i], b.deform[i], m)
      invariant forall i :: 0 <= i < y * Width ==> b.overscan[i] == if b.lock[i] == 0 then Gamma(b.rendered[i]) else 0
    {
      var x := 0;
      while x < Width
        invariant x <= Width
        invariant forall i :: 0 <= i < y * Width + x ==> b.rendered[i] == Deformed(b.value[i], b.deform[i], m)
        invariant forall i :: 0 <= i < y * Width + x ==> b.overscan[i] == if b.lock[i] == 0 then Gamma(b.rendered[i]) else 0
      {
        RippleCell(b, m, x, y);
        x := x + 1;
      }
      y := y + 1;
    }
  }

  /** One cell of level 0's loops: its rendered value, then its raster byte. */
  method RippleCell(b: Badge, m: nat, x: nat, y: nat)
    requires b.Shape() && InField(x, y)
    modifies b.overscan, b.rendered
    ensures forall i :: 0 <= i < Size && i != Offset(x, y) ==>
      b.rendered[i] == old(b.rendered[i]) && b.overscan[i] == old(b.overscan[i])
    ensures var i := Offset(x, y);
      && b.rendered[i] == Deformed(b.value[i], b.deform[i], m)
      && b.overscan[i] == if b.lock[i] == 0 then Gamma(b.rendered[i]) else 0
  {
    var i := Offset(x, y);
    var t := b.value[i] as int - b.deform[i] as int * m;
    if t < 0 {
      t := 0;
    }
    b.rendered[i] := t as byte;
    if b.lock[i] == 0 {
      OverscanSetAt(b, x, y, t as byte);
    } else {
      OverscanSetAt(b, x, y, 0);
    }
  }

  // ------------------------------------------------------------- level 5

  /** Walker k is drawn on cell j: it stands there and is free (1) or caught (2). */
  predicate Drawn(c: seq<byte>, d: seq<byte>, k: nat, j: nat)
    requires |c| == Size && |d| == Size && k < Width
  {
    d[k] as nat == j && (c[k] == 1 || c[k] == 2)
  }

  /** How a walker is drawn: full when free, half when caught. */
  function Glow(c: byte): byte {
    if c == 1 then Gamma(255) else Gamma(128)
  }

  /** Level 5's raster after the first n walkers are drawn over a dark field. */
  function Walkers(c: seq<byte>, d: seq<byte>, n: nat): (r: seq<byte>)
    requires |c| == Size && |d| == Size && n <= Width
    requires forall k :: 0 <= k < Width ==> d[k] < Size as byte
    ensures |r| == Size
  {
    if n == 0 then seq(Size, _ => 0)
    else
      var r := Walkers(c, d, n - 1);
      if c[n - 1] == 1 then r[d[n - 1] := Gamma(255)]
      else if c[n - 1] == 2 then r[d[n - 1] := Gamma(128)]
      else r
  }

  /** A cell with a walker on it shows the last such walker (in index order):
      walkers that share a cell hide each other, the later one winning. */
  lemma {:induction false} LastWalkerShows(c: seq<byte>, d: seq<byte>, n: nat, k: nat, j: nat)
    requires |c| == Size && |d| == Size && n <= Width
    requires forall k :: 0 <= k < Width ==> d[k] < Size as byte
    requires k < n && Drawn(c, d, k, j)
    requires forall k' :: k < k' < n ==> !Drawn(c, d, k', j)
    ensures Walkers(c, d, n)[j] == Glow(c[k])
    decreases n
  {
    if k < n - 1 {
      assert !Drawn(c, d, n - 1, j);
      LastWalkerShows(c, d, n - 1, k, j);
    }
  }

  /** A cell no walker stands on stays dark. */
  lemma {:induction false} NoWalkerDark(c: seq<byte>, d: seq<byte>, n: nat, j: nat)
    requires |c| == Size && |d| == Size && n <= Width && j < Size
    requires forall k :: 0 <= k < Width ==> d[k] < Size as byte
    requires forall k :: 0 <= k < n ==> !Drawn(c, d, k, j)
    ensures Walkers(c, d, n)[j] == 0
    decreases n
  {
    if n > 0 {
      assert !Drawn(c, d, n - 1, j);
      NoWalkerDark(c, d, n - 1, j);
    }
  }

  /** Level 5's loop over the seven walkers. */
  method DrawWalkers(b: Badge)
    requires b.Shape()
    requires forall k :: 0 <= k < Width ==> b.deform[k] < Size as byte
    requires forall i :: 0 <= i < Size ==> b.overscan[i] == 0
    modifies b.overscan
    ensures b.overscan[..] == Walkers(b.counter[..], b.deform[..], Width)
  {
    assert b.overscan[..] == Walkers(b.counter[..], b.deform[..], 0);
    var k := 0;
    while k < Width
      invariant k <= Width
      invariant b.overscan[..] == Walkers(b.counter[..], b.deform[..], k)
    {
      if b.counter[k] == 1 {
        var c := Coords(b.deform[k] as nat);
        OffsetOfCoords(b.deform[k] as nat);
        OverscanSetAt(b, c.0, c.1, 255);
      }
      if b.counter[k] == 2 {
        var c := Coords(b.deform[k] as nat);
        OffsetOfCoords(b.deform[k] as nat);
        OverscanSetAt(b, c.0, c.1, 128);
      }
      k := k + 1;
    }
  }

  // ------------------------------------------------------------- level 6

  /** The brightness of the trail yo + 1 rows above a lit cell: 256 divided by
      2 + 4 * yo, dropped to 0 once it falls below 14. */
  function Tamp(yo: nat): (t: byte)
    requires yo < 8
    ensures t == 0 <==> yo >= 5
    ensures t <= 128
  {
    if 256 / (2 + 4 * yo) < 14 then 0 else (256 / (2 + 4 * yo)) as byte
  }

  /** The trail fades: a row further from the lit cell is never brighter. */
  lemma TampFades(yo1: nat, yo2: nat)
    requires yo1 <= yo2 < 8
    ensures Tamp(yo2) <= Tamp(yo1)
  {
  }

  /** How many rows above row y (wrapping from the top row to the bottom) row t lies,
      counting from 0 for the row just above. */
  function Back(y: nat, t: nat): (k: nat)
    ensures k < Height
  {
    (y - 1 - t) % Height
  }

  /** The row `yo + 1` rows above y, wrapped as the loop wraps `target_y`; it is
      the one row whose distance back from y is yo. */
  lemma TargetRow(y: nat, yo: nat, t: nat)
    requires y < Height && yo < Height && t < Height
    ensures var target := if y - yo - 1 < 0 then y - yo - 1 + Height else y - yo - 1;
      0 <= target < Height && Back(y, target) == yo && (Back(y, t) == yo ==> t == target)
  {
  }

  /** The raster o after the trail of a lit cell (x, y) is drawn n rows deep. */
  function Streak(o: seq<byte>, x: nat, y: nat, n: nat): (r: seq<byte>)
    requires |o| == Size && n <= 8
    ensures |r| == Size
  {
    seq(Size, i requires 0 <= i < Size =>
      if ColumnOf(i) == x && Back(y, RowOf(i)) < n then Gamma(Tamp(Back(y, RowOf(i)))) else o[i])
  }

  /** The raster o after the trails of the lit cells of column x in rows below n. */
  function Column(o: seq<byte>, v: seq<byte>, x: nat, n: nat): (r: seq<byte>)
    requires |o| == Size && |v| == Size && x < Width && n <= Height
    ensures |r| == Size
  {
    if n == 0 then o
    else if v[Offset(x, n - 1)] == 255 then Streak(Column(o, v, x, n - 1), x, n - 1, 8)
    else Column(o, v, x, n - 1)
  }

  /** The raster o after the trails of columns below m. */
  function Columns(o: seq<byte>, v: seq<byte>, m: nat): (r: seq<byte>)
    requires |o| == Size && |v| == Size && m <= Width
    ensures |r| == Size
  {
    if m == 0 then o else Column(Columns(o, v, m - 1), v, m - 1, Height)
  }

  /** The lit cell of column x, in rows below n, whose trail is drawn last over
      row t: the lowest one whose trail reaches that row. */
  function TrailSource(v: seq<byte>, x: nat, t: nat, n: nat): (r: Option<nat>)
    requires |v| == Size && x < Width && n <= Height
    ensures r.Some? ==> r.value < n && v[Offset(x, r.value)] == 255 && Back(r.value, t) < 8
    ensures r.Some? ==> forall y :: r.value < y < n && v[Offset(x, y)] == 255 ==> Back(y, t) >= 8
    ensures r.None? ==> forall y :: 0 <= y < n && v[Offset(x, y)] == 255 ==> Back(y, t) >= 8
  {
    if n == 0 then None
    else if v[Offset(x, n - 1)] == 255 && Back(n - 1, t) < 8 then Some(n - 1)
    else TrailSource(v, x, t, n - 1)
  }

  /** What level 6 shows on cell i over the raster o: the trail of the last lit
      cell of its column that reaches it, else what o holds. */
  function Comet(o: seq<byte>, v: seq<byte>, i: nat): byte
    requires |o| == Size && |v| == Size && i < Size
  {
    match TrailSource(v, ColumnOf(i), RowOf(i), Height)
    case Some(y) => Gamma(Tamp(Back(y, RowOf(i))))
    case None => o[i]
  }

  /** Drawing one column's trails changes only that column, and each of its cells
      ends up with the trail of the last lit cell reaching it. */
  lemma {:induction false} ColumnShows(o: seq<byte>, v: seq<byte>, x: nat, n: nat, i: nat)
    requires |o| == Size && |v| == Size && x < Width && n <= Height && i < Size
    ensures ColumnOf(i) != x ==> Column(o, v, x, n)[i] == o[i]
    ensures ColumnOf(i) == x ==>
      Column(o, v, x, n)[i] == (match TrailSource(v, x, RowOf(i), n)
                                case Some(y) => Gamma(Tamp(Back(y, RowOf(i))))
                                case None => o[i])
    decreases n
  {
    if n > 0 {
      ColumnShows(o, v, x, n - 1, i);
      var c := Column(o, v, x, n - 1);
      if v[Offset(x, n - 1)] == 255 {
        assert Column(o, v, x, n)[i] == Streak(c, x, n - 1, 8)[i];
      } else {
        assert Column(o, v, x, n)[i] == c[i];
      }
    }
  }

  /** Drawing the columns below m changes only those columns, each as `ColumnShows` says. */
  lemma {:induction false} ColumnsShow(o: seq<byte>, v: seq<byte>, m: nat, i: nat)
    requires |o| == Size && |v| == Size && m <= Width && i < Size
    ensures ColumnOf(i) >= m ==> Columns(o, v, m)[i] == o[i]
    ensures ColumnOf(i) < m ==> Columns(o, v, m)[i] == Comet(o, v, i)
    decreases m
  {
    if m > 0 {
      ColumnsShow(o, v, m - 1, i);
      ColumnShows(Columns(o, v, m - 1), v, m - 1, Height, i);
      if ColumnOf(i) == m - 1 {
        assert Columns(o, v, m - 1)[i] == o[i];
      }
    }
  }

  /** Level 6's raster, cell by cell: a cell reached by a trail shows the trail of
      the lowest lit cell of its column that reaches it, and any other cell shows
      its value. */
  lemma CometsShown(v: seq<byte>, i: nat)
    requires |v| == Size && i < Size
    ensures Columns(Shown(v), v, Width)[i] == Comet(Shown(v), v, i)
  {
    ColumnsShow(Shown(v), v, Width, i);
  }

  /** The innermost loop: the eight trail rows above a lit cell. */
  method DrawStreak(b: Badge, x: nat, y: nat)
    requires b.Shape() && InField(x, y)
    modifies b.overscan
    ensures b.overscan[..] == Streak(old(b.overscan[..]), x, y, 8)
  {
    ghost var o := b.overscan[..];
    var delta := 2;
    var yo := 0;
    while yo < 8
      invariant yo <= 8 && delta == 2 + 4 * yo
      invariant b.overscan[..] == Streak(o, x, y, yo)
    {
      var tamp := 256 / delta;
      if tamp < 14 {
        tamp := 0;
      }
      delta := delta + 4;
      var target := y - yo - 1;
      if target < 0 {
        target := target + Height;
      }
      TargetRow(y, yo, 0);
      OverscanSetAt(b, x, target, tamp as byte);
      forall i | 0 <= i < Size
        ensures b.overscan[i] == Streak(o, x, y, yo + 1)[i]
      {
        OffsetOfCoords(i);
        TargetRow(y, yo, RowOf(i));
        if i == Offset(x, target) {
          CoordsOfOffset(x, target);
        }
      }
      yo := yo + 1;
    }
  }

  /** The loop down one column, drawing the trail of each lit cell. */
  method DrawColumn(b: Badge, x: nat)
    requires b.Shape() && x < Width
    modifies b.overscan
    ensures b.overscan[..] == Column(old(b.overscan[..]), b.value[..], x, Height)
  {
    ghost var o := b.overscan[..];
    var y := 0;
    while y < Height
      invariant y <= Height
      invariant b.overscan[..] == Column(o, b.value[..], x, y)
    {
      if b.value[Offset(x, y)] == 255 {
        DrawStreak(b, x, y);
      }
      y := y + 1;
    }
  }

  /** Level 6's trail loops over all columns. */
  method DrawTrails(b: Badge)
    requires b.Shape()
    modifies b.overscan
    ensures b.overscan[..] == Columns(old(b.overscan[..]), b.value[..], Width)
  {
    ghost var o := b.overscan[..];
    var x := 0;
    while x < Width
      invariant x <= Width
      invariant b.overscan[..] == Columns(o, b.value[..], x)
    {
      DrawColumn(b, x);
      x := x + 1;
    }
  }

  // ------------------------------------------------------------- draw

  /** `draw`: the raster of the current level. Levels 1 to 4 and 7 to 14 show
      their values, level 0 its deformed ripple, level 5 its walkers, level 6
      its values with comet trails; the attract mode draws nothing here. */
  method Draw(b: Badge)
    requires b.Valid()
    modifies b.overscan, b.rendered
    ensures b.gameLevel == 0 ==>
      && b.rendered[..] == Rendered(b.value[..], b.deform[..],
                                    Multiplier(b.counter[Offset(b.buttonX, b.buttonY)]))
      && b.overscan[..] == Ripple(b.rendered[..], b.lock[..])
    ensures 1 <= b.gameLevel <= 4 || 7 <= b.gameLevel <= 14 ==> b.overscan[..] == Shown(b.value[..])
    ensures b.gameLevel == 5 ==> b.overscan[..] == Walkers(b.counter[..], b.deform[..], Width)
    ensures b.gameLevel == 6 ==> b.overscan[..] == Columns(Shown(b.value[..]), b.value[..], Width)
    ensures b.gameLevel == -3 ==> b.overscan[..] == old(b.overscan[..])
    ensures b.gameLevel != 0 ==> b.rendered[..] == old(b.rendered[..])
  {
    var level := b.gameLevel;
    if level == 0 {
      OverscanFill(b, 0);
      var m := Multiplier(b.counter[Offset(b.buttonX, b.buttonY)]);
      DrawRipple(b, m);
    } else if 1 <= level <= 4 || 7 <= level <= 14 {
      OverscanFill(b, 0);
      ShowValues(b);
    } else if level == 5 {
      OverscanFill(b, 0);
      DrawWalkers(b);
    } else if level == 6 {
      OverscanFill(b, 0);
      ShowValues(b);
      DrawTrails(b);
    }
  }
}
