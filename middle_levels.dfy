/** The middle level bodies of the blue badge, `step_level_5` to
    `step_level_9`. As in FinalLevels, a level that completes returns
    `finished` and the step dispatcher runs the next `level_init`. */
module MiddleLevels {
  import opened Grid
  import opened Firmware

  // ----------------------------------------------------------------- level 8

  /** The presses among cells 0..n-1 that fall in column x. */
  function ColumnPresses(sw: seq<byte>, x: nat, n: nat): nat
    requires n <= |sw|
  {
    if n == 0 then 0
    else ColumnPresses(sw, x, n - 1) + (if sw[n - 1] == 1 && ColumnOf(n - 1) == x then 1 else 0)
  }

  /** A bar of height c after p presses, each taking one cell off (never below 0). */
  function Drained(c: byte, p: nat): (r: byte)
    ensures r <= c
    ensures r == 0 <==> p >= c as nat
  {
    if p >= c as nat then 0 else c - p as byte
  }

  /** The cell shown by the level-8 bars: row 0 is never drawn, and row y of
      column x is lit when that column's bar reaches up to it (a bar of height
      c covers the bottom c rows). */
  function Bar(c: seq<byte>, v: seq<byte>, i: nat): byte
    requires |c| == Size && |v| == Size && i < Size
  {
    if RowOf(i) == 0 then v[i]
    else if c[ColumnOf(i)] as int + RowOf(i) >= Height then 128
    else 0
  }

  /** The lit cells of column x in rows y..9. */
  function LitFrom(v: seq<byte>, x: nat, y: nat): nat
    requires |v| == Size && x < Width && y <= Height
    decreases Height - y
  {
    if y == Height then 0
    else (if v[Offset(x, y)] != 0 then 1 else 0) + LitFrom(v, x, y + 1)
  }

  /** The bars show the counters: in every column, as many of rows 1..9 are
      lit as the column's counter says (at most the nine drawn rows). */
  lemma {:induction false} BarHeight(c: seq<byte>, v: seq<byte>, x: nat, y: nat)
    requires |c| == Size && |v| == Size && x < Width && 1 <= y <= Height
    requires c[x] as int <= Height
    requires forall i :: 0 <= i < Size ==> v[i] == Bar(c, v, i)
    ensures LitFrom(v, x, y) == Min(c[x] as int, Height - y)
    decreases Height - y
  {
    if y < Height {
      BarHeight(c, v, x, y + 1);
      CoordsOfOffset(x, y);
    }
  }

  /** The press loop of `step_level_8`: a press shortens its column's bar by one. */
  method Drain(b: Badge)
    requires b.Shape()
    modifies b.counter, b.switchState, b`gameTimeout
    ensures forall x :: 0 <= x < Width ==>
              b.counter[x] == Drained(old(b.counter[x]), ColumnPresses(old(b.switchState[..]), x, Size))
    ensures forall i :: Width <= i < Size ==> b.counter[i] == old(b.counter[i])
    ensures forall i :: 0 <= i < Size ==> b.switchState[i] == if old(b.switchState[i]) == 1 then 0 else old(b.switchState[i])
    ensures b.gameTimeout == if exists i :: 0 <= i < Size && old(b.switchState[i]) == 1 then 0 else old(b.gameTimeout)
  {
    ghost var sw0 := b.switchState[..];
    var n := 0;
    while n < Size
      invariant n <= Size
      invariant b.gameTimeout == if exists i :: 0 <= i < n && sw0[i] == 1 then 0 else old(b.gameTimeout)
      invariant forall x :: 0 <= x < Width ==> b.counter[x] == Drained(old(b.counter[x]), ColumnPresses(sw0, x, n))
      invariant forall i :: Width <= i < Size ==> b.counter[i] == old(b.counter[i])
      invariant forall i :: 0 <= i < Size ==> b.switchState[i] == if i < n && sw0[i] == 1 then 0 else sw0[i]
    {
      if b.switchState[n] == 1 {
        b.gameTimeout := 0;
        var column := ColumnOf(n);
        if b.counter[column] > 0 {
          b.counter[column] := b.counter[column] - 1;
        }
        b.switchState[n] := 0;
      }
      n := n + 1;
    }
  }

  /** The growth loop of `step_level_8`: each bar grows by one with one chance
      in a hundred, up to the full height. */
  method Grow(b: Badge)
    requires b.Shape() && b.ant.Valid()
    requires forall x :: 0 <= x < Width ==> b.counter[x] as int <= Height
    modifies b.counter, b.ant, b.ant.cells
    ensures b.ant.Valid()
    ensures forall x :: 0 <= x < Width ==>
              b.counter[x] == old(b.counter[x]) || b.counter[x] as int == Min(old(b.counter[x]) as int + 1, Height)
    ensures forall i :: Width <= i < Size ==> b.counter[i] == old(b.counter[i])
  {
    var x := 0;
    while x < Width
      invariant x <= Width && b.ant.Valid()
      invariant forall k :: 0 <= k < Width ==>
                  b.counter[k] == old(b.counter[k]) || (k < x && b.counter[k] as int == Min(old(b.counter[k]) as int + 1, Height))
      invariant forall i :: Width <= i < Size ==> b.counter[i] == old(b.counter[i])
    {
      var r := b.RandRange(100);
      if r == 0 {
        if b.counter[x] as int + 1 > Height {
          b.counter[x] := Height as byte;
        } else {
          b.counter[x] := b.counter[x] + 1;
        }
      }
      x := x + 1;
    }
  }

  /** The drawing loop of `step_level_8`: rows 9 up to 1 of every column. */
  method ShowBars(b: Badge)
    requires b.Shape()
    modifies b.value
    ensures forall i :: 0 <= i < Size ==> b.value[i] == Bar(b.counter[..], old(b.value[..]), i)
  {
    ghost var v0 := b.value[..];
    var x := 0;
    while x < Width
      invariant x <= Width
      invariant forall i :: 0 <= i < Size ==> b.value[i] == if ColumnOf(i) < x then Bar(b.counter[..], v0, i) else v0[i]
    {
      var row := 0;
      while row < Height - 1
        invariant row <= Height - 1
        invariant forall i :: 0 <= i < Size ==>
                    b.value[i] == if ColumnOf(i) < x || (ColumnOf(i) == x && RowOf(i) >= Height - row)
                                  then Bar(b.counter[..], v0, i) else v0[i]
      {
        var cell := Offset(x, Height - 1 - row);
        CoordsOfOffset(x, Height - 1 - row);
        if b.counter[x] as int - 1 >= row {
          b.value[cell] := 128;
        } else {
          b.value[cell] := 0;
        }
        row := row + 1;
      }
      x := x + 1;
    }
  }

  /** Whether every bar is empty. */
  method AllDrained(b: Badge) returns (r: bool)
    requires b.Shape()
    ensures r <==> forall x :: 0 <= x < Width ==> b.counter[x] == 0
  {
    r := true;
    var x := 0;
    while x < Width
      invariant x <= Width
      invariant r <==> forall k :: 0 <= k < x ==> b.counter[k] == 0
    {
      if b.counter[x] != 0 {
        r := false;
      }
      x := x + 1;
    }
  }

  /** `step_level_8`: presses drain the bars, the bars grow at random, the bars
      are drawn, and the level is finished when every bar is empty. */
  method Level8(b: Badge) returns (finished: bool)
    requires b.Shape() && b.ant.Valid() && b.CellsOkAt(8)
    modifies b.value, b.counter, b.switchState, b`gameTimeout, b.ant, b.ant.cells
    ensures b.ant.Valid() && b.CellsOkAt(8)
    ensures forall x :: 0 <= x < Width ==>
              var drained := Drained(old(b.counter[x]), ColumnPresses(old(b.switchState[..]), x, Size));
              drained <= b.counter[x] && b.counter[x] as int <= Min(drained as int + 1, Height)
    ensures forall i :: 0 <= i < Size ==> b.value[i] == Bar(b.counter[..], old(b.value[..]), i)
    ensures forall i :: 0 <= i < Size ==> b.switchState[i] == if old(b.switchState[i]) == 1 then 0 else old(b.switchState[i])
    ensures finished <==> forall x :: 0 <= x < Width ==> b.counter[x] == 0
    ensures b.gameTimeout == if exists i :: 0 <= i < Size && old(b.switchState[i]) == 1 then 0 else old(b.gameTimeout)
  {
    Drain(b);
    Grow(b);
    ShowBars(b);
    finished := AllDrained(b);
  }

  // ----------------------------------------------------------------- level 7

  /** The lit cells of a field. */
  function LitCells(v: seq<byte>): (r: set<int>)
    requires |v| == Size
    ensures forall i :: i in r <==> 0 <= i < Size && v[i] > 0
  {
    set i | 0 <= i < Size && v[i] > 0
  }

  /** Whether cell i is one of the six targets (the inner loop over `node_lock`). */
  method IsTarget(b: Badge, i: nat) returns (r: bool)
    requires b.Shape()
    ensures r <==> Marked(b.lock[..], 6, i)
  {
    r := false;
    var k := 0;
    while k < 6
      invariant k <= 6
      invariant r <==> Marked(b.lock[..], k, i)
    {
      if b.lock[k] as int == i {
        r := true;
      }
      k := k + 1;
    }
  }

  /** The two checks of `step_level_7` together say exactly that the lit cells
      are the targets: every target lit, and every lit cell a target. */
  lemma SolvedMeans(v: seq<byte>, l: seq<byte>)
    requires |v| == Size && |l| == Size
    requires forall k :: 0 <= k < 6 ==> l[k] < Size as byte
    ensures ((forall j :: 0 <= j < 6 ==> v[l[j]] != 0)
             && (forall i :: 0 <= i < Size && v[i] > 0 ==> Marked(l, 6, i)))
            <==> LitCells(v) == Named(l, 6)
  {
    if LitCells(v) == Named(l, 6) {
      forall j | 0 <= j < 6
        ensures v[l[j]] != 0
      {
        assert Marked(l, 6, l[j] as int);
      }
    }
  }

  /** The check of `step_level_7`: every target lit, and every lit cell a target. */
  method Solved(b: Badge) returns (r: bool)
    requires b.Shape() && b.CellsOkAt(7)
    ensures r <==> LitCells(b.value[..]) == Named(b.lock[..], 6)
  {
    r := true;
    var k := 0;
    while k < 6
      invariant k <= 6
      invariant r <==> forall j :: 0 <= j < k ==> b.value[b.lock[j]] != 0
    {
      if b.value[b.lock[k]] == 0 {
        r := false;
      }
      k := k + 1;
    }
    var n := 0;
    while n < Size
      invariant n <= Size
      invariant r <==> (forall j :: 0 <= j < 6 ==> b.value[b.lock[j]] != 0)
                       && (forall i :: 0 <= i < n && b.value[i] > 0 ==> Marked(b.lock[..], 6, i))
    {
      if b.value[n] > 0 {
        var target := IsTarget(b, n);
        if !target {
          r := false;
        }
      }
      n := n + 1;
    }
    SolvedMeans(b.value[..], b.lock[..]);
  }

  /** The press loop of `step_level_7`. */
  method Toggles(b: Badge)
    requires b.Shape() && b.CellsOkAt(7)
    modifies b.value, b.switchState, b`gameTimeout
    ensures b.CellsOkAt(7)
    ensures forall i :: 0 <= i < Size ==> b.value[i] == if old(b.switchState[i]) == 1 then Toggle(old(b.value[i])) else old(b.value[i])
    ensures forall i :: 0 <= i < Size ==> b.switchState[i] == if old(b.switchState[i]) == 1 then 0 else old(b.switchState[i])
    ensures b.gameTimeout == if exists i :: 0 <= i < Size && old(b.switchState[i]) == 1 then 0 else old(b.gameTimeout)
  {
    ghost var sw0 := b.switchState[..];
    var n := 0;
    while n < Size
      invariant n <= Size && b.CellsOkAt(7)
      invariant b.gameTimeout == if exists i :: 0 <= i < n && sw0[i] == 1 then 0 else old(b.gameTimeout)
      invariant forall i :: 0 <= i < Size ==> b.value[i] == if i < n && sw0[i] == 1 then Toggle(old(b.value[i])) else old(b.value[i])
      invariant forall i :: 0 <= i < Size ==> b.switchState[i] == if i < n && sw0[i] == 1 then 0 else sw0[i]
    {
      if b.switchState[n] == 1 {
        b.gameTimeout := 0;
        b.switchState[n] := 0;
        if b.value[n] > 0 {
          b.value[n] := 0;
        } else {
          b.value[n] := 128;
        }
      }
      n := n + 1;
    }
  }

  /** Switches the six targets off once they have been shown. */
  method HideTargets(b: Badge)
    requires b.Shape() && b.CellsOkAt(7)
    modifies b.value
    ensures b.CellsOkAt(7)
    ensures forall i :: 0 <= i < Size ==> b.value[i] == if Marked(b.lock[..], 6, i) then 0 else old(b.value[i])
  {
    var k := 0;
    while k < 6
      invariant k <= 6 && b.CellsOkAt(7)
      invariant forall i :: 0 <= i < Size ==> b.value[i] == if Marked(b.lock[..], k, i) then 0 else old(b.value[i])
    {
      b.value[b.lock[k]] := 0;
      k := k + 1;
    }
  }

  /** `step_level_7`: the six targets are shown for 128 frames and then hidden;
      after that every press toggles a cell, and the level is finished when the
      lit cells are exactly the six targets. */
  method Level7(b: Badge) returns (finished: bool)
    requires b.Shape() && b.CellsOkAt(7)
    modifies b.value, b.counter, b.switchState, b`gameTimeout
    ensures b.CellsOkAt(7)
    ensures old(b.counter[0]) > 0 ==>
              && !finished && b.counter[0] == old(b.counter[0]) - 1
              && b.switchState[..] == old(b.switchState[..]) && b.gameTimeout == old(b.gameTimeout)
              && forall i :: 0 <= i < Size ==>
                   b.value[i] == if b.counter[0] == 0 && Marked(b.lock[..], 6, i) then 0 else old(b.value[i])
    ensures old(b.counter[0]) == 0 ==>
              && b.counter[..] == old(b.counter[..])
              && (forall i :: 0 <= i < Size ==>
                    b.value[i] == if old(b.switchState[i]) == 1 then Toggle(old(b.value[i])) else old(b.value[i]))
              && (forall i :: 0 <= i < Size ==>
                    b.switchState[i] == if old(b.switchState[i]) == 1 then 0 else old(b.switchState[i]))
              && (finished <==> LitCells(b.value[..]) == Named(b.lock[..], 6))
              && b.gameTimeout == if exists i :: 0 <= i < Size && old(b.switchState[i]) == 1 then 0 else old(b.gameTimeout)
  {
    finished := false;
    if b.counter[0] > 0 {
      b.counter[0] := b.counter[0] - 1;
      if b.counter[0] == 0 {
        HideTargets(b);
      }
    } else {
      Toggles(b);
      finished := Solved(b);
    }
  }

  // ----------------------------------------------------------------- level 5

  // Level 5 has seven walkers, one per column index k < 7: `node_deform[k]` is
  // the walker's cell and `node_counter[k]` is 1 while it is free and 2 once it
  // has been caught. `started_level_5` is 0 before the first press, 1 while
  // that press is held and 2 during the chase.

  /** The seven walker counters are 1 (free) or 2 (caught). */
  ghost predicate Walkers(c: seq<byte>)
    requires |c| == Size
  {
    forall k :: 0 <= k < Width ==> c[k] == 1 || c[k] == 2
  }

  /** Two cells at most one column and one row apart. */
  predicate Near(a: nat, c: nat) {
    var (xa, ya) := Coords(a);
    var (xc, yc) := Coords(c);
    -1 <= xa - xc <= 1 && -1 <= ya - yc <= 1
  }

  /** Some other walker that is free shares walker k's cell. */
  ghost predicate FreeNear(c: seq<byte>, d: seq<byte>, k: nat)
    requires |c| == Size && |d| == Size && k < Width
  {
    exists j :: 0 <= j < Width && j != k && c[j] == 1 && d[j] == d[k]
  }

  /** The release rule of `step_level_5`: a caught walker is set free when a
      free walker stands on its cell. */
  ghost function Freed(c: seq<byte>, d: seq<byte>, k: nat): byte
    requires |c| == Size && |d| == Size && k < Width
  {
    if c[k] == 2 && FreeNear(c, d, k) then 1 else c[k]
  }

  /** After the release loop no caught walker shares a cell with a free one,
      even though walkers set free during the loop are not looked at again. */
  lemma FreedApart(c: seq<byte>, d: seq<byte>, k: nat, j: nat)
    requires |c| == Size && |d| == Size && k < Width && j < Width
    requires Freed(c, d, k) == 2 && Freed(c, d, j) == 1
    ensures d[k] != d[j]
  {
    if c[j] != 1 {
      // j was caught and is set free by some free walker u on its cell; u
      // is not k, which is caught
      var u :| 0 <= u < Width && u != j && c[u] == 1 && d[u] == d[j];
      assert u != k;
    }
  }

  /** The first part of `step_level_5`: before the first press every walker
      waits; a press puts all seven on the last pressed cell. */
  method Start(b: Badge)
    requires b.Shape()
    modifies b.deform, b.counter, b`startedLevel5, b`gameTimeout
    ensures var cell := Aimed(b.switchState[..], Size, Size);
            if cell < Size then
              && b.startedLevel5 == 1 && b.gameTimeout == 0
              && (forall k :: 0 <= k < Width ==> b.deform[k] as int == cell && b.counter[k] == 1)
              && (forall i :: Width <= i < Size ==> b.deform[i] == old(b.deform[i]) && b.counter[i] == old(b.counter[i]))
            else
              && b.startedLevel5 == old(b.startedLevel5) && b.gameTimeout == old(b.gameTimeout)
              && b.deform[..] == old(b.deform[..]) && b.counter[..] == old(b.counter[..])
  {
    var n := 0;
    while n < Size
      invariant n <= Size
      invariant var cell := Aimed(b.switchState[..], n, Size);
                if cell < Size then
                  && b.startedLevel5 == 1 && b.gameTimeout == 0
                  && (forall k :: 0 <= k < Width ==> b.deform[k] as int == cell && b.counter[k] == 1)
                  && (forall i :: Width <= i < Size ==> b.deform[i] == old(b.deform[i]) && b.counter[i] == old(b.counter[i]))
                else
                  && b.startedLevel5 == old(b.startedLevel5) && b.gameTimeout == old(b.gameTimeout)
                  && b.deform[..] == old(b.deform[..]) && b.counter[..] == old(b.counter[..])
    {
      if b.switchState[n] == 1 {
        b.gameTimeout := 0;
        b.startedLevel5 := 1;
        var k := 0;
        while k < Width
          invariant k <= Width && b.startedLevel5 == 1 && b.gameTimeout == 0
          invariant forall j :: 0 <= j < k ==> b.deform[j] as int == n && b.counter[j] == 1
          invariant forall i :: Width <= i < Size ==> b.deform[i] == old(b.deform[i]) && b.counter[i] == old(b.counter[i])
        {
          b.deform[k] := n as byte;
          b.counter[k] := 1;
          k := k + 1;
        }
      }
      n := n + 1;
    }
  }

  /** Whether any switch is pressed. */
  method AnyPressed(b: Badge) returns (r: bool)
    requires b.Shape()
    ensures r <==> exists i :: 0 <= i < Size && b.switchState[i] == 1
    ensures r ==> b.gameTimeout == 0
    modifies b`gameTimeout
    ensures !r ==> b.gameTimeout == old(b.gameTimeout)
  {
    r := false;
    var n := 0;
    while n < Size
      invariant n <= Size
      invariant r <==> exists i :: 0 <= i < n && b.switchState[i] == 1
      invariant r ==> b.gameTimeout == 0
      invariant !r ==> b.gameTimeout == old(b.gameTimeout)
    {
      if b.switchState[n] == 1 {
        b.gameTimeout := 0;
        r := true;
      }
      n := n + 1;
    }
  }

  /** The catching loop: a free walker whose cell is pressed is caught. */
  method Catch(b: Badge)
    requires b.Shape() && b.CellsOkAt(5)
    modifies b.counter, b`gameTimeout
    ensures forall k :: 0 <= k < Width ==>
              b.counter[k] == if old(b.counter[k]) == 1 && b.switchState[b.deform[k]] == 1 then 2 else old(b.counter[k])
    ensures forall i :: Width <= i < Size ==> b.counter[i] == old(b.counter[i])
    ensures b.gameTimeout == if exists k :: 0 <= k < Width && old(b.counter[k]) == 1 && b.switchState[b.deform[k]] == 1
                             then 0 else old(b.gameTimeout)
  {
    var k := 0;
    while k < Width
      invariant k <= Width
      invariant b.gameTimeout == if exists j :: 0 <= j < k && old(b.counter[j]) == 1 && b.switchState[b.deform[j]] == 1
                                 then 0 else old(b.gameTimeout)
      invariant forall j :: 0 <= j < Width ==>
                  b.counter[j] == if j < k && old(b.counter[j]) == 1 && b.switchState[b.deform[j]] == 1 then 2 else old(b.counter[j])
      invariant forall i :: Width <= i < Size ==> b.counter[i] == old(b.counter[i])
    {
      var cell := b.deform[k];
      if b.counter[k] == 1 {
        if b.switchState[cell] == 1 {
          b.gameTimeout := 0;
          b.counter[k] := 2;
        }
      }
      k := k + 1;
    }
  }

  /** One step of a free walker: each of the four directions with one chance
      in 64, stopping at the border. */
  method Stray(b: Badge, cell: nat) returns (next: nat)
    requires b.Shape() && b.ant.Valid() && cell < Size
    modifies b.ant, b.ant.cells
    ensures b.ant.Valid() && next < Size && Near(cell, next)
  {
    var (x, y) := Coords(cell);
    var nx, ny := x as int, y as int;
    var r := b.RandRange(64);
    if r == 0 { nx := nx + 1; }
    r := b.RandRange(64);
    if r == 0 { nx := nx - 1; }
    r := b.RandRange(64);
    if r == 0 { ny := ny + 1; }
    r := b.RandRange(64);
    if r == 0 { ny := ny - 1; }
    if nx >= Width { nx := Width - 1; }
    if nx < 0 { nx := 0; }
    if ny >= Height { ny := Height - 1; }
    if ny < 0 { ny := 0; }
    CoordsOfOffset(nx, ny);
    next := Offset(nx, ny);
  }

  /** The wandering loop: every free walker strays. */
  method Wander(b: Badge)
    requires b.Shape() && b.ant.Valid() && b.CellsOkAt(5)
    modifies b.deform, b.ant, b.ant.cells
    ensures b.ant.Valid() && b.CellsOkAt(5)
    ensures forall k :: 0 <= k < Width ==>
              if b.counter[k] == 1 then Near(old(b.deform[k]) as nat, b.deform[k] as nat) else b.deform[k] == old(b.deform[k])
    ensures forall i :: Width <= i < Size ==> b.deform[i] == old(b.deform[i])
  {
    var k := 0;
    while k < Width
      invariant k <= Width && b.ant.Valid() && b.CellsOkAt(5)
      invariant forall j :: 0 <= j < Width ==>
                  if j < k && b.counter[j] == 1 then Near(old(b.deform[j]) as nat, b.deform[j] as nat)
                  else b.deform[j] == old(b.deform[j])
      invariant forall i :: Width <= i < Size ==> b.deform[i] == old(b.deform[i])
    {
      if b.counter[k] == 1 {
        var next := Stray(b, b.deform[k] as nat);
        b.deform[k] := next as byte;
      }
      k := k + 1;
    }
  }

  /** Whether some other free walker stands on walker k's cell (the inner loop
      of the release loop). */
  method SharesWithFree(b: Badge, k: nat) returns (r: bool)
    requires b.Shape() && k < Width
    ensures r <==> FreeNear(b.counter[..], b.deform[..], k)
  {
    r := false;
    var j := 0;
    while j < Width
      invariant j <= Width
      invariant r <==> exists i :: 0 <= i < j && i != k && b.counter[i] == 1 && b.deform[i] == b.deform[k]
    {
      if j != k && b.counter[j] == 1 && b.deform[j] == b.deform[k] {
        r := true;
      }
      j := j + 1;
    }
  }

  /** The release loop: caught walkers are looked at in order, and one that
      shares its cell with a free walker is set free. */
  method Release(b: Badge)
    requires b.Shape()
    modifies b.counter
    ensures forall k :: 0 <= k < Width ==> b.counter[k] == Freed(old(b.counter[..]), b.deform[..], k)
    ensures forall i :: Width <= i < Size ==> b.counter[i] == old(b.counter[i])
  {
    ghost var c0 := b.counter[..];
    var k := 0;
    while k < Width
      invariant k <= Width
      invariant forall j :: 0 <= j < Width ==> b.counter[j] == if j < k then Freed(c0, b.deform[..], j) else c0[j]
      invariant forall i :: Width <= i < Size ==> b.counter[i] == c0[i]
    {
      if b.counter[k] == 2 {
        var crowded := SharesWithFree(b, k);
        if crowded {
          var j :| 0 <= j < Width && j != k && b.counter[j] == 1 && b.deform[j] == b.deform[k];
          if c0[j] != 1 {
            // j was set free earlier in this loop, by a walker free from the start
            assert FreeNear(c0, b.deform[..], j);
            var u :| 0 <= u < Width && u != j && c0[u] == 1 && b.deform[u] == b.deform[j];
            assert u != k;
          }
          assert FreeNear(c0, b.deform[..], k);
          b.counter[k] := 1;
        } else {
          forall u | 0 <= u < Width && u != k && c0[u] == 1
            ensures b.deform[u] != b.deform[k]
          {
            assert b.counter[u] == 1;
          }
        }
      }
      k := k + 1;
    }
  }

  /** Whether all seven walkers are caught. */
  method AllCaught(b: Badge) returns (r: bool)
    requires b.Shape()
    ensures r <==> forall k :: 0 <= k < Width ==> b.counter[k] == 2
  {
    r := true;
    var k := 0;
    while k < Width
      invariant k <= Width
      invariant r <==> forall j :: 0 <= j < k ==> b.counter[j] == 2
    {
      if b.counter[k] != 2 {
        r := false;
      }
      k := k + 1;
    }
  }

  /** One frame of the chase. */
  method Chase(b: Badge) returns (finished: bool)
    requires b.Shape() && b.ant.Valid() && b.CellsOkAt(5)
    modifies b.deform, b.counter, b`gameTimeout, b.ant, b.ant.cells
    ensures b.ant.Valid() && b.CellsOkAt(5)
    ensures Walkers(old(b.counter[..])) ==> Walkers(b.counter[..])
    ensures forall k :: 0 <= k < Width ==>
              (b.counter[k] == 2 ==>
                 b.deform[k] == old(b.deform[k]) && (old(b.counter[k]) == 2 || b.switchState[old(b.deform[k])] == 1))
              && (b.counter[k] == 1 ==> Near(old(b.deform[k]) as nat, b.deform[k] as nat))
    ensures forall k, j :: 0 <= k < Width && 0 <= j < Width && b.counter[k] == 2 && b.counter[j] == 1 ==> b.deform[k] != b.deform[j]
    ensures finished <==> forall k :: 0 <= k < Width ==> b.counter[k] == 2
    // a press on a free walker's cell resets the timeout
    ensures b.gameTimeout == if exists k :: 0 <= k < Width && old(b.counter[k]) == 1 && b.switchState[old(b.deform[k])] == 1 then 0 else old(b.gameTimeout)
  {
    Catch(b);
    ghost var caught := b.counter[..];
    Wander(b);
    Release(b);
    forall k, j | 0 <= k < Width && 0 <= j < Width && b.counter[k] == 2 && b.counter[j] == 1
      ensures b.deform[k] != b.deform[j]
    {
      FreedApart(caught, b.deform[..], k, j);
    }
    finished := AllCaught(b);
  }

  /** `step_level_5`: the first press gathers the seven walkers on the pressed
      cell; once it is released the chase starts, in which a press on a free
      walker catches it and a free walker on a caught walker's cell frees it. The
      level is finished when all seven are caught. */
  method Level5(b: Badge) returns (finished: bool)
    requires b.Shape() && b.ant.Valid() && b.CellsOkAt(5) && b.startedLevel5 <= 2
    modifies b.deform, b.counter, b`startedLevel5, b`gameTimeout, b.ant, b.ant.cells
    ensures b.ant.Valid() && b.CellsOkAt(5)
    ensures old(b.startedLevel5) <= b.startedLevel5 <= 2
    ensures finished ==> b.startedLevel5 == 2
    ensures old(b.startedLevel5) == 0 ==>
              var cell := Aimed(b.switchState[..], Size, Size);
              if cell < Size then
                b.startedLevel5 == 1 && forall k :: 0 <= k < Width ==> b.deform[k] as int == cell && b.counter[k] == 1
              else
                b.startedLevel5 == 0 && b.deform[..] == old(b.deform[..]) && b.counter[..] == old(b.counter[..])
    ensures old(b.startedLevel5) == 1 ==>
              (b.startedLevel5 == 2 <==> forall i :: 0 <= i < Size ==> b.switchState[i] != 1)
    ensures b.startedLevel5 == 2 ==>
              && (Walkers(old(b.counter[..])) ==> Walkers(b.counter[..]))
              && (forall k :: 0 <= k < Width ==>
                    (b.counter[k] == 2 ==>
                       b.deform[k] == old(b.deform[k]) && (old(b.counter[k]) == 2 || b.switchState[old(b.deform[k])] == 1))
                    && (b.counter[k] == 1 ==> Near(old(b.deform[k]) as nat, b.deform[k] as nat)))
              && (forall k, j :: 0 <= k < Width && 0 <= j < Width && b.counter[k] == 2 && b.counter[j] == 1
                    ==> b.deform[k] != b.deform[j])
              && (finished <==> forall k :: 0 <= k < Width ==> b.counter[k] == 2)
    // before the chase any press resets the timeout; in it, a press on a free walker
    ensures b.gameTimeout ==
      if || (old(b.startedLevel5) < 2 && exists i :: 0 <= i < Size && b.switchState[i] == 1)
         || (old(b.startedLevel5) == 2 && exists k :: 0 <= k < Width && old(b.counter[k]) == 1 && b.switchState[old(b.deform[k])] == 1)
      then 0 else old(b.gameTimeout)
  {
    finished := false;
    if b.startedLevel5 == 0 {
      Start(b);
      assert b.CellsOkAt(5);
    }
    if b.startedLevel5 == 1 {
      var held := AnyPressed(b);
      if !held {
        b.startedLevel5 := 2;
      }
    }
    if b.startedLevel5 == 2 {
      finished := Chase(b);
    }
  }

  // ----------------------------------------------------------------- level 6

  /** A level-6 cell after the presses: a lit cell that is pressed goes dark. */
  function Shot(v: seq<byte>, sw: seq<byte>, i: nat): byte
    requires |v| == Size && |sw| == Size && i < Size
  {
    if sw[i] == 1 && v[i] == 255 then 0 else v[i]
  }

  /** Some cell of column x is lit. */
  ghost predicate ColumnLit(v: seq<byte>, x: nat)
    requires |v| == Size
  {
    exists j :: 0 <= j < Size && ColumnOf(j) == x && v[j] == 255
  }

  /** The press loop of `step_level_6`. The switch states are left as they are. */
  method Shoot(b: Badge)
    requires b.Shape()
    modifies b.value, b`gameTimeout
    ensures forall i :: 0 <= i < Size ==> b.value[i] == Shot(old(b.value[..]), b.switchState[..], i)
    ensures b.gameTimeout == if exists i :: 0 <= i < Size && b.switchState[i] == 1 then 0 else old(b.gameTimeout)
  {
    ghost var v0 := b.value[..];
    var n := 0;
    while n < Size
      invariant n <= Size
      invariant b.gameTimeout == if exists i :: 0 <= i < n && b.switchState[i] == 1 then 0 else old(b.gameTimeout)
      invariant forall i :: 0 <= i < Size ==> b.value[i] == if i < n then Shot(v0, b.switchState[..], i) else v0[i]
    {
      if b.switchState[n] == 1 {
        b.gameTimeout := 0;
        if b.value[n] == 255 {
          b.value[n] := 0;
        }
      }
      n := n + 1;
    }
  }

  /** Whether any cell is still lit. */
  method AnyLit(b: Badge) returns (r: bool)
    requires b.Shape()
    ensures r <==> exists i :: 0 <= i < Size && b.value[i] == 255
  {
    r := false;
    var n := 0;
    while n < Size
      invariant n <= Size
      invariant r <==> exists i :: 0 <= i < n && b.value[i] == 255
    {
      if b.value[n] == 255 {
        r := true;
      }
      n := n + 1;
    }
  }

  /** The falling loop of `step_level_6`, from the last cell back to the first:
      a lit cell moves one row down with one chance in twelve, wrapping from the
      bottom row to the top one. Comets never leave their column. */
  method Fall(b: Badge)
    requires b.Shape() && b.ant.Valid() && b.CellsOkAt(6)
    modifies b.value, b.ant, b.ant.cells
    ensures b.ant.Valid() && b.CellsOkAt(6)
    ensures forall i :: 0 <= i < Size && b.value[i] == 255 ==> ColumnLit(old(b.value[..]), ColumnOf(i))
  {
    ghost var v0 := b.value[..];
    var n := Size;
    while n > 0
      invariant n <= Size && b.ant.Valid() && b.CellsOkAt(6)
      invariant forall i :: 0 <= i < Size && b.value[i] == 255 ==> ColumnLit(v0, ColumnOf(i))
    {
      n := n - 1;
      if b.value[n] == 255 {
        var r := b.RandRange(12);
        if r == 0 {
          assert ColumnLit(v0, ColumnOf(n));
          b.value[n] := 0;
          var (x, y) := Coords(n);
          var below := if y + 1 == Height then 0 else y + 1;
          CoordsOfOffset(x, below);
          b.value[Offset(x, below)] := 255;
        }
      }
    }
  }

  /** `step_level_6`: presses put out lit cells; the level is finished when none
      is left, and otherwise the remaining comets fall. */
  method Level6(b: Badge) returns (finished: bool)
    requires b.Shape() && b.ant.Valid() && b.CellsOkAt(6)
    modifies b.value, b`gameTimeout, b.ant, b.ant.cells
    ensures b.ant.Valid() && b.CellsOkAt(6)
    ensures finished <==> forall i :: 0 <= i < Size ==> Shot(old(b.value[..]), b.switchState[..], i) != 255
    ensures finished ==> forall i :: 0 <= i < Size ==> b.value[i] == Shot(old(b.value[..]), b.switchState[..], i)
    ensures forall i :: 0 <= i < Size && b.value[i] == 255 ==>
              exists j :: 0 <= j < Size && ColumnOf(j) == ColumnOf(i) && Shot(old(b.value[..]), b.switchState[..], j) == 255
    ensures b.gameTimeout == if exists i :: 0 <= i < Size && b.switchState[i] == 1 then 0 else old(b.gameTimeout)
  {
    ghost var v0 := b.value[..];
    Shoot(b);
    ghost var shot := b.value[..];
    assert forall i :: 0 <= i < Size ==> shot[i] == Shot(v0, b.switchState[..], i);
    var lit := AnyLit(b);
    finished := !lit;
    if !lit {
      forall i | 0 <= i < Size
        ensures Shot(v0, b.switchState[..], i) != 255
      {
        assert shot[i] != 255;
      }
    } else {
      ghost var sw := b.switchState[..];
      ghost var k :| 0 <= k < Size && shot[k] == 255;
      assert Shot(v0, sw, k) == 255;
      Fall(b);
      assert b.switchState[..] == sw;
      forall i | 0 <= i < Size && b.value[i] == 255
        ensures exists j :: 0 <= j < Size && ColumnOf(j) == ColumnOf(i) && Shot(v0, sw, j) == 255
      {
        var j :| 0 <= j < Size && ColumnOf(j) == ColumnOf(i) && shot[j] == 255;
      }
    }
  }

  // ----------------------------------------------------------------- level 9

  /** The snake's target after the presses: the last cell pressed, or the old
      target when nothing was pressed. */
  function Aimed(sw: seq<byte>, n: nat, target: nat): (r: nat)
    requires n <= |sw|
    ensures r == target || (r < n && sw[r] == 1)
    ensures (exists i :: 0 <= i < n && sw[i] == 1) ==> r < n && sw[r] == 1 && forall i :: r < i < n ==> sw[i] != 1
    ensures (forall i :: 0 <= i < n ==> sw[i] != 1) ==> r == target
  {
    if n == 0 then target
    else if sw[n - 1] == 1 then n - 1
    else Aimed(sw, n - 1, target)
  }

  /** One step of the head in direction d (0 right, 1 left, 2 down, 3 up),
      stopping at the border. */
  function Moved(head: nat, d: nat): (r: nat)
    requires head < Size
    ensures r < Size
    ensures r == head || Neighbours(head, r)
  {
    var (x, y) := Coords(head);
    var (x', y') :=
      if d == 0 then (if x + 1 >= Width then Width - 1 else x + 1, y)
      else if d == 1 then (if x == 0 then 0 else x - 1, y)
      else if d == 2 then (x, if y + 1 >= Height then Height - 1 else y + 1)
      else if d == 3 then (x, if y == 0 then 0 else y - 1)
      else (x, y);
    CoordsOfOffset(x', y');
    Offset(x', y')
  }

  /** Two cells side by side or one above the other. */
  predicate Neighbours(a: nat, c: nat) {
    var (xa, ya) := Coords(a);
    var (xc, yc) := Coords(c);
    (xa == xc && (ya == yc + 1 || yc == ya + 1)) || (ya == yc && (xa == xc + 1 || xc == xa + 1))
  }

  /** The press loop of `step_level_9`: the last pressed cell becomes the target. */
  method Aim(b: Badge)
    requires b.Shape() && b.counter[1] as int <= Size
    modifies b.counter, b.switchState, b`gameTimeout
    ensures b.counter[..] == old(b.counter[..])[1 := Aimed(old(b.switchState[..]), Size, old(b.counter[1]) as nat) as byte]
    ensures forall i :: 0 <= i < Size ==> b.switchState[i] == if old(b.switchState[i]) == 1 then 0 else old(b.switchState[i])
    ensures b.gameTimeout == if exists i :: 0 <= i < Size && old(b.switchState[i]) == 1 then 0 else old(b.gameTimeout)
  {
    ghost var sw0 := b.switchState[..];
    var n := 0;
    while n < Size
      invariant n <= Size
      invariant b.gameTimeout == if exists i :: 0 <= i < n && sw0[i] == 1 then 0 else old(b.gameTimeout)
      invariant b.counter[..] == old(b.counter[..])[1 := Aimed(sw0, n, old(b.counter[1]) as nat) as byte]
      invariant forall i :: 0 <= i < Size ==> b.switchState[i] == if i < n && sw0[i] == 1 then 0 else sw0[i]
    {
      if b.switchState[n] == 1 {
        b.gameTimeout := 0;
        b.counter[1] := n as byte;
        b.switchState[n] := 0;
      }
      n := n + 1;
    }
  }

  /** The body follows the head: every segment takes the place of the one in
      front of it, and the last one is dropped. */
  method Shift(b: Badge)
    requires b.Shape()
    modifies b.deform
    ensures b.deform[1..] == old(b.deform[..Size - 1])
    ensures b.deform[0] == old(b.deform[0])
  {
    var n := Size - 1;
    while n > 0
      invariant 0 <= n <= Size - 1
      invariant forall i :: 0 <= i <= n ==> b.deform[i] == old(b.deform[i])
      invariant forall i :: n < i < Size ==> b.deform[i] == old(b.deform[i - 1])
    {
      b.deform[n] := b.deform[n - 1];
      n := n - 1;
    }
  }

  /** The first of the segments lo..hi-1 that lies on cell c, or hi when none does. */
  function FirstOn(d: seq<byte>, c: nat, lo: nat, hi: nat): (r: nat)
    requires lo <= hi <= |d|
    ensures lo <= r <= hi
    ensures r < hi ==> d[r] as nat == c
    ensures forall i :: lo <= i < r ==> d[i] as nat != c
    decreases hi - lo
  {
    if lo == hi then hi else if d[lo] as nat == c then lo else FirstOn(d, c, lo + 1, hi)
  }

  /** The shade segments lo..hi-1 leave on cell c when painted from the last
      to the first: 150 less 2 per segment for the first segment on it, or dark. */
  function Painted(d: seq<byte>, c: nat, lo: nat, hi: nat): (r: int)
    requires lo <= hi <= |d| && hi <= Size
    ensures 0 <= r <= 150
    ensures r != 0 <==> exists i :: lo <= i < hi && d[i] as nat == c
  {
    var f := FirstOn(d, c, lo, hi);
    if f < hi then 150 - 2 * f else 0
  }

  /** What `step_level_9` draws: the target at 255, then the head at 150, then
      a cell the body covers shows 150 less 2 per segment for the first of the
      first `length` segments on it, and every other cell is dark. */
  ghost predicate Drawn(v: seq<byte>, d: seq<byte>, length: nat, target: nat)
    requires |v| == Size && |d| == Size && length <= Size
  {
    forall c :: 0 <= c < Size ==>
      v[c] as int == if c == target then 255
                     else if c == d[0] as int then 150
                     else Painted(d, c, 0, length)
  }

  /** The drawing loops of `step_level_9`, on a cleared field. */
  method ShowSnake(b: Badge)
    requires b.Shape() && b.CellsOkAt(9) && Filled(b.value[..], 0)
    modifies b.value
    ensures Drawn(b.value[..], b.deform[..], b.counter[0] as nat, b.counter[1] as nat)
  {
    var length := b.counter[0] as int;
    var n := Size;
    while n > 0
      invariant 0 <= n <= Size
      invariant forall c :: 0 <= c < Size ==>
                  b.value[c] as int == Painted(b.deform[..], c, if n < length then n else length, length)
    {
      n := n - 1;
      if n < length {
        var cell := b.deform[n];
        if cell < Size as byte {
          b.value[cell] := (150 - n * 2) as byte;
        }
      }
    }
    b.value[b.deform[0]] := 150;
    if b.counter[1] < Size as byte {
      b.value[b.counter[1]] := 255;
    }
  }

  /** The move of the snake once the head's next cell is known. */
  method Crawl(b: Badge, next: nat) returns (finished: bool)
    requires b.Shape() && b.CellsOkAt(9) && next < Size
    requires next == b.deform[0] as nat || Neighbours(b.deform[0] as nat, next)
    modifies b.deform, b.counter
    ensures var target := old(b.counter[1]) as nat;
            var moved := next != old(b.deform[0]) as nat && next != old(b.deform[1]) as nat;
            && (if moved then b.deform[1..] == old(b.deform[..Size - 1]) && b.deform[0] as nat == next
                else b.deform[..] == old(b.deform[..]))
            && (finished <==> moved && next == target && old(b.counter[0]) <= 1)
            && (!finished ==>
                  && b.CellsOkAt(9)
                  && if moved && next == target
                     then b.counter[0] == old(b.counter[0]) - 1 && b.counter[1] == Size as byte
                     else b.counter[0] == old(b.counter[0]) && b.counter[1] == old(b.counter[1]))
  {
    finished := false;
    if next != b.deform[0] as nat && next != b.deform[1] as nat {
      Shift(b);
      b.deform[0] := next as byte;
      if next == b.counter[1] as nat {
        if b.counter[0] > 1 {
          b.counter[0] := b.counter[0] - 1;
        } else {
          return true;
        }
        b.counter[1] := Size as byte;
      }
    }
  }

  /** `step_level_9`: the target is the last pressed cell; the head takes one
      random step, and the body follows unless the step goes nowhere or back
      onto the second segment; reaching the target shortens the snake by one,
      and reaching it when only one segment is left finishes the level. */
  method Level9(b: Badge) returns (finished: bool)
    requires b.Shape() && b.ant.Valid() && b.CellsOkAt(9)
    modifies b.value, b.deform, b.counter, b.switchState, b`gameTimeout, b.ant, b.ant.cells
    ensures b.ant.Valid()
    ensures forall i :: 0 <= i < Size ==> b.switchState[i] == if old(b.switchState[i]) == 1 then 0 else old(b.switchState[i])
    ensures var target := Aimed(old(b.switchState[..]), Size, old(b.counter[1]) as nat);
            var moved := b.deform[..] != old(b.deform[..]);
            && (moved ==> b.deform[1..] == old(b.deform[..Size - 1]) && Neighbours(old(b.deform[0]) as nat, b.deform[0] as nat)
                          && b.deform[0] != old(b.deform[1]))
            && (finished <==> moved && b.deform[0] as int == target && old(b.counter[0]) <= 1)
            && (!finished ==>
                  && b.CellsOkAt(9)
                  && Drawn(b.value[..], b.deform[..], b.counter[0] as nat, b.counter[1] as nat)
                  && if moved && b.deform[0] as int == target
                     then b.counter[0] == old(b.counter[0]) - 1 && b.counter[1] == Size as byte
                     else b.counter[0] == old(b.counter[0]) && b.counter[1] as int == target)
    ensures b.gameTimeout == if exists i :: 0 <= i < Size && old(b.switchState[i]) == 1 then 0 else old(b.gameTimeout)
  {
    Fill(b.value, 0);
    Aim(b);
    var always := b.RandRange(1);
    var d := b.RandRange(4);
    var next := Moved(b.deform[0] as nat, d);
    ghost var d0 := b.deform[..];
    finished := Crawl(b, next);
    assert b.deform[..] != d0 ==> next != d0[0] as nat;
    if !finished {
      ShowSnake(b);
    }
  }
}
