/** The first level bodies of the blue badge, `step_level_0` to
    `step_level_4`. As in FinalLevels, a level that completes returns
    `finished` and the step dispatcher runs the next `level_init`. */
module OpeningLevels {
  import opened Grid
  import opened Render
  import opened Firmware

  /** The clamp to 0..255 the levels apply before storing a byte. */
  function Sat(x: int): (r: byte)
    ensures x <= 0 ==> r == 0
    ensures x >= 255 ==> r == 255
    ensures 0 <= x <= 255 ==> r as int == x
  {
    if x < 0 then 0 else if x > 255 then 255 else x as byte
  }

  // ----------------------------------------------------------------- level 0

  /** One frame of a held button on the attract screen: the drain `d` grows by
      one (up to 255) and every cell loses that much. */
  function HeldStep(v: byte, d: byte): (byte, byte)
  {
    var d' := if d < 255 then d + 1 else d;
    (Sat(v as int - d' as int), d')
  }

  /** A cell after k frames of holding, from drain d. */
  function Held(v: byte, d: byte, k: nat): byte
    decreases k
  {
    if k == 0 then v
    else var (v', d') := HeldStep(v, d); Held(v', d', k - 1)
  }

  /** 1 + 2 + ... + k. */
  function Tri(k: nat): nat
  {
    if k == 0 then 0 else Tri(k - 1) + k
  }

  lemma {:induction false} HeldDrains(v: byte, d: byte, m: nat, k: nat)
    requires d as int >= m && m + k <= 255
    ensures Held(v, d, k) as int <= Max(0, v as int - (Tri(m + k) - Tri(m)))
    decreases k
  {
    if k > 0 {
      var (v', d') := HeldStep(v, d);
      assert Held(v, d, k) == Held(v', d', k - 1);
      assert d' as int >= m + 1 && v' as int <= Max(0, v as int - (m + 1));
      TriStep(m);
      HeldDrains(v', d', m + 1, k - 1);
      TriShift(m, k);
      TriMono(m + 1, m + k);
    }
  }

  lemma TriStep(m: nat)
    ensures Tri(m + 1) == Tri(m) + m + 1
  {
  }

  lemma {:induction false} TriShift(m: nat, k: nat)
    requires k > 0
    ensures Tri(m + k) - Tri(m) == (m + 1) + (Tri(m + 1 + (k - 1)) - Tri(m + 1))
  {
    TriStep(m);
  }

  lemma {:induction false} TriMono(i: nat, j: nat)
    requires i <= j
    ensures Tri(i) <= Tri(j)
    decreases j - i
  {
    if i < j {
      TriMono(i, j - 1);
    }
  }

  /** Holding any button clears the attract screen: after 23 frames every cell
      is dark, so the 24th frame finds nothing lit and starts level 1. */
  lemma HoldClears(v: byte, d: byte)
    ensures Held(v, d, 23) == 0
  {
    HeldDrains(v, d, 0, 23);
    TriValue();
  }

  lemma TriValue()
    ensures Tri(23) == 276
  {
    assert Tri(10) == 55;
    assert Tri(20) == 210;
  }

  /** The press loop of `step_level_0`: pressed cells go dark and are locked for
      255 frames. The switch states are left as they are. */
  method Blackout(b: Badge) returns (pressed: bool)
    requires b.Shape()
    modifies b.value, b.lock
    ensures pressed <==> exists i :: 0 <= i < Size && b.switchState[i] == 1
    ensures forall i :: 0 <= i < Size ==>
              b.value[i] == (if b.switchState[i] == 1 then 0 else old(b.value[i]))
              && b.lock[i] == (if b.switchState[i] == 1 then 255 else old(b.lock[i]))
  {
    pressed := false;
    var n := 0;
    while n < Size
      invariant n <= Size
      invariant pressed <==> exists i :: 0 <= i < n && b.switchState[i] == 1
      invariant forall i :: 0 <= i < Size ==>
                  b.value[i] == (if i < n && b.switchState[i] == 1 then 0 else old(b.value[i]))
                  && b.lock[i] == (if i < n && b.switchState[i] == 1 then 255 else old(b.lock[i]))
    {
      if b.switchState[n] == 1 {
        b.value[n] := 0;
        b.lock[n] := 255;
        pressed := true;
      }
      n := n + 1;
    }
  }

  /** The drain loop: every cell loses `drain`; returns whether all were dark. */
  method Drain(b: Badge, drain: byte) returns (dark: bool)
    requires b.Shape()
    modifies b.value
    ensures dark <==> forall i :: 0 <= i < Size ==> old(b.value[i]) == 0
    ensures forall i :: 0 <= i < Size ==> b.value[i] == Sat(old(b.value[i]) as int - drain as int)
  {
    dark := true;
    var n := 0;
    while n < Size
      invariant n <= Size
      invariant dark <==> forall i :: 0 <= i < n ==> old(b.value[i]) == 0
      invariant forall i :: 0 <= i < Size ==>
                  b.value[i] == if i < n then Sat(old(b.value[i]) as int - drain as int) else old(b.value[i])
    {
      if b.value[n] > 0 {
        dark := false;
        b.value[n] := Sat(b.value[n] as int - drain as int);
      }
      n := n + 1;
    }
  }

  /** The whole field brightens by 32 when cell 0 is bright, and dims by 32
      otherwise. */
  function Glowed(v: seq<byte>): (r: seq<byte>)
    requires |v| == Size
    ensures |r| == Size
  {
    seq(Size, i requires 0 <= i < Size => Sat(v[i] as int + (if v[0] > 127 then 32 else -32)))
  }

  method Glow(b: Badge)
    requires b.Shape()
    modifies b.value
    ensures b.value[..] == Glowed(old(b.value[..]))
  {
    var step := if b.value[0] > 127 then 32 else -32;
    var n := 0;
    while n < Size
      invariant n <= Size
      invariant forall i :: 0 <= i < Size ==>
                  b.value[i] == if i < n then Sat(old(b.value[i]) as int + step) else old(b.value[i])
    {
      b.value[n] := Sat(b.value[n] as int + step);
      n := n + 1;
    }
  }

  /** The twinkle of one attract-screen cell, given its new velocity: above 127
      an unlocked cell brightens by 64 and a locked one counts its lock down;
      otherwise the cell dims by 64. */
  function Twinkle(v: byte, lock: byte, velocity: byte): (byte, byte)
  {
    if velocity > 127 then
      if lock == 0 then (Sat(v as int + 64), lock) else (v, lock - 1)
    else (Sat(v as int - 64), lock)
  }

  /** Cells 0..n-1 of an idle attract-screen frame: each velocity has drifted by
      at most one within 125..130, and the cell has twinkled by it. */
  ghost predicate Twinkled(v0: seq<byte>, l0: seq<byte>, w0: seq<byte>, v: seq<byte>, l: seq<byte>, w: seq<byte>, n: nat)
    requires |v0| == Size && |l0| == Size && |w0| == Size && |v| == Size && |l| == Size && |w| == Size && n <= Size
  {
    forall i :: 0 <= i < n ==>
      && -1 <= w[i] as int - w0[i] as int <= 1 && 125 <= w[i] <= 130
      && v[i] == Twinkle(v0[i], l0[i], w[i]).0 && l[i] == Twinkle(v0[i], l0[i], w[i]).1
  }

  /** The twinkle of cell n. */
  method TwinkleAt(b: Badge, n: nat)
    requires b.Shape() && b.ant.Valid() && n < Size
    modifies b.value, b.lock, b.velocity, b.ant, b.ant.cells
    ensures b.ant.Valid()
    ensures 125 <= old(b.velocity[n]) <= 130 ==> -1 <= b.velocity[n] as int - old(b.velocity[n]) as int <= 1
    ensures 125 <= b.velocity[n] <= 130
    ensures b.value[n] == Twinkle(old(b.value[n]), old(b.lock[n]), b.velocity[n]).0
    ensures b.lock[n] == Twinkle(old(b.value[n]), old(b.lock[n]), b.velocity[n]).1
    ensures forall i :: 0 <= i < Size && i != n ==>
              b.value[i] == old(b.value[i]) && b.lock[i] == old(b.lock[i]) && b.velocity[i] == old(b.velocity[i])
  {
    var velocity := b.velocity[n] as int;
    var r := b.RandRange(3);
    if r == 0 {
      velocity := velocity + 1;
    } else if r == 1 {
      velocity := velocity - 1;
    }
    if velocity > 130 { velocity := 130; }
    if velocity < 125 { velocity := 125; }
    b.velocity[n] := velocity as byte;
    var t := Twinkle(b.value[n], b.lock[n], velocity as byte);
    b.value[n] := t.0;
    b.lock[n] := t.1;
  }

  /** The twinkle loop: each cell's velocity drifts by one at random within
      125..130 and the cell twinkles by it. */
  method Twinkles(b: Badge)
    requires b.Shape() && b.ant.Valid() && b.CellsOkAt(0)
    modifies b.value, b.lock, b.velocity, b.ant, b.ant.cells
    ensures b.ant.Valid()
    ensures Twinkled(old(b.value[..]), old(b.lock[..]), old(b.velocity[..]), b.value[..], b.lock[..], b.velocity[..], Size)
  {
    ghost var v0, l0, w0 := b.value[..], b.lock[..], b.velocity[..];
    var n := 0;
    while n < Size
      invariant n <= Size && b.ant.Valid()
      invariant Twinkled(v0, l0, w0, b.value[..], b.lock[..], b.velocity[..], n)
      invariant forall i :: n <= i < Size ==> b.value[i] == v0[i] && b.lock[i] == l0[i] && b.velocity[i] == w0[i]
    {
      TwinkleAt(b, n);
      n := n + 1;
    }
  }

  /** A held frame of the attract screen: pressed cells go dark and locked at 255,
      the drain grows, and every cell loses it. */
  ghost predicate HeldFrame(sw: seq<byte>, v0: seq<byte>, l0: seq<byte>, d0: byte, v: seq<byte>, l: seq<byte>, d: byte)
    requires |sw| == Size && |v0| == Size && |l0| == Size && |v| == Size && |l| == Size
  {
    forall i :: 0 <= i < Size ==>
      var dark := if sw[i] == 1 then 0 else v0[i];
      && v[i] == HeldStep(dark, d0).0 && d == HeldStep(dark, d0).1
      && l[i] == (if sw[i] == 1 then 255 else l0[i])
  }

  /** The rest of a held frame: the drain grows and every cell loses it;
      returns whether the field was already dark. */
  method Hold(b: Badge) returns (dark: bool)
    requires b.Shape()
    modifies b.value, b.deform
    ensures dark <==> forall i :: 0 <= i < Size ==> old(b.value[i]) == 0
    ensures forall i :: 0 <= i < Size ==>
              b.value[i] == HeldStep(old(b.value[i]), old(b.deform[0])).0 && b.deform[0] == HeldStep(old(b.value[i]), old(b.deform[0])).1
    ensures forall i :: 1 <= i < Size ==> b.deform[i] == old(b.deform[i])
  {
    if b.deform[0] < 255 {
      b.deform[0] := b.deform[0] + 1;
    }
    dark := Drain(b, b.deform[0]);
  }

  /** The rest of a frame without a press: the drain shrinks, and the field
      glows and twinkles. */
  method Idle(b: Badge)
    requires b.Shape() && b.ant.Valid() && b.CellsOkAt(0)
    modifies b.value, b.lock, b.deform, b.velocity, b.ant, b.ant.cells
    ensures b.ant.Valid()
    ensures b.deform[0] as int == Max(0, old(b.deform[0]) as int - 1)
    ensures forall i :: 1 <= i < Size ==> b.deform[i] == old(b.deform[i])
    ensures Twinkled(Glowed(old(b.value[..])), old(b.lock[..]), old(b.velocity[..]), b.value[..], b.lock[..], b.velocity[..], Size)
  {
    if b.deform[0] > 0 {
      b.deform[0] := b.deform[0] - 1;
    }
    Glow(b);
    Twinkles(b);
  }

  /** `step_level_0`, the attract screen: while any button is held the pressed
      cells go dark and everything drains faster and faster, and the level is
      finished once a held frame finds the field dark; otherwise the field
      glows and twinkles at random. */
  method Level0(b: Badge) returns (finished: bool)
    requires b.Shape() && b.ant.Valid() && b.CellsOkAt(0)
    modifies b.value, b.lock, b.deform, b.velocity, b.ant, b.ant.cells
    ensures b.ant.Valid() && b.CellsOkAt(0)
    ensures forall i :: 1 <= i < Size ==> b.deform[i] == old(b.deform[i])
    ensures (exists i :: 0 <= i < Size && b.switchState[i] == 1) ==>
              && HeldFrame(b.switchState[..], old(b.value[..]), old(b.lock[..]), old(b.deform[0]), b.value[..], b.lock[..], b.deform[0])
              && b.velocity[..] == old(b.velocity[..])
              && (finished <==> forall i :: 0 <= i < Size ==> b.switchState[i] == 1 || old(b.value[i]) == 0)
    ensures (forall i :: 0 <= i < Size ==> b.switchState[i] != 1) ==>
              && !finished
              && b.deform[0] as int == Max(0, old(b.deform[0]) as int - 1)
              && Twinkled(Glowed(old(b.value[..])), old(b.lock[..]), old(b.velocity[..]), b.value[..], b.lock[..], b.velocity[..], Size)
  {
    ghost var v0, l0 := b.value[..], b.lock[..];
    var pressed := Blackout(b);
    finished := false;
    if pressed {
      ghost var dark := b.value[..];
      assert forall i :: 0 <= i < Size ==> dark[i] == if b.switchState[i] == 1 then 0 else v0[i];
      finished := Hold(b);
    } else {
      assert b.value[..] == v0 && b.lock[..] == l0;
      Idle(b);
    }
  }

  // ----------------------------------------------------------------- level 1

  /** Some cell in columns lo..hi-1 is pressed. */
  ghost predicate PressedIn(sw: seq<byte>, lo: nat, hi: nat)
    requires |sw| == Size
  {
    exists i :: 0 <= i < Size && lo <= ColumnOf(i) < hi && sw[i] == 1
  }

  /** The scan of one column inside `step_level_1`'s side scans: whether a
      cell of column x is pressed; every press found resets the timeout. */
  method ColumnPressed(b: Badge, x: nat) returns (r: bool)
    requires b.Shape() && x < Width
    modifies b`gameTimeout
    ensures r <==> exists i :: 0 <= i < Size && ColumnOf(i) == x && b.switchState[i] == 1
    ensures b.gameTimeout == if r then 0 else old(b.gameTimeout)
  {
    r := false;
    var yo := 0;
    while yo < Height
      invariant yo <= Height
      invariant r <==> exists y :: 0 <= y < yo && b.switchState[Offset(x, y)] == 1
      invariant b.gameTimeout == if r then 0 else old(b.gameTimeout)
    {
      if b.switchState[Offset(x, yo)] == 1 {
        b.gameTimeout := 0;
        r := true;
      }
      yo := yo + 1;
    }
    if r {
      var y :| 0 <= y < Height && b.switchState[Offset(x, y)] == 1;
      CoordsOfOffset(x, y);
    }
    forall i | 0 <= i < Size && ColumnOf(i) == x && b.switchState[i] == 1
      ensures r
    {
      OffsetOfCoords(i);
      assert b.switchState[Offset(x, RowOf(i))] == 1;
    }
  }

  /** The scan of one side of the column: whether a cell in columns lo..hi-1 is pressed. */
  method SidePressed(b: Badge, lo: nat, hi: nat) returns (r: bool)
    requires b.Shape() && lo <= hi <= Width
    modifies b`gameTimeout
    ensures r <==> PressedIn(b.switchState[..], lo, hi)
    ensures b.gameTimeout == if r then 0 else old(b.gameTimeout)
  {
    r := false;
    var xo := lo;
    while xo < hi
      invariant lo <= xo <= hi
      invariant r <==> PressedIn(b.switchState[..], lo, xo)
      invariant b.gameTimeout == if r then 0 else old(b.gameTimeout)
    {
      var here := ColumnPressed(b, xo);
      r := r || here;
      xo := xo + 1;
    }
  }

  /** Sets every cell of column x to v. */
  method PaintColumn(b: Badge, x: nat, v: byte)
    requires b.Shape() && x < Width
    modifies b.value
    ensures forall i :: 0 <= i < Size ==> b.value[i] == if ColumnOf(i) == x then v else old(b.value[i])
  {
    var yo := 0;
    while yo < Height
      invariant yo <= Height
      invariant forall i :: 0 <= i < Size ==>
        b.value[i] == if ColumnOf(i) == x && RowOf(i) < yo then v else old(b.value[i])
    {
      CoordsOfOffset(x, yo);
      b.value[Offset(x, yo)] := v;
      yo := yo + 1;
    }
  }

  /** Sets every cell of columns lo..hi-1 to v. */
  method PaintColumns(b: Badge, lo: nat, hi: nat, v: byte)
    requires b.Shape() && lo <= hi <= Width
    modifies b.value
    ensures forall i :: 0 <= i < Size ==> b.value[i] == if lo <= ColumnOf(i) < hi then v else old(b.value[i])
  {
    var xo := lo;
    while xo < hi
      invariant lo <= xo <= hi
      invariant forall i :: 0 <= i < Size ==>
        b.value[i] == if lo <= ColumnOf(i) < xo then v else old(b.value[i])
    {
      PaintColumn(b, xo, v);
      xo := xo + 1;
    }
  }

  /** `fill_level_1`: each side of an inner column shows full where it holds a
      press and dark where it does not; an edge column changes nothing. */
  method FillLevel1(b: Badge)
    requires b.Shape() && b.columnLevel1 < Width
    modifies b.value
    ensures forall i :: 0 <= i < Size ==>
      b.value[i] == if 0 < b.columnLevel1 < Width - 1 && ColumnOf(i) != b.columnLevel1
                    then (if (if ColumnOf(i) < b.columnLevel1 then b.leftLevel1 else b.rightLevel1) then 255 else 0)
                    else old(b.value[i])
  {
    if b.columnLevel1 == Width - 1 || b.columnLevel1 == 0 {
      return;
    }
    PaintColumns(b, 0, b.columnLevel1, if b.leftLevel1 then 255 else 0);
    PaintColumns(b, b.columnLevel1 + 1, Width, if b.rightLevel1 then 255 else 0);
  }

  /** Sub-level 0 of `step_level_1`: the first pressed cell in index order is
      remembered, and the column of the last press read becomes the column. */
  method PickColumn(b: Badge)
    requires b.Shape() && b.buttonX < Width && b.subLevel1 == 0
    modifies b`subLevel1, b`columnLevel1, b`firstNodeLevel1, b`gameTimeout
    ensures if exists i :: 0 <= i < Size && b.switchState[i] == 1 then
              && b.subLevel1 == 1 && b.columnLevel1 == b.buttonX && b.gameTimeout == 0
              && b.firstNodeLevel1 < Size && b.switchState[b.firstNodeLevel1] == 1
              && (forall i :: 0 <= i < b.firstNodeLevel1 ==> b.switchState[i] != 1)
            else
              && b.subLevel1 == 0 && b.columnLevel1 == old(b.columnLevel1)
              && b.firstNodeLevel1 == old(b.firstNodeLevel1) && b.gameTimeout == old(b.gameTimeout)
  {
    var n := FirstMatch(b, Size, Size, Size, (k: nat) => true);
    if n < Size {
      b.columnLevel1, b.firstNodeLevel1, b.subLevel1 := b.buttonX, n, 1;
    }
  }

  /** Sub-level 2 of `step_level_1`: letting go of the first press clears the
      column and starts over; otherwise each side of an inner column lights up
      exactly when it holds a press, and presses on both sides finish. */
  method HoldColumn(b: Badge) returns (finished: bool)
    requires b.Shape() && b.columnLevel1 < Width && b.firstNodeLevel1 < Size && b.subLevel1 == 2
    modifies b.value, b`subLevel1, b`leftLevel1, b`rightLevel1, b`gameTimeout
    ensures finished <==>
      && b.switchState[b.firstNodeLevel1] != 0
      && PressedIn(b.switchState[..], 0, b.columnLevel1) && PressedIn(b.switchState[..], b.columnLevel1 + 1, Width)
    ensures b.switchState[b.firstNodeLevel1] == 0 ==>
      && b.subLevel1 == 0
      && forall i :: 0 <= i < Size ==> b.value[i] == if ColumnOf(i) == b.columnLevel1 then 0 else old(b.value[i])
    ensures b.switchState[b.firstNodeLevel1] != 0 ==>
      && b.subLevel1 == 2
      && forall i :: 0 <= i < Size ==>
           b.value[i] == if 0 < b.columnLevel1 < Width - 1 && ColumnOf(i) != b.columnLevel1
                         then (if (if ColumnOf(i) < b.columnLevel1 then PressedIn(b.switchState[..], 0, b.columnLevel1)
                                   else PressedIn(b.switchState[..], b.columnLevel1 + 1, Width)) then 255 else 0)
                         else old(b.value[i])
    // a press on either side of a held inner column resets the timeout
    ensures b.gameTimeout ==
      if b.switchState[b.firstNodeLevel1] != 0 && 0 < b.columnLevel1 < Width - 1
         && (PressedIn(b.switchState[..], 0, b.columnLevel1) || PressedIn(b.switchState[..], b.columnLevel1 + 1, Width))
      then 0 else old(b.gameTimeout)
  {
    finished := false;
    if b.switchState[b.firstNodeLevel1] == 0 {
      PaintColumn(b, b.columnLevel1, 0);
      b.subLevel1 := 0;
    } else if 0 < b.columnLevel1 < Width - 1 {
      b.leftLevel1, b.rightLevel1 := false, false;
      var left := SidePressed(b, 0, b.columnLevel1);
      var right := SidePressed(b, b.columnLevel1 + 1, Width);
      b.leftLevel1, b.rightLevel1 := left, right;
      FillLevel1(b);
      finished := left && right;
    }
  }

  /** `step_level_1`: a press picks a column (sub-level 0), the column is drawn
      (sub-level 1), and while its first press is held, presses on both sides
      of it finish the level (sub-level 2); letting go clears the column. */
  method Level1(b: Badge) returns (finished: bool)
    requires b.Shape() && b.LevelOkAt(1) && b.columnLevel1 < Width && b.firstNodeLevel1 < Size && b.buttonX < Width
    modifies b.value, b`subLevel1, b`columnLevel1, b`firstNodeLevel1, b`leftLevel1, b`rightLevel1, b`gameTimeout
    ensures b.columnLevel1 < Width && b.firstNodeLevel1 < Size
    ensures !finished ==> b.LevelOkAt(1)
    // the level ends exactly when the held press has presses on both sides
    ensures finished <==>
      && old(b.subLevel1) == 2 && b.switchState[b.firstNodeLevel1] != 0
      && PressedIn(b.switchState[..], 0, b.columnLevel1) && PressedIn(b.switchState[..], b.columnLevel1 + 1, Width)
    ensures old(b.subLevel1) == 0 ==>
      && b.value[..] == old(b.value[..])
      && if exists i :: 0 <= i < Size && b.switchState[i] == 1 then
           && b.subLevel1 == 1 && b.columnLevel1 == b.buttonX && b.gameTimeout == 0
           && b.switchState[b.firstNodeLevel1] == 1
           && (forall i :: 0 <= i < b.firstNodeLevel1 ==> b.switchState[i] != 1)
         else
           && b.subLevel1 == 0 && b.columnLevel1 == old(b.columnLevel1)
           && b.firstNodeLevel1 == old(b.firstNodeLevel1) && b.gameTimeout == old(b.gameTimeout)
    ensures old(b.subLevel1) == 1 ==>
      && b.subLevel1 == 2 && b.columnLevel1 == old(b.columnLevel1)
      && forall i :: 0 <= i < Size ==> b.value[i] == if ColumnOf(i) == b.columnLevel1 then 255 else old(b.value[i])
    ensures old(b.subLevel1) == 2 && b.switchState[old(b.firstNodeLevel1)] == 0 ==>
      && b.subLevel1 == 0 && b.columnLevel1 == old(b.columnLevel1)
      && forall i :: 0 <= i < Size ==> b.value[i] == if ColumnOf(i) == b.columnLevel1 then 0 else old(b.value[i])
    ensures old(b.subLevel1) == 2 && b.switchState[old(b.firstNodeLevel1)] != 0 ==>
      && b.subLevel1 == 2 && b.columnLevel1 == old(b.columnLevel1)
      && forall i :: 0 <= i < Size ==>
           b.value[i] == if 0 < b.columnLevel1 < Width - 1 && ColumnOf(i) != b.columnLevel1
                         then (if (if ColumnOf(i) < b.columnLevel1 then PressedIn(b.switchState[..], 0, b.columnLevel1)
                                   else PressedIn(b.switchState[..], b.columnLevel1 + 1, Width)) then 255 else 0)
                         else old(b.value[i])
    ensures old(b.subLevel1) == 1 ==> b.gameTimeout == old(b.gameTimeout)
    ensures old(b.subLevel1) == 2 ==>
      b.gameTimeout == (if b.switchState[old(b.firstNodeLevel1)] != 0 && 0 < b.columnLevel1 < Width - 1
                           && (PressedIn(b.switchState[..], 0, b.columnLevel1) || PressedIn(b.switchState[..], b.columnLevel1 + 1, Width))
                        then 0 else old(b.gameTimeout))
  {
    finished := false;
    if b.subLevel1 == 0 {
      PickColumn(b);
    } else if b.subLevel1 == 1 {
      PaintColumn(b, b.columnLevel1, 255);
      b.subLevel1 := 2;
    } else {
      finished := HoldColumn(b);
    }
  }

  // ----------------------------------------------------------------- level 2

  /** One frame of the chosen cell's pulse when it is not pressed: the new
      value and velocity, and whether the cell stays chosen. A cell at 64 starts
      rising by 3 a frame, one at 255 turns to fall by 3, and one falling back
      to 65 settles at 64 and is let go; the rise and fall clamp to 64..255. */
  function Throb(v: byte, w: byte): (byte, byte, bool)
  {
    if v == 64 then (65, 131, true)
    else if v == 255 then (254, 125, true)
    else if w == 125 && v == 65 then (64, 125, false)
    else (Max(64, Min(255, v as int + (w as int - 128))) as byte, w, true)
  }

  /** The part of the pulse in which `step_level_2` looks at the cell's switch. */
  predicate Sliding(v: byte, w: byte)
  {
    v != 64 && v != 255 && !(w == 125 && v == 65)
  }

  /** k frames of the pulse. */
  function Throbs(v: byte, w: byte, k: nat): (byte, byte)
    decreases k
  {
    if k == 0 then (v, w) else Throbs(Throb(v, w).0, Throb(v, w).1, k - 1)
  }

  lemma {:induction false} ThrobsAdd(v: byte, w: byte, j: nat, k: nat)
    ensures Throbs(v, w, j + k) == Throbs(Throbs(v, w, j).0, Throbs(v, w, j).1, k)
    decreases j
  {
    if j > 0 {
      ThrobsAdd(Throb(v, w).0, Throb(v, w).1, j - 1, k);
    }
  }

  lemma {:induction false} Rising(j: nat)
    requires j <= 63
    ensures Throbs(65, 131, j) == ((65 + 3 * j) as byte, 131)
  {
    if j > 0 {
      Rising(j - 1);
      ThrobsAdd(65, 131, j - 1, 1);
    }
  }

  lemma {:induction false} Falling(j: nat)
    requires j <= 63
    ensures Throbs(254, 125, j) == ((254 - 3 * j) as byte, 125)
  {
    if j > 0 {
      Falling(j - 1);
      ThrobsAdd(254, 125, j - 1, 1);
    }
  }

  /** A chosen cell left unpressed rises from 64 to 255 and falls back: after
      129 frames it is at 65 and falling, and the 130th frame sets it to 64 and
      lets it go, whatever velocity it started with. */
  lemma PulseCycle(w: byte)
    ensures Throbs(64, w, 129) == (65, 125)
    ensures Throb(65, 125) == (64, 125, false)
  {
    ThrobsAdd(64, w, 1, 128);
    ThrobsAdd(65, 131, 63, 65);
    Rising(63);
    ThrobsAdd(254, 131, 1, 64);
    ThrobsAdd(255, 131, 1, 63);
    Falling(63);
  }

  /** The finishing scan of `step_level_2`: every cell is out. */
  method AllOut(b: Badge) returns (out: bool)
    requires b.Shape()
    ensures out <==> forall i :: 0 <= i < Size ==> b.value[i] == 0
  {
    out := true;
    var n := 0;
    while n < Size
      invariant n <= Size
      invariant out <==> forall i :: 0 <= i < n ==> b.value[i] == 0
    {
      if b.value[n] > 0 {
        out := false;
      }
      n := n + 1;
    }
  }

  /** `step_level_2`: a random cell at rest is chosen and pulses; pressing it
      while it is above 64 puts it out, and the level ends when all are out. */
  method Level2(b: Badge) returns (finished: bool)
    requires b.Shape() && b.ant.Valid() && b.LevelOkAt(2)
    modifies b.value, b.velocity, b`nodeLevel2, b`gameTimeout, b.ant, b.ant.cells
    ensures b.ant.Valid()
    ensures !finished ==> b.LevelOkAt(2)
    ensures finished <==> forall i :: 0 <= i < Size ==> old(b.value[i]) == 0
    // only the chosen cell changes
    ensures forall i :: 0 <= i < Size && i != old(b.nodeLevel2) ==>
      b.value[i] == old(b.value[i]) && b.velocity[i] == old(b.velocity[i])
    // a cell goes out only under a press
    ensures forall i :: 0 <= i < Size && b.value[i] == 0 && old(b.value[i]) != 0 ==> b.switchState[i] == 1
    ensures old(b.nodeLevel2) == Size ==> b.nodeLevel2 == Size || (b.nodeLevel2 < Size && b.value[b.nodeLevel2] == 64)
    ensures old(b.nodeLevel2) < Size && !finished ==>
      var n := old(b.nodeLevel2);
      var (v, w, keep) := Throb(old(b.value[n]), old(b.velocity[n]));
      if Sliding(old(b.value[n]), old(b.velocity[n])) && b.switchState[n] == 1 && v > 64
      then b.value[n] == 0 && b.velocity[n] == w && b.nodeLevel2 == Size
      else b.value[n] == v && b.velocity[n] == w && b.nodeLevel2 == (if keep then n else Size)
    ensures b.gameTimeout ==
      if old(b.nodeLevel2) < Size && !finished && Sliding(old(b.value[b.nodeLevel2]), old(b.velocity[b.nodeLevel2]))
         && b.switchState[old(b.nodeLevel2)] == 1
      then 0 else old(b.gameTimeout)
  {
    finished := AllOut(b);
    if finished {
      return;
    }
    if b.nodeLevel2 == Size {
      var t := b.RandRange(Size);
      if b.value[t] == 64 {
        b.nodeLevel2 := t;
      }
      return;
    }
    Beat(b);
  }

  /** One frame of the chosen cell in `step_level_2`: its pulse moves on, and a
      press during the sliding part resets the timeout and, above 64, puts the
      cell out and lets it go. */
  method Beat(b: Badge)
    requires b.Shape() && b.nodeLevel2 < Size
    modifies b.value, b.velocity, b`nodeLevel2, b`gameTimeout
    ensures forall i :: 0 <= i < Size && i != old(b.nodeLevel2) ==>
      b.value[i] == old(b.value[i]) && b.velocity[i] == old(b.velocity[i])
    ensures
      var n := old(b.nodeLevel2);
      var (v, w, keep) := Throb(old(b.value[n]), old(b.velocity[n]));
      if Sliding(old(b.value[n]), old(b.velocity[n])) && b.switchState[n] == 1 && v > 64
      then b.value[n] == 0 && b.velocity[n] == w && b.nodeLevel2 == Size
      else b.value[n] == v && b.velocity[n] == w && b.nodeLevel2 == (if keep then n else Size)
    ensures b.gameTimeout ==
      if Sliding(old(b.value[b.nodeLevel2]), old(b.velocity[b.nodeLevel2])) && b.switchState[old(b.nodeLevel2)] == 1
      then 0 else old(b.gameTimeout)
  {
    var n := b.nodeLevel2;
    var v, w := b.value[n], b.velocity[n];
    if v == 64 {
      b.velocity[n], b.value[n] := 131, 65;
      return;
    }
    if v == 255 {
      b.velocity[n], b.value[n] := 125, 254;
      return;
    }
    if w == 125 && v == 65 {
      b.value[n] := 64;
      b.nodeLevel2 := Size;
      return;
    }
    var t := v as int + (w as int - 128);
    if t < 64 {
      t := 64;
    }
    if t > 255 {
      t := 255;
    }
    b.value[n] := t as byte;
    if b.switchState[n] == 1 {
      b.gameTimeout := 0;
      if b.value[n] > 64 {
        b.value[n] := 0;
        b.nodeLevel2 := Size;
      }
    }
  }

  // ----------------------------------------------------------------- level 3

  /** Some cell other than the held corners n1, n2, n3 is pressed; a corner
      not yet held is Size, which is no cell. Every corner scan of
      `step_level_3` resets the timeout on such a press. */
  ghost predicate PressedBesides(sw: seq<byte>, n1: nat, n2: nat, n3: nat)
    requires |sw| == Size
  {
    exists i :: 0 <= i < Size && i != n1 && i != n2 && i != n3 && sw[i] == 1
  }

  /** The scan `step_level_1` and `step_level_3` run over the field in index
      order: every pressed cell other than n1, n2, n3 resets the timeout, and
      the scan stops at the first such cell that also `fits`. Size means none
      fits. */
  method FirstMatch(b: Badge, n1: nat, n2: nat, n3: nat, fits: nat -> bool) returns (r: nat)
    requires b.Shape()
    modifies b`gameTimeout
    ensures r <= Size
    ensures r < Size ==> b.switchState[r] == 1 && r != n1 && r != n2 && r != n3 && fits(r)
    ensures forall i :: 0 <= i < r && i < Size ==> !(b.switchState[i] == 1 && i != n1 && i != n2 && i != n3 && fits(i))
    ensures b.gameTimeout == if PressedBesides(b.switchState[..], n1, n2, n3) then 0 else old(b.gameTimeout)
  {
    var n := 0;
    while n < Size
      invariant n <= Size
      invariant forall i :: 0 <= i < n ==> !(b.switchState[i] == 1 && i != n1 && i != n2 && i != n3 && fits(i))
      invariant b.gameTimeout ==
        if exists i :: 0 <= i < n && i != n1 && i != n2 && i != n3 && b.switchState[i] == 1 then 0 else old(b.gameTimeout)
    {
      if n != n1 && n != n2 && n != n3 && b.switchState[n] == 1 {
        b.gameTimeout := 0;
        if fits(n) {
          return n;
        }
      }
      n := n + 1;
    }
    return Size;
  }

  /** Four cells that are, in order, the bottom-left, top-left, top-right and
      bottom-right corners of a rectangle on the field. */
  ghost predicate Rectangle(n1: nat, n2: nat, n3: nat, n4: nat)
  {
    && n1 < Size && n2 < Size && n3 < Size && n4 < Size
    && ColumnOf(n2) == ColumnOf(n1) && RowOf(n2) < RowOf(n1)
    && RowOf(n3) == RowOf(n2) && ColumnOf(n3) > ColumnOf(n2)
    && ColumnOf(n4) == ColumnOf(n3) && RowOf(n4) == RowOf(n1)
  }

  /** Letting go of a held corner: every held corner goes dark and is dropped. */
  method LetGo(b: Badge)
    requires b.Shape() && b.ScalarsOkAt(3) && b.HeldShown()
    modifies b.value, b`node1Level3, b`node2Level3, b`node3Level3
    ensures b.ScalarsOkAt(3) && b.HeldShown()
    ensures b.node1Level3 == Size && b.node2Level3 == Size && b.node3Level3 == Size
    ensures forall i :: 0 <= i < Size ==> b.value[i] == 0
  {
    var n1, n2, n3 := b.node1Level3, b.node2Level3, b.node3Level3;
    if n1 != Size {
      b.value[n1] := 0;
    }
    if n2 != Size {
      b.value[n2] := 0;
    }
    if n3 != Size {
      b.value[n3] := 0;
    }
    b.node1Level3, b.node2Level3, b.node3Level3 := Size, Size, Size;
  }

  /** The first corner: the first pressed cell in index order. */
  method TakeFirst(b: Badge)
    requires b.Shape() && b.ScalarsOkAt(3) && b.HeldShown() && b.node1Level3 == Size
    modifies b.value, b`node1Level3, b`gameTimeout
    ensures b.ScalarsOkAt(3) && b.HeldShown()
    ensures b.node1Level3 != Size ==> b.switchState[b.node1Level3] == 1
    ensures b.node1Level3 == Size <==> forall i :: 0 <= i < Size ==> b.switchState[i] != 1
    ensures b.gameTimeout == if PressedBesides(b.switchState[..], Size, Size, Size) then 0 else old(b.gameTimeout)
  {
    var i := FirstMatch(b, Size, Size, Size, (k: nat) => true);
    if i < Size {
      b.node1Level3 := i;
      b.value[i] := 64;
    }
  }

  /** The second corner: the first pressed cell above the first corner, in its column. */
  method TakeSecond(b: Badge)
    requires b.Shape() && b.ScalarsOkAt(3) && b.HeldShown() && b.node1Level3 != Size && b.node2Level3 == Size
    modifies b.value, b`node2Level3, b`gameTimeout
    ensures b.ScalarsOkAt(3) && b.HeldShown()
    ensures b.node2Level3 != Size ==> b.switchState[b.node2Level3] == 1
    ensures b.gameTimeout == if PressedBesides(b.switchState[..], b.node1Level3, Size, Size) then 0 else old(b.gameTimeout)
  {
    var n1 := b.node1Level3;
    var i := FirstMatch(b, n1, Size, Size, (k: nat) => ColumnOf(k) == ColumnOf(n1) && RowOf(k) < RowOf(n1));
    if i < Size {
      b.node2Level3 := i;
      b.value[n1] := 128;
      b.value[i] := 64;
    }
  }

  /** The third corner: the first pressed cell right of the second, in its row. */
  method TakeThird(b: Badge)
    requires b.Shape() && b.ScalarsOkAt(3) && b.HeldShown() && b.node2Level3 != Size && b.node3Level3 == Size
    modifies b.value, b`node3Level3, b`gameTimeout
    ensures b.ScalarsOkAt(3) && b.HeldShown()
    ensures b.node3Level3 != Size ==> b.switchState[b.node3Level3] == 1
    ensures b.gameTimeout == if PressedBesides(b.switchState[..], b.node1Level3, b.node2Level3, Size) then 0 else old(b.gameTimeout)
  {
    var n1, n2 := b.node1Level3, b.node2Level3;
    var i := FirstMatch(b, n1, n2, Size, (k: nat) => RowOf(k) == RowOf(n2) && ColumnOf(k) > ColumnOf(n2));
    if i < Size {
      b.node3Level3 := i;
      b.value[n1], b.value[n2], b.value[i] := 192, 128, 64;
    }
  }

  /** The fourth corner: a pressed cell below the third, in its column, on the
      first corner's row; finding it lights the held corners full. */
  method TakeFourth(b: Badge) returns (finished: bool)
    requires b.Shape() && b.ScalarsOkAt(3) && b.HeldShown() && b.node3Level3 != Size
    modifies b.value, b`node4Level3, b`gameTimeout
    ensures finished <==> exists i :: 0 <= i < Size && b.switchState[i] == 1
                                     && Rectangle(b.node1Level3, b.node2Level3, b.node3Level3, i)
    ensures finished ==>
      && Rectangle(b.node1Level3, b.node2Level3, b.node3Level3, b.node4Level3)
      && b.switchState[b.node4Level3] == 1
      && b.value[b.node1Level3] == 255 && b.value[b.node2Level3] == 255 && b.value[b.node3Level3] == 255
    ensures !finished ==> b.ScalarsOkAt(3) && b.HeldShown()
    ensures b.gameTimeout ==
      if PressedBesides(b.switchState[..], b.node1Level3, b.node2Level3, b.node3Level3) then 0 else old(b.gameTimeout)
  {
    var n1, n2, n3 := b.node1Level3, b.node2Level3, b.node3Level3;
    var i := FirstMatch(b, n1, n2, n3, (k: nat) => ColumnOf(k) == ColumnOf(n3) && RowOf(k) > RowOf(n3) && RowOf(k) == RowOf(n1));
    finished := i < Size;
    if finished {
      assert n1 != n2 && n2 != n3 && n1 != n3 && n1 < Size && n2 < Size && n3 < Size;
      b.node4Level3 := i;
      b.value[n1], b.value[n2], b.value[n3] := 255, 255, 255;
    } else {
      // a fourth corner is never one of the three held ones, so the scan saw every candidate
      forall j | 0 <= j < Size && Rectangle(n1, n2, n3, j)
        ensures j != n1 && j != n2 && j != n3
      {
      }
    }
  }

  /** `step_level_3`: the player holds down the corners of a rectangle one by
      one (a cell, one above it, one right of that, and the fourth corner);
      letting go of any held corner drops them all. */
  method Level3(b: Badge) returns (finished: bool)
    requires b.Shape() && b.LevelOkAt(3)
    modifies b.value, b`node1Level3, b`node2Level3, b`node3Level3, b`node4Level3, b`gameTimeout
    ensures !finished ==> b.LevelOkAt(3)
    ensures finished ==>
      && b.node1Level3 == old(b.node1Level3) && b.node2Level3 == old(b.node2Level3) && b.node3Level3 == old(b.node3Level3)
      && Rectangle(b.node1Level3, b.node2Level3, b.node3Level3, b.node4Level3)
      && b.switchState[b.node4Level3] == 1
      && b.value[b.node1Level3] == 255 && b.value[b.node2Level3] == 255 && b.value[b.node3Level3] == 255
    // the level ends exactly when three held corners get their fourth
    ensures finished <==>
      && old(b.node3Level3) != Size
      && b.switchState[old(b.node1Level3)] != 0 && b.switchState[old(b.node2Level3)] != 0
      && b.switchState[old(b.node3Level3)] != 0
      && exists i :: 0 <= i < Size && b.switchState[i] == 1
                     && Rectangle(old(b.node1Level3), old(b.node2Level3), old(b.node3Level3), i)
    // letting go of a held corner drops every corner
    ensures (|| (old(b.node1Level3) != Size && b.switchState[old(b.node1Level3)] == 0)
             || (old(b.node2Level3) != Size && b.switchState[old(b.node2Level3)] == 0)
             || (old(b.node3Level3) != Size && b.switchState[old(b.node3Level3)] == 0)) ==>
      && b.node1Level3 == Size && b.node2Level3 == Size && b.node3Level3 == Size
      && forall i :: 0 <= i < Size ==> b.value[i] == 0
    // otherwise held corners stay held, and a newly held one is pressed
    ensures !finished && b.node1Level3 != Size ==> b.switchState[b.node1Level3] != 0
    ensures !finished && b.node2Level3 != Size ==> b.switchState[b.node2Level3] != 0
    ensures !finished && b.node3Level3 != Size ==> b.switchState[b.node3Level3] != 0
    ensures b.node1Level3 != Size ==> b.node1Level3 == old(b.node1Level3) || old(b.node1Level3) == Size
    ensures b.node2Level3 != Size ==> b.node2Level3 == old(b.node2Level3) || old(b.node2Level3) == Size
    ensures b.node3Level3 != Size ==> b.node3Level3 == old(b.node3Level3) || old(b.node3Level3) == Size
    // a press on a cell other than the held corners resets the timeout, unless a corner was let go
    ensures b.gameTimeout ==
      if || (old(b.node1Level3) != Size && b.switchState[old(b.node1Level3)] == 0)
         || (old(b.node2Level3) != Size && b.switchState[old(b.node2Level3)] == 0)
         || (old(b.node3Level3) != Size && b.switchState[old(b.node3Level3)] == 0)
         || !PressedBesides(b.switchState[..], old(b.node1Level3), old(b.node2Level3), old(b.node3Level3))
      then old(b.gameTimeout) else 0
  {
    finished := false;
    var n1, n2, n3 := b.node1Level3, b.node2Level3, b.node3Level3;
    if || (n1 != Size && b.switchState[n1] == 0)
       || (n2 != Size && b.switchState[n2] == 0)
       || (n3 != Size && b.switchState[n3] == 0)
    {
      LetGo(b);
    } else if n1 == Size {
      TakeFirst(b);
    } else if n2 == Size {
      TakeSecond(b);
    } else if n3 == Size {
      TakeThird(b);
    } else {
      finished := TakeFourth(b);
    }
  }

  // ----------------------------------------------------------------- level 4

  /** One frame of a level-4 cell, `(lock, velocity, counter)` after an
      optional press. A press counts up the lock (to 7) and starts an idle cell
      brightening. A brightening cell climbs by 2 towards 7 + lock and turns
      once a step of 1 reaches it; a dimming cell falls by 2 towards 7 - lock
      and turns likewise. */
  function Level4Next(lock: byte, velocity: byte, counter: byte, press: bool): (r: (byte, byte, int))
    requires velocity <= 2
  {
    var lock' := if press then Min(lock as int + 1, 7) as byte else lock;
    var velocity' := if press && lock' == 1 then 2 else velocity;
    var target := 7 + lock' as int * (velocity' as int - 1);
    var temp := counter as int + (velocity' as int - 1);
    if velocity' == 2 then
      (if temp < target then (lock', velocity', temp + 1) else (lock', 0, temp))
    else if velocity' == 0 then
      (if temp > target then (lock', velocity', temp - 1) else (lock', 2, temp))
    else (lock', velocity', temp)
  }

  /** The level-4 rules are kept by every frame, until a counter reaches 0,
      which ends the level. */
  lemma Level4Step(lock: byte, velocity: byte, counter: byte, press: bool)
    requires Level4Cell(lock, velocity, counter)
    ensures var (l, v, c) := Level4Next(lock, velocity, counter, press);
            0 <= c <= 15 && (c == 0 || Level4Cell(l, v, c as byte))
  {
  }

  /** Only a dimming cell, which has been pressed, can end the level: its
      counter reaches 0 from 1, or by a step of 2 from 2 once its lock is full
      (pressed seven times), when the turning point is 0 itself. */
  lemma Level4Zero(lock: byte, velocity: byte, counter: byte, press: bool)
    requires Level4Cell(lock, velocity, counter)
    requires Level4Next(lock, velocity, counter, press).2 == 0
    ensures velocity == 0 && lock >= 1
    ensures counter == 1 || (counter == 2 && Level4Next(lock, velocity, counter, press).0 == 7)
  {
  }

  /** One cell of the loop of `step_level_4`; returns whether its counter hit
      0. */
  method Pulse(b: Badge, n: nat) returns (zero: bool)
    requires b.Shape() && n < Size && Level4Cell(b.lock[n], b.velocity[n], b.counter[n])
    modifies b.value, b.lock, b.velocity, b.counter, b.switchState, b`gameTimeout
    ensures var (l, v, c) := Level4Next(old(b.lock[n]), old(b.velocity[n]), old(b.counter[n]), old(b.switchState[n]) == 1);
            && b.lock[n] == l && b.velocity[n] == v && b.counter[n] as int == c
            && (zero <==> c == 0)
            && (!zero ==> b.value[n] == Gamma16[c] && Level4Cell(l, v, c as byte))
    ensures b.switchState[n] == if old(b.switchState[n]) == 1 then 0 else old(b.switchState[n])
    ensures forall i :: 0 <= i < Size && i != n ==>
              && b.value[i] == old(b.value[i]) && b.lock[i] == old(b.lock[i]) && b.velocity[i] == old(b.velocity[i])
              && b.counter[i] == old(b.counter[i]) && b.switchState[i] == old(b.switchState[i])
    ensures b.gameTimeout == if old(b.switchState[n]) == 1 then 0 else old(b.gameTimeout)
  {
    Level4Step(b.lock[n], b.velocity[n], b.counter[n], b.switchState[n] == 1);
    var (lock, velocity, counter) := Level4Next(b.lock[n], b.velocity[n], b.counter[n], b.switchState[n] == 1);
    if b.switchState[n] == 1 {
      b.gameTimeout := 0;
      b.switchState[n] := 0;
    }
    b.lock[n], b.velocity[n], b.counter[n] := lock, velocity, counter as byte;
    var shade := Gamma16[b.counter[n]];
    zero := shade == 0;
    if !zero {
      b.value[n] := shade;
    }
  }

  /** `step_level_4`: every cell takes one frame of its rules in index order;
      the level is finished, and the rest of the loop skipped, as soon as a
      counter reaches 0. */
  method Level4(b: Badge) returns (finished: bool)
    requires b.Shape() && b.CellsOkAt(4)
    modifies b.value, b.lock, b.velocity, b.counter, b.switchState, b`gameTimeout
    ensures !finished ==> b.CellsOkAt(4)
    ensures !finished ==> forall i :: 0 <= i < Size ==>
              var (l, v, c) := Level4Next(old(b.lock[i]), old(b.velocity[i]), old(b.counter[i]), old(b.switchState[i]) == 1);
              && b.lock[i] == l && b.velocity[i] == v && b.counter[i] as int == c
              && b.value[i] == Gamma16[c] && b.switchState[i] == 0 + (if old(b.switchState[i]) == 1 then 0 else old(b.switchState[i]))
    ensures finished <==>
              exists i :: 0 <= i < Size &&
                Level4Next(old(b.lock[i]), old(b.velocity[i]), old(b.counter[i]), old(b.switchState[i]) == 1).2 == 0
    // a level only ever clears a switch state
    ensures forall i :: 0 <= i < Size ==> b.switchState[i] == old(b.switchState[i]) || b.switchState[i] == 0
    ensures !finished ==>
      b.gameTimeout == if exists i :: 0 <= i < Size && old(b.switchState[i]) == 1 then 0 else old(b.gameTimeout)
    // the loop stops at the first counter to reach 0; presses up to it reset the timeout
    ensures finished ==>
      exists k :: && 0 <= k < Size
                  && Level4Next(old(b.lock[k]), old(b.velocity[k]), old(b.counter[k]), old(b.switchState[k]) == 1).2 == 0
                  && (forall j :: 0 <= j < k ==>
                        Level4Next(old(b.lock[j]), old(b.velocity[j]), old(b.counter[j]), old(b.switchState[j]) == 1).2 != 0)
                  && b.gameTimeout == if exists i :: 0 <= i <= k && old(b.switchState[i]) == 1 then 0 else old(b.gameTimeout)
  {
    var n := 0;
    while n < Size
      invariant n <= Size
      invariant b.gameTimeout == if exists i :: 0 <= i < n && old(b.switchState[i]) == 1 then 0 else old(b.gameTimeout)
      invariant forall i :: 0 <= i < Size ==>
                  if i < n then
                    var (l, v, c) := Level4Next(old(b.lock[i]), old(b.velocity[i]), old(b.counter[i]), old(b.switchState[i]) == 1);
                    && b.lock[i] == l && b.velocity[i] == v && b.counter[i] as int == c
                    && b.value[i] == Gamma16[c] && c != 0 && Level4Cell(l, v, c as byte)
                    && b.switchState[i] == (if old(b.switchState[i]) == 1 then 0 else old(b.switchState[i]))
                  else
                    && b.lock[i] == old(b.lock[i]) && b.velocity[i] == old(b.velocity[i]) && b.counter[i] == old(b.counter[i])
                    && b.value[i] == old(b.value[i]) && b.switchState[i] == old(b.switchState[i])
    {
      ghost var before := (b.lock[n], b.velocity[n], b.counter[n], b.switchState[n] == 1);
      assert before == (old(b.lock[n]), old(b.velocity[n]), old(b.counter[n]), old(b.switchState[n]) == 1);
      var zero := Pulse(b, n);
      if zero {
        assert Level4Next(before.0, before.1, before.2, before.3).2 == 0;
        return true;
      }
      n := n + 1;
    }
    forall i | 0 <= i < Size
      ensures Level4Next(old(b.lock[i]), old(b.velocity[i]), old(b.counter[i]), old(b.switchState[i]) == 1).2 != 0
    {
    }
    return false;
  }
}
