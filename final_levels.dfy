/** The last five level bodies of the blue badge, `step_level_10` to
    `step_level_14`. Each is a method over the badge's arrays; a level that
    completes returns `finished` and leaves the `level_init` of the next level
    to the step dispatcher (in the firmware the call is the body's last action,
    and `level_init` rewrites everything the body wrote before it). */
module FinalLevels {
  import opened Grid
  import opened Firmware

  // ---------------------------------------------------------------- level 14

  /** One press of level 14: 32 brighter, back to 0 once past 255. */
  function Brighter(v: byte): (r: byte)
    ensures v % 32 == 0 ==> r % 32 == 0
  {
    if v as int + 32 > 255 then 0 else v + 32
  }

  /** A cell after n presses. */
  function Brightened(v: byte, n: nat): byte
  {
    if n == 0 then v else Brighter(Brightened(v, n - 1))
  }

  /** On the 32-steps the level starts from, n presses count n steps of 32
      modulo 8 steps. */
  lemma {:induction false} BrightenedSteps(v: byte, n: nat)
    requires v % 32 == 0
    ensures Brightened(v, n) as int == ((v as int / 32 + n) % 8) * 32
  {
    if n > 0 {
      BrightenedSteps(v, n - 1);
    }
  }

  /** Eight presses bring every cell of level 14 back to where it was. */
  lemma EightPressesCycle(v: byte)
    requires v % 32 == 0
    ensures Brightened(v, 8) == v
  {
    BrightenedSteps(v, 8);
  }

  /** `step_level_14`: each pressed cell is released and brightened; nothing
      else changes, and the level never ends. */
  method Level14(b: Badge)
    requires b.Shape() && b.CellsOkAt(14)
    modifies b.value, b.switchState
    ensures b.CellsOkAt(14)
    ensures forall i :: 0 <= i < Size ==>
              b.value[i] == if old(b.switchState[i]) == 1 then Brighter(old(b.value[i])) else old(b.value[i])
    ensures forall i :: 0 <= i < Size ==>
              b.switchState[i] == if old(b.switchState[i]) == 1 then 0 else old(b.switchState[i])
  {
    var n := 0;
    while n < Size
      invariant n <= Size
      invariant forall i :: 0 <= i < Size ==> b.value[i] % 32 == 0
      invariant forall i :: 0 <= i < Size ==>
                  b.value[i] == if i < n && old(b.switchState[i]) == 1 then Brighter(old(b.value[i])) else old(b.value[i])
      invariant forall i :: 0 <= i < Size ==>
                  b.switchState[i] == if i < n && old(b.switchState[i]) == 1 then 0 else old(b.switchState[i])
    {
      if b.switchState[n] == 1 {
        b.switchState[n] := 0;
        b.value[n] := Brighter(b.value[n]);
      }
      n := n + 1;
    }
  }

  // ---------------------------------------------------------------- level 10

  /** Cell j is cell i or one of its eight neighbours (no wrap-around). */
  predicate Near(i: nat, j: nat)
    requires i < Size && j < Size
  {
    -1 <= ColumnOf(i) - ColumnOf(j) <= 1 && -1 <= RowOf(i) - RowOf(j) <= 1
  }

  /** The pressed cells below n that flip cell i. */
  function Flips(sw: seq<byte>, i: nat, n: nat): (r: nat)
    requires |sw| == Size && i < Size && n <= Size
    ensures r <= n
  {
    if n == 0 then 0
    else Flips(sw, i, n - 1) + (if sw[n - 1] == 1 && Near(i, n - 1) then 1 else 0)
  }

  /** A cell flipped k times. */
  function FlippedTimes(v: byte, k: nat): byte {
    if k % 2 == 0 then v else Toggle(v)
  }

  /** The field after one frame of level 10: every cell flipped once per press on
      it or around it. */
  function LightsOut(v: seq<byte>, sw: seq<byte>): (r: seq<byte>)
    requires |v| == Size && |sw| == Size
    ensures |r| == Size
  {
    seq(Size, i requires 0 <= i < Size => FlippedTimes(v[i], Flips(sw, i, Size)))
  }

  /** A field of 0s and 128s. */
  predicate TwoTone(v: seq<byte>) {
    forall i :: 0 <= i < |v| ==> v[i] == 0 || v[i] == 128
  }

  /** The same presses twice undo each other, and the field stays two-toned. */
  lemma LightsOutTwice(v: seq<byte>, sw: seq<byte>)
    requires |v| == Size && |sw| == Size && TwoTone(v)
    ensures TwoTone(LightsOut(v, sw))
    ensures LightsOut(LightsOut(v, sw), sw) == v
  {
    var w := LightsOut(v, sw);
    assert forall i :: 0 <= i < Size ==> LightsOut(w, sw)[i] == v[i] by {
      forall i | 0 <= i < Size
        ensures LightsOut(w, sw)[i] == v[i]
      {
        assert w[i] == FlippedTimes(v[i], Flips(sw, i, Size));
      }
    }
  }

  /** Flips one cell, as the inner branch of `step_level_10` does. */
  method Flip(b: Badge, i: nat)
    requires b.Shape() && i < Size
    modifies b.value
    ensures b.value[i] == Toggle(old(b.value[i]))
    ensures forall j :: 0 <= j < Size && j != i ==> b.value[j] == old(b.value[j])
  {
    if b.value[i] == 0 {
      b.value[i] := 128;
    } else {
      b.value[i] := 0;
    }
  }

  /** The press of one cell: it and its in-field neighbours flip, visited row by
      row from the one above. */
  method PressAt(b: Badge, node: nat)
    requires b.Shape() && node < Size
    modifies b.value
    ensures forall i :: 0 <= i < Size ==>
              b.value[i] == if Near(i, node) then Toggle(old(b.value[i])) else old(b.value[i])
  {
    Flip(b, node);
    var (x, y) := Coords(node);
    var oy := y - 1;
    while oy < y + 2
      invariant y - 1 <= oy <= y + 2
      invariant forall i :: 0 <= i < Size ==>
                  b.value[i] == if i == node || (Near(i, node) && RowOf(i) < oy) then Toggle(old(b.value[i]))
                                else old(b.value[i])
    {
      var ox := x - 1;
      while ox < x + 2
        invariant x - 1 <= ox <= x + 2
        invariant forall i :: 0 <= i < Size ==>
                    b.value[i] == if i == node || (Near(i, node) && (RowOf(i) < oy || (RowOf(i) == oy && ColumnOf(i) < ox)))
                                  then Toggle(old(b.value[i])) else old(b.value[i])
      {
        if oy < 0 || oy > Height - 1 || ox < 0 || ox > Width - 1 {
        } else if oy == y && ox == x {
        } else {
          var t := Offset(ox, oy);
          CoordsOfOffset(ox, oy);
          Flip(b, t);
        }
        ox := ox + 1;
      }
      oy := oy + 1;
    }
  }

  /** One flip more of a two-toned cell is the flip of its last value. */
  lemma FlipAgain(v: byte, k: nat)
    requires v == 0 || v == 128
    ensures FlippedTimes(v, k + 1) == Toggle(FlippedTimes(v, k))
  {
  }

  /** `step_level_10`: every pressed cell is released and flips itself and its
      neighbours; the level is finished when no cell is dark. */
  method Level10(b: Badge) returns (finished: bool)
    requires b.Shape() && b.CellsOkAt(10)
    modifies b.value, b.switchState, b`gameTimeout
    ensures b.CellsOkAt(10)
    ensures b.value[..] == LightsOut(old(b.value[..]), old(b.switchState[..]))
    ensures forall i :: 0 <= i < Size ==>
              b.switchState[i] == if old(b.switchState[i]) == 1 then 0 else old(b.switchState[i])
    ensures b.gameTimeout == if exists i :: 0 <= i < Size && old(b.switchState[i]) == 1 then 0 else old(b.gameTimeout)
    ensures finished <==> forall i :: 0 <= i < Size ==> b.value[i] >= 1
  {
    PressAll(b);
    LightsOutTwice(old(b.value[..]), old(b.switchState[..]));
    finished := true;
    var n := 0;
    while n < Size
      invariant n <= Size
      invariant finished <==> forall i :: 0 <= i < n ==> b.value[i] >= 1
    {
      if b.value[n] < 1 {
        finished := false;
      }
      n := n + 1;
    }
  }

  /** The press loop of `step_level_10`. */
  method PressAll(b: Badge)
    requires b.Shape() && b.CellsOkAt(10)
    modifies b.value, b.switchState, b`gameTimeout
    ensures b.value[..] == LightsOut(old(b.value[..]), old(b.switchState[..]))
    ensures forall i :: 0 <= i < Size ==>
              b.switchState[i] == if old(b.switchState[i]) == 1 then 0 else old(b.switchState[i])
    ensures b.gameTimeout == if exists i :: 0 <= i < Size && old(b.switchState[i]) == 1 then 0 else old(b.gameTimeout)
  {
    ghost var v0, sw0 := b.value[..], b.switchState[..];
    var n := 0;
    while n < Size
      invariant n <= Size
      invariant forall i :: 0 <= i < Size ==> b.value[i] == FlippedTimes(v0[i], Flips(sw0, i, n))
      invariant forall i :: 0 <= i < Size ==> b.switchState[i] == if i < n && sw0[i] == 1 then 0 else sw0[i]
      invariant b.gameTimeout == if exists i :: 0 <= i < n && sw0[i] == 1 then 0 else old(b.gameTimeout)
    {
      if b.switchState[n] == 1 {
        b.switchState[n] := 0;
        b.gameTimeout := 0;
        forall i | 0 <= i < Size
          ensures FlippedTimes(v0[i], Flips(sw0, i, n + 1)) ==
                  if Near(i, n) then Toggle(FlippedTimes(v0[i], Flips(sw0, i, n))) else FlippedTimes(v0[i], Flips(sw0, i, n))
        {
          FlipAgain(v0[i], Flips(sw0, i, n));
        }
        PressAt(b, n);
      }
      n := n + 1;
    }
    assert b.value[..] == LightsOut(v0, sw0);
  }

  // ---------------------------------------------------------------- level 11

  /** A walker's heading after a random turn: up (8) to right (6), right to
      down (2), down to left (4), left to up. */
  function Turned(h: byte): byte {
    if h == 4 then 8 else if h == 2 then 4 else if h == 6 then 2 else if h == 8 then 6 else h
  }

  /** The heading a walker faces after turning back. */
  function Opposite(h: byte): byte {
    if h == 8 then 2 else if h == 2 then 8 else if h == 6 then 4 else if h == 4 then 6 else h
  }

  /** The four headings. */
  predicate Heading(h: byte) {
    h == 2 || h == 4 || h == 6 || h == 8
  }

  /** Turning twice faces the opposite way, and four turns face the start. */
  lemma TurnedTwice(h: byte)
    requires Heading(h)
    ensures Heading(Turned(h)) && Turned(Turned(h)) == Opposite(h)
    ensures Turned(Turned(Turned(Turned(h)))) == h
  {
  }

  /** One move of a walker from cell c, wrapping around the edges of the field; an
      unknown heading stays put. */
  function Walk(c: nat, h: byte): (d: nat)
    requires c < Size
    ensures d < Size
  {
    var (x, y) := Coords(c);
    if h == 8 then Offset(x, if y == 0 then Height - 1 else y - 1)
    else if h == 6 then Offset(if x + 1 >= Width then 0 else x + 1, y)
    else if h == 2 then Offset(x, if y + 1 >= Height then 0 else y + 1)
    else if h == 4 then Offset(if x == 0 then Width - 1 else x - 1, y)
    else c
  }

  /** A move is undone by a move the opposite way: walkers never get stuck or
      merge because of the wrap-around. */
  lemma WalkBack(c: nat, h: byte)
    requires c < Size && Heading(h)
    ensures Walk(Walk(c, h), Opposite(h)) == c
  {
    var (x, y) := Coords(c);
    OffsetOfCoords(c);
    if h == 8 {
      CoordsOfOffset(x, if y == 0 then Height - 1 else y - 1);
    } else if h == 6 {
      CoordsOfOffset(if x + 1 >= Width then 0 else x + 1, y);
    } else if h == 2 {
      CoordsOfOffset(x, if y + 1 >= Height then 0 else y + 1);
    } else {
      CoordsOfOffset(if x == 0 then Width - 1 else x - 1, y);
    }
  }

  /** How many awake walkers below n of the given parity stand on cell c. */
  function Standing(awake: seq<byte>, at: seq<byte>, c: nat, parity: nat, n: nat): (k: nat)
    requires |awake| == Size && |at| == Size && n <= Size
    ensures k <= n
  {
    if n == 0 then 0
    else Standing(awake, at, c, parity, n - 1)
         + (if awake[n - 1] == 1 && (n - 1) % 2 == parity && at[n - 1] as int == c then 1 else 0)
  }

  /** Cell c after the odd awake walkers standing on it have brightened it. */
  function Lit(v: seq<byte>, awake: seq<byte>, at: seq<byte>, c: nat): int
    requires |v| == Size && |awake| == Size && |at| == Size && c < Size
  {
    Min(255, v[c] as int + 64 * Standing(awake, at, c, 1, Size))
  }

  /** The press loop of `step_level_11`: a pressed walker wakes up. */
  method Wake(b: Badge)
    requires b.Shape()
    requires forall i :: 0 <= i < Size ==> b.deform[i] <= 1
    modifies b.deform, b.switchState, b`gameTimeout
    ensures forall i :: 0 <= i < Size ==> b.deform[i] == if old(b.switchState[i]) == 1 then 1 else old(b.deform[i])
    ensures forall i :: 0 <= i < Size ==> b.switchState[i] == if old(b.switchState[i]) == 1 then 0 else old(b.switchState[i])
    ensures b.gameTimeout == if exists i :: 0 <= i < Size && old(b.switchState[i]) == 1 then 0 else old(b.gameTimeout)
  {
    ghost var sw0 := b.switchState[..];
    var n := 0;
    while n < Size
      invariant n <= Size
      invariant forall i :: 0 <= i < Size ==> b.deform[i] == if i < n && sw0[i] == 1 then 1 else old(b.deform[i])
      invariant forall i :: 0 <= i < Size ==> b.switchState[i] == if i < n && sw0[i] == 1 then 0 else sw0[i]
      invariant b.gameTimeout == if exists i :: 0 <= i < n && sw0[i] == 1 then 0 else old(b.gameTimeout)
    {
      if b.switchState[n] == 1 {
        b.gameTimeout := 0;
        b.switchState[n] := 0;
        if b.deform[n] == 0 {
          b.deform[n] := 1;
        }
      }
      n := n + 1;
    }
  }

  /** The odd awake walkers each add 64 to the cell under them, up to 255. */
  method Brighten(b: Badge)
    requires b.Shape()
    requires forall i :: 0 <= i < Size ==> b.counter[i] < Size as byte
    modifies b.value
    ensures forall c :: 0 <= c < Size ==>
              b.value[c] as int == Min(255, old(b.value[c]) as int + 64 * Standing(b.deform[..], b.counter[..], c, 1, Size))
  {
    var n := 0;
    while n < Size
      invariant n <= Size
      invariant forall c :: 0 <= c < Size ==>
                  b.value[c] as int == Min(255, old(b.value[c]) as int + 64 * Standing(b.deform[..], b.counter[..], c, 1, n))
    {
      if b.deform[n] == 1 && n % 2 == 1 {
        var t := b.counter[n];
        var v := b.value[t] as int + 64;
        if v > 255 {
          v := 255;
        }
        b.value[t] := v as byte;
      }
      n := n + 1;
    }
  }

  /** The even awake walkers each take 16 from the cell under them, down to 0. */
  method Dim(b: Badge)
    requires b.Shape()
    requires forall i :: 0 <= i < Size ==> b.counter[i] < Size as byte
    modifies b.value
    ensures forall c :: 0 <= c < Size ==>
              b.value[c] as int == Max(0, old(b.value[c]) as int - 16 * Standing(b.deform[..], b.counter[..], c, 0, Size))
  {
    var n := 0;
    while n < Size
      invariant n <= Size
      invariant forall c :: 0 <= c < Size ==>
                  b.value[c] as int == Max(0, old(b.value[c]) as int - 16 * Standing(b.deform[..], b.counter[..], c, 0, n))
    {
      if b.deform[n] == 1 && n % 2 == 0 {
        var t := b.counter[n];
        var v := b.value[t] as int - 16;
        if v < 0 {
          v := 0;
        }
        b.value[t] := v as byte;
      }
      n := n + 1;
    }
  }

  /** Each awake walker turns with one chance in eight. */
  method TurnWalkers(b: Badge)
    requires b.Shape() && b.ant.Valid()
    modifies b.velocity, b.ant, b.ant.cells
    ensures b.ant.Valid()
    ensures forall i :: 0 <= i < Size ==>
              if b.deform[i] == 1 then b.velocity[i] == old(b.velocity[i]) || b.velocity[i] == Turned(old(b.velocity[i]))
              else b.velocity[i] == old(b.velocity[i])
  {
    var n := 0;
    while n < Size
      invariant n <= Size && b.ant.Valid()
      invariant forall i :: 0 <= i < Size ==>
                  if i < n && b.deform[i] == 1 then b.velocity[i] == old(b.velocity[i]) || b.velocity[i] == Turned(old(b.velocity[i]))
                  else b.velocity[i] == old(b.velocity[i])
    {
      if b.deform[n] == 1 {
        var r := b.RandRange(8);
        if r == 0 {
          b.velocity[n] := Turned(b.velocity[n]);
        }
      }
      n := n + 1;
    }
  }

  /** Each awake walker takes one step along its heading. */
  method MoveWalkers(b: Badge)
    requires b.Shape()
    requires forall i :: 0 <= i < Size ==> b.counter[i] < Size as byte
    modifies b.counter
    ensures forall i :: 0 <= i < Size ==>
              b.counter[i] as int == if b.deform[i] == 1 then Walk(old(b.counter[i]) as nat, b.velocity[i]) else old(b.counter[i]) as int
  {
    var n := 0;
    while n < Size
      invariant n <= Size
      invariant forall i :: 0 <= i < Size ==>
                  b.counter[i] as int == if i < n && b.deform[i] == 1 then Walk(old(b.counter[i]) as nat, b.velocity[i])
                                         else old(b.counter[i]) as int
    {
      if b.deform[n] == 1 {
        b.counter[n] := Walk(b.counter[n] as nat, b.velocity[n]) as byte;
      }
      n := n + 1;
    }
  }

  /** `step_level_11`: pressed walkers wake up; every sixteenth frame the
      walkers act (Tick). */
  method Level11(b: Badge) returns (finished: bool)
    requires b.Shape() && b.ant.Valid() && b.CellsOkAt(11)
    modifies b.value, b.lock, b.deform, b.counter, b.velocity, b.switchState, b`gameTimeout
    modifies b.ant, b.ant.cells
    ensures b.ant.Valid() && b.CellsOkAt(11)
    ensures forall i :: 0 <= i < Size ==> b.deform[i] == if old(b.switchState[i]) == 1 then 1 else old(b.deform[i])
    ensures forall i :: 0 <= i < Size ==> b.switchState[i] == if old(b.switchState[i]) == 1 then 0 else old(b.switchState[i])
    ensures b.lock[0] as int == (old(b.lock[0]) as int + 1) % 16
    ensures old(b.lock[0]) < 15 ==>
              !finished && b.value[..] == old(b.value[..]) && b.counter[..] == old(b.counter[..])
              && b.velocity[..] == old(b.velocity[..])
    ensures old(b.lock[0]) == 15 ==>
              (finished <==> forall c :: 0 <= c < Size ==> Lit(old(b.value[..]), b.deform[..], old(b.counter[..]), c) == 255)
    // the sixteenth frame is one `Tick` of the walkers woken in this frame
    ensures old(b.lock[0]) == 15 ==> forall c :: 0 <= c < Size ==>
              b.value[c] as int == if finished then Lit(old(b.value[..]), b.deform[..], old(b.counter[..]), c)
                                   else Max(0, Lit(old(b.value[..]), b.deform[..], old(b.counter[..]), c)
                                               - 16 * Standing(b.deform[..], old(b.counter[..]), c, 0, Size))
    ensures old(b.lock[0]) == 15 ==> forall i :: 0 <= i < Size ==>
              b.counter[i] as int == if !finished && b.deform[i] == 1 then Walk(old(b.counter[i]) as nat, b.velocity[i])
                                     else old(b.counter[i]) as int
    ensures old(b.lock[0]) == 15 ==> forall i :: 0 <= i < Size ==>
              if !finished && b.deform[i] == 1 then b.velocity[i] == old(b.velocity[i]) || b.velocity[i] == Turned(old(b.velocity[i]))
              else b.velocity[i] == old(b.velocity[i])
    ensures b.gameTimeout == if exists i :: 0 <= i < Size && old(b.switchState[i]) == 1 then 0 else old(b.gameTimeout)
  {
    ghost var v0, c0 := b.value[..], b.counter[..];
    Wake(b);
    b.lock[0] := b.lock[0] + 1;
    if b.lock[0] < 16 {
      return false;
    }
    b.lock[0] := 0;
    assert b.value[..] == v0 && b.counter[..] == c0;
    finished := Tick(b);
  }

  /** One tick of the walkers: the odd awake walkers brighten the cells under
      them and the level is finished once every cell is at 255; otherwise the
      even walkers dim the cells under them, and every awake walker may turn and
      then moves one cell. */
  method Tick(b: Badge) returns (finished: bool)
    requires b.Shape() && b.ant.Valid()
    requires forall i :: 0 <= i < Size ==> b.counter[i] < Size as byte
    modifies b.value, b.counter, b.velocity, b.ant, b.ant.cells
    ensures b.ant.Valid()
    ensures forall i :: 0 <= i < Size ==> b.counter[i] < Size as byte
    ensures finished <==> forall c :: 0 <= c < Size ==> Lit(old(b.value[..]), b.deform[..], old(b.counter[..]), c) == 255
    ensures forall c :: 0 <= c < Size ==>
              b.value[c] as int == if finished then Lit(old(b.value[..]), b.deform[..], old(b.counter[..]), c)
                                   else Max(0, Lit(old(b.value[..]), b.deform[..], old(b.counter[..]), c)
                                               - 16 * Standing(b.deform[..], old(b.counter[..]), c, 0, Size))
    ensures forall i :: 0 <= i < Size ==>
              b.counter[i] as int == if !finished && b.deform[i] == 1 then Walk(old(b.counter[i]) as nat, b.velocity[i])
                                     else old(b.counter[i]) as int
    ensures forall i :: 0 <= i < Size ==>
              if !finished && b.deform[i] == 1 then b.velocity[i] == old(b.velocity[i]) || b.velocity[i] == Turned(old(b.velocity[i]))
              else b.velocity[i] == old(b.velocity[i])
  {
    ghost var d0 := b.deform[..];
    Brighten(b);
    ghost var lit := b.value[..];
    assert forall c :: 0 <= c < Size ==> lit[c] as int == Lit(old(b.value[..]), b.deform[..], old(b.counter[..]), c);
    finished := true;
    var n := 0;
    while n < Size
      invariant n <= Size
      invariant finished <==> forall c :: 0 <= c < n ==> lit[c] == 255
    {
      if b.value[n] != 255 {
        finished := false;
      }
      n := n + 1;
    }
    if finished {
      return;
    }
    Dim(b);
    TurnWalkers(b);
    MoveWalkers(b);
    assert b.deform[..] == d0;
  }

  // ---------------------------------------------------------------- level 12

  /** The head's breathing brightness and direction (128 rising, 127 falling)
      one frame later: it climbs to 192, then falls back to 64. */
  function Breathe(level: byte, rising: byte): (r: (byte, byte))
    requires 64 <= level <= 192
  {
    if rising == 128 then (if level as int + 1 >= 192 then (192, 127) else (level + 1, 128))
    else if rising == 127 then (if level as int - 1 <= 64 then (64, 128) else (level - 1, 127))
    else (level, rising)
  }

  /** A breathing state that occurs in level 12. */
  predicate Breathing(s: (byte, byte)) {
    64 <= s.0 <= 192 && (s.1 == 127 || s.1 == 128)
  }

  /** n frames of breathing. */
  function Breaths(s: (byte, byte), n: nat): (r: (byte, byte))
    requires Breathing(s)
    ensures Breathing(r)
  {
    if n == 0 then s else Breathe(Breaths(s, n - 1).0, Breaths(s, n - 1).1)
  }

  lemma {:induction false} BreathsAdd(s: (byte, byte), a: nat, b: nat)
    requires Breathing(s)
    ensures Breaths(Breaths(s, a), b) == Breaths(s, a + b)
  {
    if b > 0 {
      BreathsAdd(s, a, b - 1);
    }
  }

  lemma {:induction false} Rising(l: byte, k: nat)
    requires 64 <= l && l as int + k <= 191
    ensures Breaths((l, 128), k) == ((l as int + k) as byte, 128)
  {
    if k > 0 {
      Rising(l, k - 1);
    }
  }

  lemma {:induction false} Falling(l: byte, k: nat)
    requires l <= 192 && l as int - k >= 65
    ensures Breaths((l, 127), k) == ((l as int - k) as byte, 127)
  {
    if k > 0 {
      Falling(l, k - 1);
    }
  }

  /** The head breathes with a period of 256 frames: 128 up from 64 to 192 and
      128 back down. */
  lemma BreathPeriod()
    ensures Breaths((64, 128), 128) == (192, 127)
    ensures Breaths((64, 128), 256) == (64, 128)
  {
    Rising(64, 127);
    BreathsAdd((64, 128), 127, 1);
    Falling(192, 127);
    BreathsAdd((192, 127), 127, 1);
    BreathsAdd((64, 128), 128, 128);
  }

  /** Directions of a slide: up the column, down the column, left along the
      row, right along the row. */
  datatype Direction = Up | Down | Left | Right

  /** The position k cells from (x, y) in direction d. */
  function Along(x: int, y: int, d: Direction, k: nat): (int, int) {
    match d
    case Up => (x, y - k)
    case Down => (x, y + k)
    case Left => (x - k, y)
    case Right => (x + k, y)
  }

  /** The cell k cells from (x, y) in direction d. */
  function Ray(x: int, y: int, d: Direction, k: nat): int {
    var (px, py) := Along(x, y, d, k);
    Offset(px, py)
  }

  /** Two cells share a column or a row. */
  predicate InLine(i: nat, j: nat) {
    ColumnOf(i) == ColumnOf(j) || RowOf(i) == RowOf(j)
  }

  /** Every position from 1 to steps cells along d lies in the field. */
  lemma RayInField(x: int, y: int, d: Direction, steps: nat, k: nat)
    requires InField(x, y) && InField(Along(x, y, d, steps).0, Along(x, y, d, steps).1)
    requires k <= steps
    ensures InField(Along(x, y, d, k).0, Along(x, y, d, k).1)
    ensures 0 <= Ray(x, y, d, k) < Size
  {
  }

  /** Different distances along a ray are different cells. */
  lemma RayInjective(x: int, y: int, d: Direction, steps: nat, j: nat, k: nat)
    requires InField(x, y) && InField(Along(x, y, d, steps).0, Along(x, y, d, steps).1)
    requires j <= steps && k <= steps && j != k
    ensures Ray(x, y, d, j) != Ray(x, y, d, k)
  {
    RayInField(x, y, d, steps, j);
    RayInField(x, y, d, steps, k);
    if Ray(x, y, d, j) == Ray(x, y, d, k) {
      OffsetInjective(Along(x, y, d, j).0, Along(x, y, d, j).1, Along(x, y, d, k).0, Along(x, y, d, k).1);
    }
  }

  /** Cell i is one of the cells 1 to m along the ray. */
  predicate OnRay(x: int, y: int, d: Direction, m: nat, i: int) {
    m > 0 && (i == Ray(x, y, d, m) || OnRay(x, y, d, m - 1, i))
  }

  /** A cell on the ray is at some distance 1 to m from its start. */
  lemma {:induction false} OnRayAt(x: int, y: int, d: Direction, m: nat, i: int)
    requires OnRay(x, y, d, m, i)
    ensures exists k :: 1 <= k <= m && i == Ray(x, y, d, k)
  {
    if i != Ray(x, y, d, m) {
      OnRayAt(x, y, d, m - 1, i);
    }
  }

  /** The cell j along the ray is not among the cells before it. */
  lemma {:induction false} AheadOfRay(x: int, y: int, d: Direction, steps: nat, m: nat, j: nat)
    requires InField(x, y) && InField(Along(x, y, d, steps).0, Along(x, y, d, steps).1)
    requires m < j <= steps
    ensures !OnRay(x, y, d, m, Ray(x, y, d, j))
  {
    if m > 0 {
      RayInjective(x, y, d, steps, j, m);
      AheadOfRay(x, y, d, steps, m - 1, j);
    }
  }

  /** Where a slide from distance k on stops: the distance of the last cell
      before the first marked one, or steps when none of them is marked. */
  function Stop(v: seq<byte>, x: int, y: int, d: Direction, k: nat, steps: nat): (m: nat)
    requires |v| == Size && InField(x, y) && InField(Along(x, y, d, steps).0, Along(x, y, d, steps).1)
    requires 1 <= k <= steps + 1
    ensures k - 1 <= m <= steps
    decreases steps + 1 - k
  {
    if k > steps then steps
    else
      RayInField(x, y, d, steps, k);
      if v[Ray(x, y, d, k)] == 63 then k - 1 else Stop(v, x, y, d, k + 1, steps)
  }

  /** The slide passes only unmarked cells. */
  lemma {:induction false} StopClear(v: seq<byte>, x: int, y: int, d: Direction, k: nat, steps: nat, j: nat)
    requires |v| == Size && InField(x, y) && InField(Along(x, y, d, steps).0, Along(x, y, d, steps).1)
    requires 1 <= k <= steps + 1 && k <= j <= Stop(v, x, y, d, k, steps)
    ensures 0 <= Ray(x, y, d, j) < Size && v[Ray(x, y, d, j)] != 63
    decreases steps + 1 - k
  {
    RayInField(x, y, d, steps, k);
    if j > k {
      StopClear(v, x, y, d, k + 1, steps, j);
    }
  }

  /** A slide that stops at m short of steps stops in front of a marked cell. */
  lemma {:induction false} StopBlocked(v: seq<byte>, x: int, y: int, d: Direction, k: nat, steps: nat, m: nat)
    requires |v| == Size && InField(x, y) && InField(Along(x, y, d, steps).0, Along(x, y, d, steps).1)
    requires 1 <= k <= steps + 1 && m == Stop(v, x, y, d, k, steps) && m < steps
    ensures 0 <= Ray(x, y, d, m + 1) < Size && v[Ray(x, y, d, m + 1)] == 63
    decreases steps + 1 - k
  {
    RayInField(x, y, d, steps, m + 1);
    if m >= k {
      RayInField(x, y, d, steps, k);
      StopBlocked(v, x, y, d, k + 1, steps, m);
    }
  }

  /** The field v with the cells 1 to m along the ray marked 63. */
  function Trail(v: seq<byte>, x: int, y: int, d: Direction, m: nat): (t: seq<byte>)
    requires |v| == Size
    ensures |t| == Size
  {
    seq(Size, i requires 0 <= i < Size => if OnRay(x, y, d, m, i) then 63 else v[i])
  }

  /** Marking the next cell along the ray extends the trail by one cell. */
  lemma MarkNext(v: seq<byte>, x: int, y: int, d: Direction, k: nat)
    requires |v| == Size && k >= 1 && 0 <= Ray(x, y, d, k) < Size
    ensures Trail(v, x, y, d, k - 1)[Ray(x, y, d, k) := 63] == Trail(v, x, y, d, k)
  {
  }

  /** One step of a slide: it stops before a marked cell and goes on past an
      unmarked one. */
  lemma StopNext(v: seq<byte>, x: int, y: int, d: Direction, k: nat, steps: nat)
    requires |v| == Size && InField(x, y) && InField(Along(x, y, d, steps).0, Along(x, y, d, steps).1)
    requires 1 <= k <= steps && 0 <= Ray(x, y, d, k) < Size
    ensures Stop(v, x, y, d, k, steps) == if v[Ray(x, y, d, k)] == 63 then k - 1 else Stop(v, x, y, d, k + 1, steps)
  {
  }

  /** One slide of `step_level_12`: from the head at (x, y), the cells 1 to
      steps along d are marked 63 one by one, stopping at the first cell already
      marked; the head, kept in deform[0], follows to the last cell marked. */
  method SlideAlong(velocity: array<byte>, deform: array<byte>, x: nat, y: nat, d: Direction, steps: nat)
    requires velocity.Length == Size && deform.Length == Size && velocity != deform
    requires InField(x, y) && InField(Along(x, y, d, steps).0, Along(x, y, d, steps).1)
    requires deform[0] < Size as byte
    modifies velocity, deform
    ensures deform[0] < Size as byte
    ensures var m := Stop(old(velocity[..]), x, y, d, 1, steps);
            && velocity[..] == Trail(old(velocity[..]), x, y, d, m)
            && deform[0] as int == if m == 0 then old(deform[0]) as int else Ray(x, y, d, m)
    ensures deform[1..] == old(deform[1..])
  {
    ghost var v0 := velocity[..];
    var k := 1;
    while k <= steps
      invariant 1 <= k <= steps + 1 && deform[0] < Size as byte
      invariant Stop(v0, x, y, d, 1, steps) == Stop(v0, x, y, d, k, steps)
      invariant velocity[..] == Trail(v0, x, y, d, k - 1)
      invariant deform[0] as int == if k == 1 then old(deform[0]) as int else Ray(x, y, d, k - 1)
      invariant deform[1..] == old(deform[1..])
    {
      RayInField(x, y, d, steps, k);
      var c := Ray(x, y, d, k);
      AheadOfRay(x, y, d, steps, k - 1, k);
      StopNext(v0, x, y, d, k, steps);
      if velocity[c] == 63 {
        return;
      }
      velocity[c] := 63;
      MarkNext(v0, x, y, d, k);
      deform[0] := c as byte;
      k := k + 1;
    }
  }

  /** The direction and length of the slide that a press on node starts from
      the head position (xh, yh): along the column or the row towards it, and
      no slide (length 0) for a node in neither. */
  function SlideOf(xh: nat, yh: nat, node: nat): (r: (Direction, nat))
    requires InField(xh, yh) && node < Size
    ensures r.1 > 0 ==> InField(Along(xh, yh, r.0, r.1).0, Along(xh, yh, r.0, r.1).1)
    ensures r.1 > 0 ==> Offset(Along(xh, yh, r.0, r.1).0, Along(xh, yh, r.0, r.1).1) == node
  {
    var (xo, yo) := Coords(node);
    OffsetOfCoords(node);
    if xo == xh then
      if yh > yo then (Up, yh - yo) else if yh < yo then (Down, yo - yh) else (Up, 0)
    else if yo == yh then
      if xh > xo then (Left, xh - xo) else if xh < xo then (Right, xo - xh) else (Up, 0)
    else (Up, 0)
  }

  /** The trail and the head after the slide towards node: the cells up to
      where the slide stops are marked and the head moves to the last of them. */
  function Slid(v: seq<byte>, head: int, xh: nat, yh: nat, node: nat): (r: (seq<byte>, int))
    requires |v| == Size && InField(xh, yh) && node < Size
    ensures |r.0| == Size
  {
    var (d, steps) := SlideOf(xh, yh, node);
    if steps == 0 then (v, head)
    else
      var m := Stop(v, xh, yh, d, 1, steps);
      (Trail(v, xh, yh, d, m), if m == 0 then head else Ray(xh, yh, d, m))
  }

  /** One press of level 12 on cell c: on the head it wipes every mark,
      elsewhere it slides from the frame's head position (xh, yh). */
  function PressStep(v: seq<byte>, head: int, xh: nat, yh: nat, c: nat): (r: (seq<byte>, int))
    requires |v| == Size && InField(xh, yh) && c < Size
    ensures |r.0| == Size
  {
    if c == head then (seq(Size, _ => 0), head) else Slid(v, head, xh, yh, c)
  }

  /** The trail and the head after the presses among cells 0..n-1, in cell order. */
  function PressesAfter(v: seq<byte>, head: int, xh: nat, yh: nat, sw: seq<byte>, n: nat): (r: (seq<byte>, int))
    requires |v| == Size && InField(xh, yh) && n <= |sw| <= Size
    ensures |r.0| == Size
  {
    if n == 0 then (v, head)
    else
      var (w, h) := PressesAfter(v, head, xh, yh, sw, n - 1);
      if sw[n - 1] == 1 then PressStep(w, h, xh, yh, n - 1) else (w, h)
  }

  /** A press on the head leaves no mark, whatever came before it in the frame. */
  lemma HeadPressWipes(v: seq<byte>, head: int, xh: nat, yh: nat, sw: seq<byte>, n: nat)
    requires |v| == Size && InField(xh, yh) && n < |sw| <= Size
    requires sw[n] == 1 && PressesAfter(v, head, xh, yh, sw, n).1 == n
    ensures PressesAfter(v, head, xh, yh, sw, n + 1) == (seq(Size, _ => 0), n as int)
  {
  }

  /** A slide only ever marks cells in the head's column or row. */
  lemma SlidMarks(v: seq<byte>, head: int, xh: nat, yh: nat, node: nat)
    requires |v| == Size && InField(xh, yh) && node < Size
    ensures forall i :: 0 <= i < Size ==>
              Slid(v, head, xh, yh, node).0[i] == v[i] ||
              (Slid(v, head, xh, yh, node).0[i] == 63 && InLine(i, Offset(xh, yh) as nat))
  {
    var (d, steps) := SlideOf(xh, yh, node);
    if steps > 0 {
      var m := Stop(v, xh, yh, d, 1, steps);
      CoordsOfOffset(xh, yh);
      forall i | 0 <= i < Size && OnRay(xh, yh, d, m, i)
        ensures InLine(i, Offset(xh, yh) as nat)
      {
        OnRayAt(xh, yh, d, m, i);
        var k :| 1 <= k <= m && i == Ray(xh, yh, d, k);
        RayInField(xh, yh, d, steps, k);
        CoordsOfOffset(Along(xh, yh, d, k).0, Along(xh, yh, d, k).1);
      }
    }
  }

  /** The presses keep every cell at 0 or 63 and mark only cells in the
      head's column or row. */
  lemma {:induction false} PressesMarks(v: seq<byte>, head: int, xh: nat, yh: nat, sw: seq<byte>, n: nat)
    requires |v| == Size && InField(xh, yh) && n <= |sw| <= Size
    requires forall i :: 0 <= i < Size ==> v[i] == 0 || v[i] == 63
    ensures forall i :: 0 <= i < Size ==>
              PressesAfter(v, head, xh, yh, sw, n).0[i] == 0 || PressesAfter(v, head, xh, yh, sw, n).0[i] == 63
    ensures forall i :: 0 <= i < Size ==>
              PressesAfter(v, head, xh, yh, sw, n).0[i] == 63 ==> v[i] == 63 || InLine(i, Offset(xh, yh) as nat)
  {
    if n > 0 {
      PressesMarks(v, head, xh, yh, sw, n - 1);
      var (w, h) := PressesAfter(v, head, xh, yh, sw, n - 1);
      if sw[n - 1] == 1 && n - 1 != h {
        SlidMarks(w, h, xh, yh, n - 1);
      }
    }
  }

  /** A frame without presses changes neither the trail nor the head. */
  lemma {:induction false} PressesIdle(v: seq<byte>, head: int, xh: nat, yh: nat, sw: seq<byte>, n: nat)
    requires |v| == Size && InField(xh, yh) && n <= |sw| <= Size
    requires forall i :: 0 <= i < n ==> sw[i] != 1
    ensures PressesAfter(v, head, xh, yh, sw, n) == (v, head)
  {
    if n > 0 {
      PressesIdle(v, head, xh, yh, sw, n - 1);
    }
  }

  /** One press of the loop: the wipe on the head, the slide elsewhere. */
  method PressCell(b: Badge, xh: nat, yh: nat, n: nat)
    requires b.Shape() && InField(xh, yh) && n < Size && b.deform[0] < Size as byte
    modifies b.velocity, b.deform
    ensures b.deform[0] < Size as byte && b.deform[1..] == old(b.deform[1..])
    ensures (b.velocity[..], b.deform[0] as int) ==
            PressStep(old(b.velocity[..]), old(b.deform[0]) as int, xh, yh, n)
  {
    if n == b.deform[0] as int {
      ClearTrail(b);
      assert b.velocity[..] == seq(Size, _ => 0);
    } else {
      PressSlide(b, xh, yh, n);
    }
  }

  /** The slide for a press on a cell other than the head, measured from the
      head position (xh, yh) the frame started with: along its column or its
      row towards the pressed cell; a press in neither does nothing. */
  method PressSlide(b: Badge, xh: nat, yh: nat, node: nat)
    requires b.Shape() && InField(xh, yh) && node < Size && b.deform[0] < Size as byte
    modifies b.velocity, b.deform
    ensures b.deform[0] < Size as byte
    ensures forall i :: 1 <= i < Size ==> b.deform[i] == old(b.deform[i])
    ensures forall i :: 0 <= i < Size ==>
              b.velocity[i] == old(b.velocity[i]) || (b.velocity[i] == 63 && InLine(i, Offset(xh, yh) as nat))
    ensures (b.velocity[..], b.deform[0] as int) == Slid(old(b.velocity[..]), old(b.deform[0]) as int, xh, yh, node)
  {
    var (xo, yo) := Coords(node);
    var d: Direction;
    var steps: nat := 0;
    if xo == xh {
      if yh > yo {
        d, steps := Up, yh - yo;
      } else if yh < yo {
        d, steps := Down, yo - yh;
      }
    } else if yo == yh {
      if xh > xo {
        d, steps := Left, xh - xo;
      } else if xh < xo {
        d, steps := Right, xo - xh;
      }
    }
    assert steps > 0 ==> (d, steps) == SlideOf(xh, yh, node);
    ghost var v0 := b.velocity[..];
    if steps > 0 {
      SlideAlong(b.velocity, b.deform, xh, yh, d, steps);
    }
    SlidMarks(v0, old(b.deform[0]) as int, xh, yh, node);
  }

  /** A press on the head wipes the whole trail. */
  method ClearTrail(b: Badge)
    requires b.Shape()
    modifies b.velocity
    ensures Filled(b.velocity[..], 0)
  {
    Fill(b.velocity, 0);
  }

  /** `step_level_12`: the head breathes; the level is finished when every cell
      but the head is marked; otherwise each press slides the head towards the
      pressed cell (or, on the head itself, wipes the trail) and the field shows
      the trail at 63 with the head at its breathing brightness. */
  method Level12(b: Badge) returns (finished: bool)
    requires b.Shape() && b.CellsOkAt(12)
    modifies b.value, b.deform, b.velocity, b.switchState, b`gameTimeout
    ensures b.CellsOkAt(12)
    ensures (b.deform[1], b.deform[2]) == Breathe(old(b.deform[1]), old(b.deform[2]))
    ensures finished <==> forall i :: 0 <= i < Size ==> old(b.velocity[i]) != 0 || i == old(b.deform[0]) as int
    ensures finished ==> b.value[..] == old(b.value[..]) && b.velocity[..] == old(b.velocity[..])
    ensures !finished ==> forall i :: 0 <= i < Size ==>
              b.value[i] == if i == b.deform[0] as int then b.deform[1] else b.velocity[i]
    ensures forall i :: 0 <= i < Size ==>
              b.velocity[i] == 63 ==> old(b.velocity[i]) == 63 || InLine(i, old(b.deform[0]) as nat)
    ensures !finished ==> var (xh, yh) := Coords(old(b.deform[0]) as nat);
              (b.velocity[..], b.deform[0] as int) ==
              PressesAfter(old(b.velocity[..]), old(b.deform[0]) as int, xh, yh, old(b.switchState[..]), Size)
    ensures (forall i :: 0 <= i < Size ==> old(b.switchState[i]) != 1) ==>
              b.velocity[..] == old(b.velocity[..]) && b.deform[0] == old(b.deform[0])
    // a level only ever clears a switch state
    ensures forall i :: 0 <= i < Size ==> b.switchState[i] == old(b.switchState[i]) || b.switchState[i] == 0
    // the presses are read only when the level goes on
    ensures b.gameTimeout == if !finished && exists i :: 0 <= i < Size && old(b.switchState[i]) == 1 then 0 else old(b.gameTimeout)
  {
    BreatheHead(b.deform);
    finished := AllMarked(b);
    if finished {
      return;
    }
    Presses(b);
    ShowTrail(b);
  }

  /** The head's breathing step: its brightness deform[1] moves one step in
      the direction deform[2] and turns at 192 and at 64. */
  method BreatheHead(deform: array<byte>)
    requires deform.Length == Size && 64 <= deform[1] <= 192
    modifies deform
    ensures (deform[1], deform[2]) == Breathe(old(deform[1]), old(deform[2]))
    ensures deform[0] == old(deform[0]) && deform[3..] == old(deform[3..])
  {
    if deform[2] == 128 {
      deform[1] := deform[1] + 1;
      if deform[1] >= 192 {
        deform[1] := 192;
        deform[2] := 127;
      }
    } else if deform[2] == 127 {
      deform[1] := deform[1] - 1;
      if deform[1] <= 64 {
        deform[1] := 64;
        deform[2] := 128;
      }
    }
  }

  /** The display part of `step_level_12`: the trail, then the head at its
      breathing brightness. */
  method ShowTrail(b: Badge)
    requires b.Shape() && b.deform[0] < Size as byte
    modifies b.value
    ensures forall i :: 0 <= i < Size ==> b.value[i] == if i == b.deform[0] as int then b.deform[1] else b.velocity[i]
  {
    var n := 0;
    while n < Size
      invariant n <= Size
      invariant forall i :: 0 <= i < n ==> b.value[i] == b.velocity[i]
    {
      b.value[n] := b.velocity[n];
      n := n + 1;
    }
    b.value[b.deform[0]] := b.deform[1];
  }

  /** Level 12's completion check: every cell other than the head is marked. */
  method AllMarked(b: Badge) returns (finished: bool)
    requires b.Shape()
    ensures finished <==> forall i :: 0 <= i < Size ==> b.velocity[i] != 0 || i == b.deform[0] as int
  {
    finished := true;
    var n := 0;
    while n < Size
      invariant n <= Size
      invariant finished <==> forall i :: 0 <= i < n ==> b.velocity[i] != 0 || i == b.deform[0] as int
    {
      if b.velocity[n] == 0 && n != b.deform[0] as int {
        finished := false;
      }
      n := n + 1;
    }
  }

  /** The press loop of `step_level_12`. The head position is read once, before
      the loop. */
  method Presses(b: Badge)
    requires b.Shape() && b.deform[0] < Size as byte
    requires forall i :: 0 <= i < Size ==> b.velocity[i] == 0 || b.velocity[i] == 63
    modifies b.deform, b.velocity, b.switchState, b`gameTimeout
    ensures b.deform[0] < Size as byte
    ensures forall i :: 1 <= i < Size ==> b.deform[i] == old(b.deform[i])
    ensures var (xh, yh) := Coords(old(b.deform[0]) as nat);
            (b.velocity[..], b.deform[0] as int) ==
            PressesAfter(old(b.velocity[..]), old(b.deform[0]) as int, xh, yh, old(b.switchState[..]), Size)
    ensures forall i :: 0 <= i < Size ==> b.velocity[i] == 0 || b.velocity[i] == 63
    ensures forall i :: 0 <= i < Size ==>
              b.velocity[i] == 63 ==> old(b.velocity[i]) == 63 || InLine(i, old(b.deform[0]) as nat)
    ensures b.switchState[..] == ReleasedBelow(old(b.switchState[..]), Size)
    ensures b.gameTimeout == if exists i :: 0 <= i < Size && old(b.switchState[i]) == 1 then 0 else old(b.gameTimeout)
    ensures (forall i :: 0 <= i < Size ==> old(b.switchState[i]) != 1) ==>
              b.velocity[..] == old(b.velocity[..]) && b.deform[0] == old(b.deform[0])
  {
    var (xh, yh) := Coords(b.deform[0] as nat);
    OffsetOfCoords(b.deform[0] as nat);
    ghost var sw0, v0, h0 := b.switchState[..], b.velocity[..], b.deform[0];
    var n := 0;
    while n < Size
      invariant n <= Size && b.deform[0] < Size as byte
      invariant b.deform[1..] == old(b.deform[1..])
      invariant (b.velocity[..], b.deform[0] as int) == PressesAfter(v0, h0 as int, xh, yh, sw0, n)
      invariant b.switchState[..] == ReleasedBelow(sw0, n)
      invariant b.gameTimeout == if exists i :: 0 <= i < n && sw0[i] == 1 then 0 else old(b.gameTimeout)
    {
      ReleasedBelowStep(sw0, n);
      if b.switchState[n] == 1 {
        b.gameTimeout := 0;
        b.switchState[n] := 0;
        PressCell(b, xh, yh, n);
      }
      n := n + 1;
    }
    PressesMarks(v0, h0 as int, xh, yh, sw0, Size);
    if forall i :: 0 <= i < Size ==> sw0[i] != 1 {
      PressesIdle(v0, h0 as int, xh, yh, sw0, Size);
    }
  }

  // ---------------------------------------------------------------- level 13

  // Level 13 keeps its state in the first four velocity cells: the phase (0 clear,
  // 1 show, 2 recall, 3 fail), the position in the sequence, a frame timer and a
  // pause counter. The sequence itself is the shuffle in `node_deform`.

  /** One frame of phase 1 from field v0 and state w0 to v and w: a frame
      counter w0[2] counts to 8; at 8 it restarts and the next cell of the
      order d lights at 16, or, after the last cell, the pause counter w0[3]
      counts to 2 and then recall starts from the first position. */
  ghost predicate ShowFrame(d: seq<byte>, v0: seq<byte>, w0: seq<byte>, v: seq<byte>, w: seq<byte>)
    requires |d| == Size && |v0| == Size && |w0| == Size
    requires forall i :: 0 <= i < Size ==> d[i] < Size as byte
  {
    if w0[2] < 8 then v == v0 && w == w0[2 := w0[2] + 1]
    else if w0[1] < Size as byte then v == v0[d[w0[1]] as int := 16] && w == w0[1 := w0[1] + 1][2 := 0]
    else if w0[3] < 2 then v == v0 && w == w0[2 := 0][3 := w0[3] + 1]
    else v == v0 && w == w0[2 := 0][3 := 0][0 := 2][1 := 0]
  }

  /** One frame of phase 3 from field v0 and state w0 to v and w: the frame
      counter w0[2] counts to 8; then one cell per frame goes dark, in cell
      order, and after the last one the level goes back to phase 0. */
  ghost predicate FailFrame(v0: seq<byte>, w0: seq<byte>, v: seq<byte>, w: seq<byte>)
    requires |v0| == Size && |w0| == Size
  {
    if w0[2] < 8 then v == v0 && w == w0[2 := w0[2] + 1]
    else if w0[1] < Size as byte then v == v0[w0[1] as int := 0] && w == w0[1 := w0[1] + 1]
    else v == v0 && w == w0[1 := 0][0 := 0]
  }

  /** `step_level_13`, phase 0: clear the field and start showing. */
  method Restart(b: Badge)
    requires b.Shape()
    modifies b.value, b.velocity
    ensures Filled(b.value[..], 0)
    ensures b.velocity[..] == old(b.velocity[..])[0 := 1][1 := 0][2 := 0]
  {
    b.velocity[0] := 1;
    b.velocity[1] := 0;
    b.velocity[2] := 0;
    Fill(b.value, 0);
  }

  /** Phase 1: every ninth frame the next cell of the sequence lights at 16;
      after the last one, three more ninth frames pass before recall starts. */
  method Show(b: Badge)
    requires b.Shape() && b.CellsOkAt(13) && b.velocity[0] == 1
    modifies b.value, b.velocity
    ensures b.CellsOkAt(13)
    ensures ShowFrame(b.deform[..], old(b.value[..]), old(b.velocity[..]), b.value[..], b.velocity[..])
  {
    if b.velocity[2] < 8 {
      b.velocity[2] := b.velocity[2] + 1;
    } else {
      b.velocity[2] := 0;
      if b.velocity[1] < Size as byte {
        var position := b.velocity[1];
        var shown := b.deform[position];
        b.value[shown] := 16;
        b.velocity[1] := position + 1;
      } else {
        if b.velocity[3] < 2 {
          b.velocity[3] := b.velocity[3] + 1;
        } else {
          b.velocity[3] := 0;
          b.velocity[0] := 2;
          b.velocity[1] := 0;
        }
      }
    }
  }

  /** Where recall stands: the position in the sequence that is expected next,
      whether a wrong press has sent it back this frame, and whether the last
      cell of the sequence has been pressed. */
  datatype Recalled = Recalled(position: nat, failed: bool, done: bool)

  /** Recall after the presses on cells 0..n-1 of one frame, from position p0
      of the sequence `order`. A press on the expected cell moves on (or
      finishes after the last cell); any other press goes back to position 0;
      nothing happens once finished. */
  function RecallAfter(sw: seq<byte>, order: seq<byte>, p0: nat, n: nat): (r: Recalled)
    requires |sw| == Size && |order| == Size && p0 < Size && n <= Size
    ensures r.position < Size
  {
    if n == 0 then Recalled(p0, false, false)
    else RecallStep(RecallAfter(sw, order, p0, n - 1), sw, order, n - 1)
  }

  /** Recall going over cell c. */
  function RecallStep(r: Recalled, sw: seq<byte>, order: seq<byte>, c: nat): (s: Recalled)
    requires |sw| == Size && |order| == Size && r.position < Size && c < Size
    ensures s.position < Size
  {
    if r.done || sw[c] != 1 then r
    else if c == order[r.position] as int then
      if r.position + 1 >= Size then Recalled(r.position, r.failed, true)
      else Recalled(r.position + 1, r.failed, false)
    else Recalled(0, true, false)
  }

  /** The press on cell i is the one recall expects when it reaches it. */
  predicate Hit(sw: seq<byte>, order: seq<byte>, p0: nat, i: nat)
    requires |sw| == Size && |order| == Size && p0 < Size && i < Size
  {
    var r := RecallAfter(sw, order, p0, i);
    sw[i] == 1 && !r.done && i == order[r.position] as int
  }

  /** The field after recall has gone over cells 0..n-1: every hit cell lit at 255. */
  function LitAfter(v: seq<byte>, sw: seq<byte>, order: seq<byte>, p0: nat, n: nat): (l: seq<byte>)
    requires |v| == Size && |sw| == Size && |order| == Size && p0 < Size && n <= Size
    ensures |l| == Size
  {
    seq(Size, i requires 0 <= i < Size => if i < n && Hit(sw, order, p0, i) then 255 else v[i])
  }

  /** The pressed cells among 0..n-1, in cell order. */
  function PressedCells(sw: seq<byte>, n: nat): (p: seq<nat>)
    requires n <= |sw|
    ensures |p| <= n
  {
    if n == 0 then [] else PressedCells(sw, n - 1) + (if sw[n - 1] == 1 then [n - 1] else [])
  }

  /** The rest of the sequence from position p on. */
  function Expected(order: seq<byte>, p: nat): (e: seq<nat>)
    requires p <= |order|
    ensures |e| == |order| - p
  {
    seq(|order| - p, k requires 0 <= k < |order| - p => order[p + k] as nat)
  }

  /** What recall means: it is finished exactly when the pressed cells, in cell
      order, start with the rest of the sequence; it is still on course
      exactly when they are a proper beginning of it, and then it expects the
      position after them; otherwise a wrong press has sent it back. */
  lemma {:induction false} RecallMeans(sw: seq<byte>, order: seq<byte>, p0: nat, n: nat)
    requires |sw| == Size && |order| == Size && p0 < Size && n <= Size
    ensures var r := RecallAfter(sw, order, p0, n);
            && (r.done <==> Expected(order, p0) <= PressedCells(sw, n))
            && (!r.done && !r.failed <==> PressedCells(sw, n) < Expected(order, p0))
            && (!r.done && !r.failed ==> r.position == p0 + |PressedCells(sw, n)|)
            && (r.failed ==> !r.done && r.position < n)
  {
    if n > 0 {
      RecallMeans(sw, order, p0, n - 1);
      var r := RecallAfter(sw, order, p0, n - 1);
      var e, p := Expected(order, p0), PressedCells(sw, n - 1);
      assert PressedCells(sw, n) == p + (if sw[n - 1] == 1 then [n - 1] else []);
      if !r.done && !r.failed && sw[n - 1] == 1 {
        assert e[|p|] == order[r.position] as nat;
        if n - 1 != order[r.position] as int {
          assert PressedCells(sw, n)[|p|] != e[|p|];
        }
      }
    }
  }

  /** Once finished, later cells change nothing. */
  lemma {:induction false} DoneStays(v: seq<byte>, sw: seq<byte>, order: seq<byte>, p0: nat, n: nat, m: nat)
    requires |v| == Size && |sw| == Size && |order| == Size && p0 < Size && n <= m <= Size
    requires RecallAfter(sw, order, p0, n).done
    ensures RecallAfter(sw, order, p0, m) == RecallAfter(sw, order, p0, n)
    ensures LitAfter(v, sw, order, p0, m) == LitAfter(v, sw, order, p0, n)
    decreases m - n
  {
    if n < m {
      assert RecallAfter(sw, order, p0, n + 1) == RecallAfter(sw, order, p0, n);
      DoneStays(v, sw, order, p0, n + 1, m);
      assert !Hit(sw, order, p0, n);
      assert LitAfter(v, sw, order, p0, n + 1) == LitAfter(v, sw, order, p0, n);
    }
  }

  /** The velocity cells once recall has reached r: phase 3 with a fresh
      timer after a wrong press, phase 2 otherwise, and the position. */
  function RecallVelocity(v: seq<byte>, r: Recalled): (w: seq<byte>)
    requires |v| == Size && r.position < Size
    ensures |w| == Size
  {
    v[0 := if r.failed then 3 else 2][1 := r.position as byte][2 := if r.failed then 0 else v[2]]
  }

  /** Going over one more cell lights it exactly when it is hit. */
  lemma LitStep(v: seq<byte>, sw: seq<byte>, order: seq<byte>, p0: nat, n: nat)
    requires |v| == Size && |sw| == Size && |order| == Size && p0 < Size && n < Size
    ensures LitAfter(v, sw, order, p0, n + 1) ==
              if Hit(sw, order, p0, n) then LitAfter(v, sw, order, p0, n)[n := 255] else LitAfter(v, sw, order, p0, n)
  {
  }

  /** The velocity cells follow recall over one more pressed cell as one
      press at the recorded position says. */
  lemma VelocityStep(v0: seq<byte>, sw: seq<byte>, order: seq<byte>, r: Recalled, n: nat, w: seq<byte>)
    requires |v0| == Size && |sw| == Size && |order| == Size && r.position < Size && n < Size
    requires !r.done && sw[n] == 1 && w == RecallVelocity(v0, r)
    ensures n == order[w[1]] as int && w[1] as int == Size - 1 ==> RecallStep(r, sw, order, n).done
    ensures n == order[w[1]] as int && w[1] as int < Size - 1 ==>
              !RecallStep(r, sw, order, n).done && w[1 := w[1] + 1] == RecallVelocity(v0, RecallStep(r, sw, order, n))
    ensures n != order[w[1]] as int ==>
              !RecallStep(r, sw, order, n).done && w[1 := 0][2 := 0][0 := 3] == RecallVelocity(v0, RecallStep(r, sw, order, n))
  {
  }

  /** Phase 2: the presses, in cell order, must follow the sequence. The expected
      cell lights at 255 and the next one is expected; any other press starts
      the fail phase and sends the expectation back to the first cell. The level
      is finished when the last cell of the sequence is pressed. */
  method Recall(b: Badge) returns (finished: bool)
    requires b.Shape() && b.CellsOkAt(13) && b.velocity[0] == 2
    modifies b.value, b.velocity, b.switchState, b`gameTimeout
    ensures !finished ==> b.CellsOkAt(13)
    ensures finished <==> Expected(b.deform[..], old(b.velocity[1]) as nat) <= PressedCells(old(b.switchState[..]), Size)
    ensures var r := RecallAfter(old(b.switchState[..]), b.deform[..], old(b.velocity[1]) as nat, Size);
            && finished == r.done
            && b.velocity[..] == RecallVelocity(old(b.velocity[..]), r)
            && b.value[..] == LitAfter(old(b.value[..]), old(b.switchState[..]), b.deform[..], old(b.velocity[1]) as nat, Size)
    ensures forall i :: 0 <= i < Size ==> b.switchState[i] == old(b.switchState[i]) || b.switchState[i] == 0
    ensures b.gameTimeout == if exists i :: 0 <= i < Size && old(b.switchState[i]) == 1 then 0 else old(b.gameTimeout)
  {
    ghost var sw0, p0 := b.switchState[..], b.velocity[1] as nat;
    finished := RecallCells(b);
    RecallMeans(sw0, b.deform[..], p0, Size);
  }

  /** The loop of phase 2 over the cells, in cell order. */
  method RecallCells(b: Badge) returns (finished: bool)
    requires b.Shape() && b.velocity[0] == 2 && b.velocity[1] < Size as byte
    requires forall i :: 0 <= i < Size ==> b.deform[i] < Size as byte
    modifies b.value, b.velocity, b.switchState, b`gameTimeout
    ensures var r := RecallAfter(old(b.switchState[..]), b.deform[..], old(b.velocity[1]) as nat, Size);
            && finished == r.done
            && b.velocity[..] == RecallVelocity(old(b.velocity[..]), r)
            && b.value[..] == LitAfter(old(b.value[..]), old(b.switchState[..]), b.deform[..], old(b.velocity[1]) as nat, Size)
    ensures forall i :: 0 <= i < Size ==> b.switchState[i] == old(b.switchState[i]) || b.switchState[i] == 0
    // recall stops only at a press, so the first press is always read
    ensures b.gameTimeout == if exists i :: 0 <= i < Size && old(b.switchState[i]) == 1 then 0 else old(b.gameTimeout)
  {
    ghost var sw0, v0, val0, d := b.switchState[..], b.velocity[..], b.value[..], b.deform[..];
    ghost var p0 := b.velocity[1] as nat;
    ghost var r := Recalled(p0, false, false);
    assert v0 == RecallVelocity(v0, r);
    var n := 0;
    while n < Size
      invariant n <= Size && r == RecallAfter(sw0, d, p0, n) && !r.done
      invariant b.velocity[..] == RecallVelocity(v0, r)
      invariant b.value[..] == LitAfter(val0, sw0, d, p0, n)
      invariant b.switchState[..] == ReleasedBelow(sw0, n)
      invariant b.gameTimeout == if PressedBelow(sw0, n) then 0 else old(b.gameTimeout)
    {
      LitStep(val0, sw0, d, p0, n);
      ReleasedBelowStep(sw0, n);
      if b.switchState[n] == 1 {
        VelocityStep(v0, sw0, d, r, n, b.velocity[..]);
        var done := RecallPress(b, n);
        if done {
          DoneStays(val0, sw0, d, p0, n + 1, Size);
          PressedBelowMeans(sw0, Size);
          return true;
        }
      }
      r := RecallStep(r, sw0, d, n);
      n := n + 1;
    }
    PressedBelowMeans(sw0, Size);
    return false;
  }

  /** One press during recall, at cell n: the expected cell lights at 255 and
      recall moves on, finishing after the last cell of the sequence; any other
      cell starts the fail phase from the first position. */
  method RecallPress(b: Badge, n: nat) returns (finished: bool)
    requires b.Shape() && n < Size && b.switchState[n] == 1 && b.velocity[1] < Size as byte
    requires forall i :: 0 <= i < Size ==> b.deform[i] < Size as byte
    modifies b.value, b.velocity, b.switchState, b`gameTimeout
    ensures b.switchState[..] == old(b.switchState[..])[n := 0] && b.gameTimeout == 0
    ensures var p := old(b.velocity[1]);
            if n == b.deform[p] as int then
              && b.value[..] == old(b.value[..])[n := 255]
              && (finished <==> p as int == Size - 1)
              && b.velocity[..] == if finished then old(b.velocity[..]) else old(b.velocity[..])[1 := p + 1]
            else
              && !finished && b.value[..] == old(b.value[..])
              && b.velocity[..] == old(b.velocity[..])[1 := 0][2 := 0][0 := 3]
  {
    b.gameTimeout := 0;
    b.switchState[n] := 0;
    var position := b.velocity[1];
    var expected := b.deform[position];
    if n == expected as int {
      b.value[expected] := 255;
      if position as int + 1 >= Size {
        return true;
      }
      b.velocity[1] := position + 1;
    } else {
      b.velocity[1] := 0;
      b.velocity[2] := 0;
      b.velocity[0] := 3;
    }
    return false;
  }

  /** Phase 3: after eight frames, one cell per frame goes dark, in cell order;
      then the level starts over with phase 0. */
  method Fail(b: Badge)
    requires b.Shape() && b.CellsOkAt(13) && b.velocity[0] == 3
    modifies b.value, b.velocity
    ensures b.CellsOkAt(13)
    ensures FailFrame(old(b.value[..]), old(b.velocity[..]), b.value[..], b.velocity[..])
  {
    if b.velocity[2] < 8 {
      b.velocity[2] := b.velocity[2] + 1;
    } else {
      if b.velocity[1] < Size as byte {
        if b.value[b.velocity[1]] > 0 {
          b.value[b.velocity[1]] := 0;
        }
        b.velocity[1] := b.velocity[1] + 1;
      } else {
        b.velocity[1] := 0;
        b.velocity[0] := 0;
      }
    }
  }

  /** `step_level_13`: one frame of the phase the level is in. */
  method Level13(b: Badge) returns (finished: bool)
    requires b.Shape() && b.CellsOkAt(13)
    modifies b.value, b.velocity, b.switchState, b`gameTimeout
    ensures !finished ==> b.CellsOkAt(13)
    ensures finished <==> old(b.velocity[0]) == 2
                          && Expected(b.deform[..], old(b.velocity[1]) as nat) <= PressedCells(old(b.switchState[..]), Size)
    ensures old(b.velocity[0]) != 2 ==> b.switchState[..] == old(b.switchState[..])
    // a level only ever clears a switch state
    ensures forall i :: 0 <= i < Size ==> b.switchState[i] == old(b.switchState[i]) || b.switchState[i] == 0
    // the frame of the phase in play
    ensures old(b.velocity[0]) == 0 ==>
              Filled(b.value[..], 0) && b.velocity[..] == old(b.velocity[..])[0 := 1][1 := 0][2 := 0]
    ensures old(b.velocity[0]) == 1 ==>
              ShowFrame(b.deform[..], old(b.value[..]), old(b.velocity[..]), b.value[..], b.velocity[..])
    ensures old(b.velocity[0]) == 2 ==>
              var r := RecallAfter(old(b.switchState[..]), b.deform[..], old(b.velocity[1]) as nat, Size);
              && b.velocity[..] == RecallVelocity(old(b.velocity[..]), r)
              && b.value[..] == LitAfter(old(b.value[..]), old(b.switchState[..]), b.deform[..], old(b.velocity[1]) as nat, Size)
    ensures old(b.velocity[0]) == 3 ==> FailFrame(old(b.value[..]), old(b.velocity[..]), b.value[..], b.velocity[..])
    // only recall reads the presses
    ensures b.gameTimeout == if old(b.velocity[0]) == 2 && exists i :: 0 <= i < Size && old(b.switchState[i]) == 1 then 0 else old(b.gameTimeout)
  {
    finished := false;
    if b.velocity[0] == 0 {
      Restart(b);
    } else if b.velocity[0] == 1 {
      Show(b);
    } else if b.velocity[0] == 2 {
      finished := Recall(b);
    } else if b.velocity[0] == 3 {
      Fail(b);
    }
  }
}
