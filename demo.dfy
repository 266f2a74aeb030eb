/** The bouncing-ball demo of the purple badge: a ball of light bounces across
    the 7 x 10 field, jumps to any switch that is pressed, and leaves a trail
    that fades frame by frame. */
module Demo {
  import opened Grid
  import opened Render
  import opened Input

  // ------------------------------------------------------------ the ball

  /** A coordinate and its heading (+1 or -1) on an axis of n cells: inside the
      axis, and pointing inward at either end. */
  predicate Heading(p: int, d: int, n: nat) {
    0 <= p < n && (d == 1 || d == -1) && (p == 0 ==> d == 1) && (p == n - 1 ==> d == -1)
  }

  /** One frame of movement on an axis of n cells: step along the heading, and
      turn around on reaching either end. */
  function Bounce(p: int, d: int, n: nat): (r: (int, int))
  {
    var q := p + d;
    (q, if q >= n - 1 || q <= 0 then -d else d)
  }

  /** A bounce keeps the ball on the axis and pointing inward at its ends, so
      the ball's cell is always inside the field. */
  lemma BounceKeepsHeading(p: int, d: int, n: nat)
    requires n >= 2 && Heading(p, d, n)
    ensures Heading(Bounce(p, d, n).0, Bounce(p, d, n).1, n)
    ensures Bounce(p, d, n).0 == p + d
  {
  }

  /** The ball after k frames with no press. */
  function Bounced(p: int, d: int, n: nat, k: nat): (int, int)
    decreases k
  {
    if k == 0 then (p, d) else var r := Bounce(p, d, n); Bounced(r.0, r.1, n, k - 1)
  }

  /** Left alone, the ball sweeps an axis of n cells to the far end and back in
      2 (n - 1) frames: from the first cell it comes back after 2 (n - 1)
      frames, having passed every cell on the way. */
  lemma {:induction false} SweepOut(n: nat, k: nat)
    requires n >= 2 && k <= n - 1
    ensures Bounced(0, 1, n, k) == (k, if k == n - 1 then -1 else 1)
    decreases k
  {
    if k > 0 {
      SweepOut(n, k - 1);
      BouncedLast(0, 1, n, k);
    }
  }

  /** Sweeping back from the far end. */
  lemma {:induction false} SweepBack(n: nat, k: nat)
    requires n >= 2 && k <= n - 1
    ensures Bounced(n - 1, -1, n, k) == (n - 1 - k, if k == n - 1 then 1 else -1)
    decreases k
  {
    if k > 0 {
      SweepBack(n, k - 1);
      BouncedLast(n - 1, -1, n, k);
    }
  }

  /** k frames are k - 1 frames and then one more. */
  lemma {:induction false} BouncedLast(p: int, d: int, n: nat, k: nat)
    requires k > 0
    ensures Bounced(p, d, n, k) == Bounce(Bounced(p, d, n, k - 1).0, Bounced(p, d, n, k - 1).1, n)
    decreases k
  {
    if k > 1 {
      var r := Bounce(p, d, n);
      BouncedLast(r.0, r.1, n, k - 1);
    }
  }

  /** k + m frames are k frames and then m more. */
  lemma {:induction false} BouncedSplit(p: int, d: int, n: nat, k: nat, m: nat)
    ensures Bounced(p, d, n, k + m) == Bounced(Bounced(p, d, n, k).0, Bounced(p, d, n, k).1, n, m)
    decreases k
  {
    if k > 0 {
      var r := Bounce(p, d, n);
      BouncedSplit(r.0, r.1, n, k - 1, m);
    }
  }

  /** Left alone, a ball leaving the first cell of an axis of n cells is back
      there, heading out again, after 2 (n - 1) frames. */
  lemma BallReturns(n: nat)
    requires n >= 2
    ensures Bounced(0, 1, n, 2 * (n - 1)) == (0, 1)
  {
    SweepOut(n, n - 1);
    SweepBack(n, n - 1);
    BouncedSplit(0, 1, n, n - 1, n - 1);
  }

  // ------------------------------------------------------------ the fade

  /** The fade of one LED per frame: down by 16 while above 15, then by 1 to
      dark. */
  function Fade(v: byte): (r: byte)
    ensures v == 0 ==> r == 0
    ensures v > 0 ==> r < v
  {
    if v > 15 then v - 16 else if v > 0 then v - 1 else 0
  }

  /** An LED after k frames of fading. */
  function FadedFor(v: byte, k: nat): byte
    decreases k
  {
    if k == 0 then v else FadedFor(Fade(v), k - 1)
  }

  /** The frames an LED at v takes to go dark: one per 16 above the low four
      bits, then one per unit of those. */
  lemma {:induction false} DarkAfter(v: byte, k: nat)
    requires k >= v as nat / 16 + v as nat % 16
    ensures FadedFor(v, k) == 0
    decreases k
  {
    if k > 0 {
      var w := v as nat;
      if w > 15 {
        assert (w - 16) / 16 == w / 16 - 1 && (w - 16) % 16 == w % 16;
      } else if w > 0 {
        assert (w - 1) / 16 == 0 && w / 16 == 0 && w % 16 == w;
      }
      DarkAfter(Fade(v), k - 1);
    }
  }

  /** Above 15, each frame takes 16 off. */
  lemma {:induction false} FadeHigh(v: byte, k: nat)
    requires 16 * k <= v as nat
    ensures FadedFor(v, k) as nat == v as nat - 16 * k
    decreases k
  {
    if k > 0 {
      FadeHigh(Fade(v), k - 1);
    }
  }

  /** At 15 and below, each frame takes 1 off. */
  lemma {:induction false} FadeLow(v: byte, k: nat)
    requires v <= 15 && k <= v as nat
    ensures FadedFor(v, k) as nat == v as nat - k
    decreases k
  {
    if k > 0 {
      FadeLow(Fade(v), k - 1);
    }
  }

  /** k + m frames of fading are k frames and then m more. */
  lemma {:induction false} FadedSplit(v: byte, k: nat, m: nat)
    ensures FadedFor(v, k + m) == FadedFor(FadedFor(v, k), m)
    decreases k
  {
    if k > 0 {
      FadedSplit(Fade(v), k - 1, m);
    }
  }

  /** A ball's full-bright LED is dark 30 frames after it was lit, and still
      lit after 29. */
  lemma TrailLength()
    ensures FadedFor(255, 30) == 0
    ensures FadedFor(255, 29) != 0
  {
    DarkAfter(255, 30);
    FadeHigh(255, 15);
    FadedSplit(255, 15, 14);
    FadeLow(15, 14);
  }

  // ------------------------------------------------------------ presses

  /** The last pressed switch (state 1) below n. */
  function LastPressed(sw: seq<byte>, n: nat): (r: Option<nat>)
    requires n <= |sw|
    ensures r.Some? ==> r.value < n && sw[r.value] == 1 && forall j :: r.value < j < n ==> sw[j] != 1
    ensures r.None? ==> forall j :: 0 <= j < n ==> sw[j] != 1
  {
    if n == 0 then None
    else if sw[n - 1] == 1 then Some(n - 1)
    else LastPressed(sw, n - 1)
  }

  /** The heading a press on coordinate p of an axis of len cells leaves: into
      the field at either end, unchanged elsewhere. */
  function Steer(p: nat, d: int, len: nat): int {
    if p == 0 then 1 else if p == len - 1 then -1 else d
  }

  /** The heading along the rows (horizontal) or the columns after the presses
      below n, each steering in index order. */
  function Steered(sw: seq<byte>, n: nat, d: int, horizontal: bool): (e: int)
    requires n <= |sw| && n <= Size
    ensures (d == 1 || d == -1) ==> (e == 1 || e == -1)
    ensures LastPressed(sw, n).None? ==> e == d
  {
    if n == 0 then d
    else
      var e := Steered(sw, n - 1, d, horizontal);
      if sw[n - 1] != 1 then e
      else if horizontal then Steer(ColumnOf(n - 1), e, Width)
      else Steer(RowOf(n - 1), e, Height)
  }

  /** The raster after the frame's presses: the ball's old cell and every
      pressed cell before the last press are dark. */
  function Cleared(r: seq<byte>, sw: seq<byte>, ball: nat, n: nat): (c: seq<byte>)
    requires |r| == Size && |sw| == Size && n <= Size
    ensures |c| == Size
  {
    match LastPressed(sw, n)
    case None => r
    case Some(k) => seq(Size, j requires 0 <= j < Size => if j == ball || (sw[j] == 1 && j < k) then 0 else r[j])
  }

  /** The ball's position once the frame's presses have moved it from (x, y):
      on the last pressed switch, or where it was. */
  function Landed(sw: seq<byte>, x: int, y: int): (p: (int, int))
    requires |sw| == Size
    ensures LastPressed(sw, Size).Some? ==> InField(p.0, p.1) && Offset(p.0, p.1) == LastPressed(sw, Size).value
    ensures LastPressed(sw, Size).None? ==> p == (x, y)
  {
    match LastPressed(sw, Size)
    case None => (x, y)
    case Some(k) => OffsetOfCoords(k); Coords(k)
  }

  /** The ball's cell once the presses below n have moved it from cell ball. */
  function BallAt(sw: seq<byte>, ball: nat, n: nat): nat
    requires n <= |sw|
  {
    match LastPressed(sw, n)
    case None => ball
    case Some(k) => k
  }

  /** A press on cell n turns off the ball's LED where the earlier presses
      left it and moves the ball to n; any other cell changes neither. */
  lemma ClearedStep(r: seq<byte>, sw: seq<byte>, ball: nat, n: nat)
    requires |r| == Size && |sw| == Size && n < Size && ball < Size
    ensures Cleared(r, sw, ball, n + 1) ==
      if sw[n] == 1 then Cleared(r, sw, ball, n)[BallAt(sw, ball, n) := 0] else Cleared(r, sw, ball, n)
    ensures BallAt(sw, ball, n + 1) == if sw[n] == 1 then n else BallAt(sw, ball, n)
  {
  }

  /** The raster after one frame of fading. */
  function Faded(r: seq<byte>): (f: seq<byte>)
    requires |r| == Size
    ensures |f| == Size
  {
    seq(Size, j requires 0 <= j < Size => Fade(r[j]))
  }

  // ------------------------------------------------------------ the badge

  /** The demo badge: the LED raster, the switch states and the previous scan,
      the last button, and the ball's position and heading. */
  class DemoBadge {
    const raster: array<byte>
    const switchState: array<byte>
    var buttonStatesOld: seq<seq<bool>>
    var buttonX: nat
    var buttonY: nat
    var x: int
    var y: int
    var dx: int
    var dy: int

    /** The arrays have their sizes, the scan matrix its shape, and the ball is
        inside the field, pointing inward at its edges. */
    ghost predicate Valid()
      reads this
    {
      && raster.Length == Size && switchState.Length == Size && raster != switchState
      && IsMatrix(buttonStatesOld)
      && Heading(x, dx, Width) && Heading(y, dy, Height)
    }

    /** The start-up state: everything dark and released, the ball in the
        corner heading diagonally into the field. */
    constructor ()
      ensures Valid()
      ensures raster[..] == seq(Size, _ => 0) && switchState[..] == seq(Size, _ => 0)
      ensures buttonStatesOld == Released() && x == 0 && y == 0 && dx == 1 && dy == 1
    {
      raster := new byte[Size](_ => 0);
      switchState := new byte[Size](_ => 0);
      buttonStatesOld := Released();
      buttonX, buttonY := 0, 0;
      x, y, dx, dy := 0, 0, 1, 1;
    }

    /** `raster_fill`: every LED gets the gamma of one value. */
    method RasterFill(v: byte)
      requires raster.Length == Size
      modifies raster
      ensures forall i :: 0 <= i < Size ==> raster[i] == Gamma(v)
    {
      var i := 0;
      while i < Size
        invariant i <= Size
        invariant forall j :: 0 <= j < i ==> raster[j] == Gamma(v)
      {
        raster[i] := Gamma(v);
        i := i + 1;
      }
    }

    /** `raster_set_at`: one LED gets the gamma of a value. */
    method RasterSetAt(px: nat, py: nat, v: byte)
      requires raster.Length == Size && InField(px, py)
      modifies raster
      ensures raster[..] == old(raster[..])[Offset(px, py) := Gamma(v)]
    {
      raster[Offset(px, py)] := Gamma(v);
    }

    /** `get_button_states` on the demo badge: the same edge detection as the
        game badge's scan, without the HUD button. */
    method GetButtonStates(raw: seq<seq<bool>>)
      requires switchState.Length == Size && IsMatrix(raw) && IsMatrix(buttonStatesOld)
      modifies this`buttonStatesOld, this`buttonX, this`buttonY, switchState
      ensures buttonStatesOld == raw
      ensures switchState[..] == Scanned(raw, old(buttonStatesOld), old(switchState[..]))
      ensures match LastFired(raw, old(buttonStatesOld), old(switchState[..]), Size)
              case Some(i) => (buttonX, buttonY) == Coords(i)
              case None => buttonX == old(buttonX) && buttonY == old(buttonY)
    {
      ghost var last0 := buttonStatesOld;
      ghost var sw0 := switchState[..];
      ghost var x0, y0 := buttonX, buttonY;
      var i := 0;
      while i < Size
        invariant i <= Size && IsMatrix(buttonStatesOld)
        invariant forall j :: 0 <= j < i ==> Reading(buttonStatesOld, j) == Reading(raw, j)
        invariant forall j :: i <= j < Size ==> Reading(buttonStatesOld, j) == Reading(last0, j)
        invariant forall j :: 0 <= j < i ==> switchState[j] == Scanned(raw, last0, sw0)[j]
        invariant forall j :: i <= j < Size ==> switchState[j] == sw0[j]
        invariant match LastFired(raw, last0, sw0, i)
                  case Some(k) => (buttonX, buttonY) == Coords(k)
                  case None => buttonX == x0 && buttonY == y0
      {
        assert Fires(raw, buttonStatesOld, switchState[..], i) == Fires(raw, last0, sw0, i);
        ScanCell(raw, i);
        i := i + 1;
      }
      SameReadings(buttonStatesOld, raw);
    }

    /** One cell of the scan: its reading is recorded as seen; when an event
        fires for it, it becomes the last button and its switch state follows
        the reading. */
    method ScanCell(raw: seq<seq<bool>>, i: nat)
      requires switchState.Length == Size && IsMatrix(raw) && IsMatrix(buttonStatesOld) && i < Size
      modifies this`buttonStatesOld, this`buttonX, this`buttonY, switchState
      ensures IsMatrix(buttonStatesOld)
      ensures forall j :: 0 <= j < Size ==>
        Reading(buttonStatesOld, j) == if j == i then Reading(raw, j) else Reading(old(buttonStatesOld), j)
      ensures forall j :: 0 <= j < Size && j != i ==> switchState[j] == old(switchState[j])
      ensures var fired := Fires(raw, old(buttonStatesOld), old(switchState[..]), i);
        && switchState[i] == (if fired then Bit(Reading(raw, i)) else old(switchState[i]))
        && (buttonX, buttonY) == (if fired then Coords(i) else (old(buttonX), old(buttonY)))
    {
      var c := Coords(i);
      var cx, cy := c.0, c.1;
      OffsetOfCoords(i);
      if raw[cx][cy] != buttonStatesOld[cx][cy] {
        buttonStatesOld := buttonStatesOld[cx := buttonStatesOld[cx][cy := raw[cx][cy]]];
        if Bit(raw[cx][cy]) != switchState[i] {
          buttonX, buttonY := cx, cy;
          if !raw[cx][cy] {
            switchState[Offset(cx, cy)] := 0;
          } else {
            switchState[Offset(cx, cy)] := 1;
          }
        }
      }
      forall j | 0 <= j < Size && j != i
        ensures Coords(j) != (cx, cy)
      {
        OffsetOfCoords(j);
      }
    }
  
    /** The press loop of the main loop: each pressed switch is released, the
        ball's LED is turned off and the ball jumps to that switch, heading
        into the field if the switch is on an edge. */
    method TakePresses()
      requires Valid()
      modifies switchState, raster, this`x, this`y, this`dx, this`dy
      ensures Valid()
      ensures forall j :: 0 <= j < Size ==> switchState[j] == if old(switchState[j]) == 1 then 0 else old(switchState[j])
      ensures raster[..] == Cleared(old(raster[..]), old(switchState[..]), Offset(old(x), old(y)), Size)
      ensures (x, y) == Landed(old(switchState[..]), old(x), old(y))
      ensures dx == Steered(old(switchState[..]), Size, old(dx), true)
      ensures dy == Steered(old(switchState[..]), Size, old(dy), false)
    {
      TakeAll();
      CoordsOfOffset(x, y);
      CoordsOfOffset(old(x), old(y));
    }

    /** The loop of `TakePresses`, with the ball tracked py its cell. */
    method TakeAll()
      requires Valid()
      modifies switchState, raster, this`x, this`y, this`dx, this`dy
      ensures Valid()
      ensures switchState[..] == ReleasedBelow(old(switchState[..]), Size)
      ensures raster[..] == Cleared(old(raster[..]), old(switchState[..]), Offset(old(x), old(y)), Size)
      ensures Offset(x, y) == BallAt(old(switchState[..]), Offset(old(x), old(y)), Size)
      ensures dx == Steered(old(switchState[..]), Size, old(dx), true)
      ensures dy == Steered(old(switchState[..]), Size, old(dy), false)
    {
      ghost var sw0, r0 := switchState[..], raster[..];
      ghost var ball := Offset(x, y);
      ghost var dx0, dy0 := dx, dy;
      var px, py, hx, hy := x, y, dx, dy;
      var i := 0;
      while i < Size
        invariant i <= Size && Heading(px, hx, Width) && Heading(py, hy, Height)
        invariant switchState[..] == ReleasedBelow(sw0, i)
        invariant raster[..] == Cleared(r0, sw0, ball, i)
        invariant Offset(px, py) == BallAt(sw0, ball, i)
        invariant hx == Steered(sw0, i, dx0, true) && hy == Steered(sw0, i, dy0, false)
      {
        ClearedStep(r0, sw0, ball, i);
        ReleasedBelowStep(sw0, i);
        assert switchState[i] == sw0[i];
        px, py, hx, hy := TakeCell(i, px, py, hx, hy);
        i := i + 1;
      }
      x, y, dx, dy := px, py, hx, hy;
    }

    /** One cell of the press loop for a ball at (px, py) heading (hx, hy): a
        pressed switch is released, the ball's LED is turned off and the ball
        jumps to the switch, heading into the field on an edge; an unpressed one
        changes nothing. */
    method TakeCell(i: nat, px: int, py: int, hx: int, hy: int) returns (nx: int, ny: int, mx: int, my: int)
      requires raster.Length == Size && switchState.Length == Size && raster != switchState && i < Size
      requires Heading(px, hx, Width) && Heading(py, hy, Height)
      modifies switchState, raster
      ensures Heading(nx, mx, Width) && Heading(ny, my, Height)
      ensures old(switchState[i]) == 1 ==>
        && switchState[..] == old(switchState[..])[i := 0]
        && raster[..] == old(raster[..])[Offset(px, py) := 0]
        && (nx, ny) == Coords(i) && Offset(nx, ny) == i
        && mx == Steer(ColumnOf(i), hx, Width) && my == Steer(RowOf(i), hy, Height)
      ensures old(switchState[i]) != 1 ==>
        && switchState[..] == old(switchState[..]) && raster[..] == old(raster[..])
        && nx == px && ny == py && mx == hx && my == hy
    {
      nx, ny, mx, my := px, py, hx, hy;
      if switchState[i] == 1 {
        switchState[i] := 0;
        raster[Offset(px, py)] := 0;
        var c := Coords(i);
        OffsetOfCoords(i);
        nx, ny := c.0, c.1;
        if nx == 0 {
          mx := 1;
        }
        if nx == Width - 1 {
          mx := -1;
        }
        if ny == 0 {
          my := 1;
        }
        if ny == Height - 1 {
          my := -1;
        }
      }
    }

    /** The ball's move: one step along its heading, turning around at an
        edge. */
    method Move()
      requires Valid()
      modifies this`x, this`y, this`dx, this`dy
      ensures Valid()
      ensures (x, dx) == Bounce(old(x), old(dx), Width) && (y, dy) == Bounce(old(y), old(dy), Height)
    {
      BounceKeepsHeading(x, dx, Width);
      BounceKeepsHeading(y, dy, Height);
      x, y := x + dx, y + dy;
      if x >= Width - 1 || x <= 0 {
        dx := dx * -1;
      }
      if y >= Height - 1 || y <= 0 {
        dy := dy * -1;
      }
    }

    /** The fade loop: every LED one step darker. */
    method FadeAll()
      requires raster.Length == Size
      modifies raster
      ensures raster[..] == Faded(old(raster[..]))
    {
      var i := 0;
      while i < Size
        invariant i <= Size
        invariant forall j :: 0 <= j < Size ==> raster[j] == if j < i then Fade(old(raster[j])) else old(raster[j])
      {
        raster[i] := Fade(raster[i]);
        i := i + 1;
      }
    }

    /** One pass of the demo's main loop on the readings raw of the switch
        matrix: scan, take the presses, move the ball, light it fully, and fade
        the whole raster. The ball stays inside the field, so its LED always
        exists, and it shows one fade step below full. */
    method Frame(raw: seq<seq<bool>>)
      requires Valid() && IsMatrix(raw)
      modifies this`buttonStatesOld, this`buttonX, this`buttonY, switchState, raster
      modifies this`x, this`y, this`dx, this`dy
      ensures Valid()
      ensures buttonStatesOld == raw
      ensures var sw := Scanned(raw, old(buttonStatesOld), old(switchState[..]));
        && (forall j :: 0 <= j < Size ==> switchState[j] == if sw[j] == 1 then 0 else sw[j])
        && (x, dx) == Bounce(Landed(sw, old(x), old(y)).0, Steered(sw, Size, old(dx), true), Width)
        && (y, dy) == Bounce(Landed(sw, old(x), old(y)).1, Steered(sw, Size, old(dy), false), Height)
        && raster[..] == Faded(Cleared(old(raster[..]), sw, Offset(old(x), old(y)), Size)[Offset(x, y) := 255])
      ensures raster[Offset(x, y)] == Fade(255)
    {
      GetButtonStates(raw);
      TakePresses();
      Move();
      raster[Offset(x, y)] := 255;
      FadeAll();
    }
  }
}
