/** The badge's only source of randomness: a Langton's-ant style walker over a
    private 70-cell grid of on (255) / off (0) bytes, whose pattern is hashed
    into `ant_random` after every step (`step_level_minus_3`), and `randrange`,
    which advances the walker once and reduces its hash. */
module Entropy {
  import opened Grid
  import opened Bits

  /** Every cell of the ant's grid is off (0) or on (255). */
  predicate Binary(cells: seq<byte>) {
    forall i :: 0 <= i < |cells| ==> cells[i] == 0 || cells[i] == 255
  }

  /** The walker's whole state: `ant_value`, `ant_position`, `ant_rotation`,
      `ant_random` and `ant_count`. */
  datatype AntState = AntState(cells: seq<byte>, position: nat, rotation: nat, random: nat, count: nat)
  {
    predicate Valid() {
      |cells| == Size && position < Size && rotation < 4 && Binary(cells)
    }
  }

  /** The turn-and-paint half of a step, as the firmware writes it: an on cell
      under the ant is switched off and the ant turns clockwise; then, if the cell
      whose INDEX IS THE OLD ROTATION is off, the cell under the ant is switched on
      and the ant turns counter-clockwise. Returns the new grid and rotation. */
  function Paint(cells: seq<byte>, pos: nat, rot: nat): (r: (seq<byte>, nat))
    requires |cells| == Size && pos < Size && rot < 4
    ensures |r.0| == Size && r.1 < 4
    ensures Binary(cells) ==> Binary(r.0)
    ensures forall i :: 0 <= i < Size && i != pos ==> r.0[i] == cells[i]
  {
    var wasOn := cells[pos] == 255;
    var c1 := if wasOn then cells[pos := 0] else cells;
    var r1 := if wasOn then (if rot + 1 > 3 then 0 else rot + 1) else rot;
    if c1[rot] == 0 then (c1[pos := 255], if r1 == 0 then 3 else r1 - 1)
    else (c1, r1)
  }

  /** The move half of a step on coordinates: one cell forward in direction rot
      (0 right, 1 down, 2 left, 3 up), with the firmware's wrap rule. Leaving on
      the right moves to column 0 of the row ABOVE; leaving at the bottom moves to
      row 0 with the column unchanged (the `x = x - y` there runs after `y = 0`). */
  function Forward(x: nat, y: nat, rot: nat): (c: (nat, nat))
    requires InField(x, y) && rot < 4
    ensures InField(c.0, c.1)
  {
    var x0: int := x + (if rot == 0 then 1 else if rot == 2 then -1 else 0);
    var y0: int := y + (if rot == 1 then 1 else if rot == 3 then -1 else 0);
    var x1: int := if x0 >= Width then 0 else x0;
    var y1: int := if x0 >= Width then y0 - 1 else y0;
    var y2: int := if y1 < 0 then Height - 1 else y1;
    var y3: int := if y2 >= Height then 0 else y2;
    var x3: int := if y2 >= Height then x1 - y3 else x1;
    var x4: int := if x3 < 0 then Width - 1 else x3;
    (x4, y3)
  }

  /** One cell backwards against direction rot under the same wrap rule. */
  function Backward(x: nat, y: nat, rot: nat): (c: (nat, nat))
    requires InField(x, y) && rot < 4
    ensures InField(c.0, c.1)
  {
    if rot == 0 then
      (if x > 0 then (x - 1, y) else (Width - 1, if y == Height - 1 then 0 else y + 1))
    else if rot == 1 then (x, if y > 0 then y - 1 else Height - 1)
    else if rot == 2 then (if x < Width - 1 then x + 1 else 0, y)
    else (x, if y < Height - 1 then y + 1 else 0)
  }

  /** Backward undoes Forward and Forward undoes Backward. */
  lemma ForwardBackward(x: nat, y: nat, rot: nat)
    requires InField(x, y) && rot < 4
    ensures var c := Forward(x, y, rot); Backward(c.0, c.1, rot) == (x, y)
    ensures var c := Backward(x, y, rot); Forward(c.0, c.1, rot) == (x, y)
  {
  }

  /** The move of a step on cell indices. */
  function Move(pos: nat, rot: nat): (p: nat)
    requires pos < Size && rot < 4
    ensures p < Size
  {
    var c := Coords(pos);
    var d := Forward(c.0, c.1, rot);
    Offset(d.0, d.1)
  }

  /** The inverse move on cell indices. */
  function MoveBack(p: nat, rot: nat): (q: nat)
    requires p < Size && rot < 4
    ensures q < Size
  {
    var c := Coords(p);
    var d := Backward(c.0, c.1, rot);
    Offset(d.0, d.1)
  }

  /** For each direction the move is a permutation of the 70 cells: MoveBack undoes
      it, and it undoes MoveBack. So the wrap rule never merges two cells or
      leaves one unreachable. */
  lemma MoveIsBijective(pos: nat, rot: nat)
    requires pos < Size && rot < 4
    ensures MoveBack(Move(pos, rot), rot) == pos
    ensures Move(MoveBack(pos, rot), rot) == pos
  {
    OffsetOfCoords(pos);
    var c := Coords(pos);
    ForwardBackward(c.0, c.1, rot);
    var f := Forward(c.0, c.1, rot);
    var b := Backward(c.0, c.1, rot);
    CoordsOfOffset(f.0, f.1);
    CoordsOfOffset(b.0, b.1);
  }

  /** Row y of the grid, left to right. */
  function Row(cells: seq<byte>, y: nat): (row: seq<byte>)
    requires |cells| == Size && y < Height
    ensures |row| == Width
    ensures forall x :: 0 <= x < Width ==> row[x] == cells[Offset(x, y)]
  {
    cells[y * Width .. y * Width + Width]
  }

  /** Bit pattern of a row: bit x set when cell x is on. */
  function Pattern(row: seq<byte>): (r: nat)
    ensures r < Pow2(|row|)
  {
    if row == [] then 0
    else Pattern(row[..|row| - 1]) + (if row[|row| - 1] == 255 then Pow2(|row| - 1) else 0)
  }

  /** The ten row patterns `temp_random` of a grid. */
  function Patterns(cells: seq<byte>): (rows: seq<nat>)
    requires |cells| == Size
    ensures |rows| == Height
    ensures forall y :: 0 <= y < Height ==> rows[y] == Pattern(Row(cells, y))
  {
    seq(Height, y requires 0 <= y < Height => Pattern(Row(cells, y)))
  }

  function Sum(xs: seq<nat>): nat
  {
    if xs == [] then 0 else Sum(xs[..|xs| - 1]) + xs[|xs| - 1]
  }

  /** Sum of the values each shifted left by s. */
  function ShiftedSum(xs: seq<nat>, s: nat): nat
  {
    if xs == [] then 0 else ShiftedSum(xs[..|xs| - 1], s) + xs[|xs| - 1] * Pow2(s)
  }

  /** The new `ant_random`: the row patterns summed, plus the patterns summed after
      a shift by count mod 8, xor the step count, xor the previous random value when
      that was positive. */
  function Hash(cells: seq<byte>, count: nat, last: nat): nat
    requires |cells| == Size
  {
    var rows := Patterns(cells);
    var mixed := Xor(Sum(rows) + ShiftedSum(rows, count % 8), count);
    if last > 0 then Xor(mixed, last) else mixed
  }

  /** The shifted pass adds the plain sum scaled by 2^s. */
  lemma {:induction false} ShiftedSumScales(xs: seq<nat>, s: nat)
    ensures ShiftedSum(xs, s) == Sum(xs) * Pow2(s)
  {
    if xs != [] {
      var init := xs[..|xs| - 1];
      ShiftedSumScales(init, s);
      Distributes(Sum(init), xs[|xs| - 1], Pow2(s));
    }
  }

  lemma Distributes(a: nat, b: nat, p: nat)
    ensures a * p + b * p == (a + b) * p
  {
  }

  /** The hash is the summed patterns times 1 + 2^(count mod 8), xor count, xor the
      previous value; the `last_random > 0` test makes no difference, as xor with 0
      is the identity. */
  lemma HashClosedForm(cells: seq<byte>, count: nat, last: nat)
    requires |cells| == Size
    ensures Hash(cells, count, last)
         == Xor(Xor(Sum(Patterns(cells)) * (1 + Pow2(count % 8)), count), last)
  {
    ShiftedSumScales(Patterns(cells), count % 8);
    XorZero(Xor(Sum(Patterns(cells)) * (1 + Pow2(count % 8)), count));
  }

  /** One full step of the walker. */
  function Next(s: AntState): (t: AntState)
    requires s.Valid()
    ensures t.Valid() && t.count == s.count + 1
    ensures forall i :: 0 <= i < Size && i != s.position ==> t.cells[i] == s.cells[i]
  {
    var (cells, rot) := Paint(s.cells, s.position, s.rotation);
    var count := s.count + 1;
    AntState(cells, Move(s.position, rot), rot, Hash(cells, count, s.random), count)
  }

  /** A step is the paint, then the move along the new rotation, then the hash
      of the painted grid. */
  lemma NextParts(s: AntState, painted: seq<byte>, turned: nat)
    requires s.Valid() && (painted, turned) == Paint(s.cells, s.position, s.rotation)
    ensures Next(s).cells == painted && Next(s).rotation == turned
    ensures Next(s).position == Move(s.position, turned) && Next(s).count == s.count + 1
    ensures Next(s).random == Hash(painted, s.count + 1, s.random)
  {
  }

  /** `randrange(_, modulo)`: one step, then the new random value reduced modulo
      modulo, where 0 counts as 1. Returns the new state and the drawn number. */
  function Draw(s: AntState, modulo: nat): (r: (AntState, nat))
    requires s.Valid()
    ensures r.0 == Next(s)
    ensures r.1 < (if modulo == 0 then 1 else modulo)
    ensures modulo <= 1 ==> r.1 == 0
  {
    var t := Next(s);
    (t, t.random % (if modulo == 0 then 1 else modulo))
  }

  /** The walker as the firmware keeps it: a 70-byte array and four counters. */
  class Ant {
    const cells: array<byte>
    var position: nat
    var rotation: nat
    var random: nat
    var count: nat

    ghost function State(): AntState
      reads this, cells
    {
      AntState(cells[..], position, rotation, random, count)
    }

    ghost predicate Valid()
      reads this, cells
    {
      State().Valid()
    }

    /** The module-level initial values: all cells off, every counter 0. */
    constructor ()
      ensures Valid() && fresh(cells)
      ensures State() == AntState(seq(Size, _ => 0), 0, 0, 0, 0)
    {
      cells := new byte[Size](_ => 0);
      position, rotation, random, count := 0, 0, 0, 0;
    }

    /** `step_level_minus_3`: turn and paint, move, then rehash. */
    method Step()
      requires Valid()
      modifies this, cells
      ensures Valid()
      ensures State() == Next(old(State()))
    {
      ghost var s0 := State();
      Turn();
      ghost var painted, turned := cells[..], rotation;
      Advance();
      Mix();
      NextParts(s0, painted, turned);
    }

    /** The turn-and-paint half of a step. */
    method Turn()
      requires Valid()
      modifies this`rotation, cells
      ensures Valid()
      ensures (cells[..], rotation) == Paint(old(cells[..]), position, old(rotation))
    {
      var rot: int := rotation;
      if cells[position] == 255 {
        cells[position] := 0;
        rot := rot + 1;
        if rot > 3 { rot := 0; }
      }
      if cells[rotation] == 0 {
        cells[position] := 255;
        rot := rot - 1;
        if rot < 0 { rot := 3; }
      }
      rotation := rot;
    }

    /** The move half of a step. */
    method Advance()
      requires Valid()
      modifies this`position
      ensures Valid()
      ensures position == Move(old(position), rotation)
    {
      var c := Coords(position);
      var x: int, y: int := c.0, c.1;
      if rotation == 0 { x := x + 1; }
      if rotation == 1 { y := y + 1; }
      if rotation == 2 { x := x - 1; }
      if rotation == 3 { y := y - 1; }
      if x >= Width {
        x := 0;
        y := y - 1;
      }
      if y < 0 { y := Height - 1; }
      if y >= Height {
        y := 0;
        x := x - y;
      }
      if x < 0 { x := Width - 1; }
      position := Offset(x, y);
    }

    /** Counts the step and folds the grid into a new random value. */
    method Mix()
      requires Valid()
      modifies this`count, this`random
      ensures Valid()
      ensures count == old(count) + 1
      ensures random == Hash(cells[..], count, old(random))
    {
      count := count + 1;
      var last := random;
      var rows := Hashing(cells);
      var plain, shifted := Sums(rows, count % 8);
      var acc := Xor(plain + shifted, count);
      if last > 0 {
        acc := Xor(acc, last);
      }
      random := acc;
    }

    /** The two summing passes of the hash over the row patterns. */
    static method Sums(rows: seq<nat>, shift: nat) returns (plain: nat, shifted: nat)
      ensures plain == Sum(rows) && shifted == ShiftedSum(rows, shift)
    {
      plain := 0;
      var yo := 0;
      while yo < |rows|
        invariant yo <= |rows| && plain == Sum(rows[..yo])
      {
        assert rows[..yo + 1][..yo] == rows[..yo];
        plain := plain + rows[yo];
        yo := yo + 1;
      }
      assert rows[..|rows|] == rows;
      shifted := 0;
      yo := 0;
      while yo < |rows|
        invariant yo <= |rows| && shifted == ShiftedSum(rows[..yo], shift)
      {
        assert rows[..yo + 1][..yo] == rows[..yo];
        shifted := shifted + rows[yo] * Pow2(shift);
        yo := yo + 1;
      }
    }

    /** The per-row patterns `temp_random` of the hash. */
    static method Hashing(cells: array<byte>) returns (rows: seq<nat>)
      requires cells.Length == Size
      ensures rows == Patterns(cells[..])
    {
      rows := [];
      var yo := 0;
      while yo < Height
        invariant yo <= Height && |rows| == yo
        invariant forall y :: 0 <= y < yo ==> rows[y] == Pattern(Row(cells[..], y))
      {
        ghost var row := Row(cells[..], yo);
        var v := 0;
        var xo := 0;
        while xo < Width
          invariant xo <= Width && v == Pattern(row[..xo])
        {
          assert row[..xo + 1][..xo] == row[..xo];
          if cells[Offset(xo, yo)] == 255 {
            v := v + Pow2(xo);
          }
          xo := xo + 1;
        }
        assert row[..Width] == row;
        rows := rows + [v];
        yo := yo + 1;
      }
    }

    /** `randrange(0, modulo)`: advances the walker exactly once and returns the new
        random value modulo `modulo`, with 0 treated as 1. */
    method RandRange(modulo: nat) returns (r: nat)
      requires Valid()
      modifies this, cells
      ensures Valid()
      ensures (State(), r) == Draw(old(State()), modulo)
      ensures r < (if modulo == 0 then 1 else modulo)
    {
      Step();
      var m := modulo;
      if m == 0 { m := 1; }
      r := random % m;
    }
  }
}
