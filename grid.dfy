/** Grid addressing for the 7 x 10 field of button/LED cells, and the byte type
    of the firmware's bytearrays. */
module Grid {

  /** A value a MicroPython bytearray can hold; storing anything else raises an error. */
  newtype byte = x: int | 0 <= x < 256

  /** A value that may be absent, such as a cell no event has picked. */
  datatype Option<T> = None | Some(value: T)

  const Width: nat := 7
  const Height: nat := 10
  /** Number of cells, `array_size` in the firmware. */
  const Size: nat := Width * Height

  /** A cell position inside the field. */
  predicate InField(x: int, y: int) {
    0 <= x < Width && 0 <= y < Height
  }

  /** `get_node_offset`: row-major linear index of (x, y). The arithmetic is defined
      for any x and y; only positions inside the field land on a cell. */
  function Offset(x: int, y: int): (i: int)
    ensures InField(x, y) ==> 0 <= i < Size
  {
    y * Width + x
  }

  /** `get_node_coords`: the column and row of index i (floor division, as `int(i / 7)`
      does for a non-negative index). Indices at or beyond Size give rows >= Height. */
  function Coords(i: nat): (c: (nat, nat))
    ensures c.0 < Width && i == c.1 * Width + c.0
    ensures i < Size <==> c.1 < Height
  {
    var y := i / Width;
    (i - y * Width, y)
  }

  /** Python's `min` and `max` on two integers, as the levels use them to clamp. */
  function Min(a: int, b: int): int { if a <= b then a else b }
  function Max(a: int, b: int): int { if a >= b then a else b }

  /** Column of a cell index. */
  function ColumnOf(i: nat): nat { Coords(i).0 }

  /** Row of a cell index. */
  function RowOf(i: nat): nat { Coords(i).1 }

  /** Coordinates of an offset inside the field give back the position. */
  lemma CoordsOfOffset(x: int, y: int)
    requires InField(x, y)
    ensures Coords(Offset(x, y)) == (x, y)
  {
  }

  /** The offset of a cell's coordinates is the cell. */
  lemma OffsetOfCoords(i: nat)
    requires i < Size
    ensures InField(Coords(i).0, Coords(i).1)
    ensures Offset(Coords(i).0, Coords(i).1) == i
  {
  }

  /** Two positions in the field share an offset only if they are equal. */
  lemma OffsetInjective(x1: int, y1: int, x2: int, y2: int)
    requires InField(x1, y1) && InField(x2, y2)
    requires Offset(x1, y1) == Offset(x2, y2)
    ensures x1 == x2 && y1 == y2
  {
    CoordsOfOffset(x1, y1);
    CoordsOfOffset(x2, y2);
  }

  /** The switch states with the presses among the first n cells released. */
  function ReleasedBelow(sw: seq<byte>, n: nat): (r: seq<byte>)
    requires |sw| == Size
    ensures |r| == Size
  {
    seq(Size, j requires 0 <= j < Size => if j < n && sw[j] == 1 then 0 else sw[j])
  }

  /** Some cell below n is pressed. */
  predicate PressedBelow(sw: seq<byte>, n: nat)
    requires n <= |sw|
  {
    n > 0 && (sw[n - 1] == 1 || PressedBelow(sw, n - 1))
  }

  /** `PressedBelow` is the search for a pressed cell below n. */
  lemma {:induction false} PressedBelowMeans(sw: seq<byte>, n: nat)
    requires n <= |sw|
    ensures PressedBelow(sw, n) <==> exists i :: 0 <= i < n && sw[i] == 1
  {
    if n > 0 {
      PressedBelowMeans(sw, n - 1);
    }
  }

  /** Releasing one more cell changes at most that cell. */
  lemma ReleasedBelowStep(sw: seq<byte>, n: nat)
    requires |sw| == Size && n < Size
    ensures ReleasedBelow(sw, n)[n] == sw[n]
    ensures ReleasedBelow(sw, n + 1) == if sw[n] == 1 then ReleasedBelow(sw, n)[n := 0] else ReleasedBelow(sw, n)
  {
  }
}
