/** The render path from game values to LED driver bytes: gamma correction through
    `gama_64` into the 70-byte `overscan` raster (`overscan_fill`, `overscan_set_at`;
    `raster_fill`, `raster_set_at` on the demo badge), and the reordering of that
    raster into the two driver buffers `buffer_60` / `buffer_63` through `chip_60`
    and `chip_63`. */
module Render {
  import opened Grid

  /** `gama_64`: 64 perceptual brightness steps (16 to a line). */
  const Gamma64: seq<byte> :=
    [0, 1, 2, 3, 4, 5, 6, 7, 8, 10, 12, 14, 16, 18, 20, 22] +
    [24, 26, 29, 32, 35, 38, 41, 44, 47, 50, 53, 57, 61, 65, 69, 73] +
    [77, 81, 85, 89, 94, 99, 104, 109, 114, 119, 124, 129, 134, 140, 146, 152] +
    [158, 164, 170, 176, 182, 188, 195, 202, 209, 216, 223, 230, 237, 244, 251, 255]

  /** `gama_16`: 16 brightness steps, indexed by the level-4 counters. */
  const Gamma16: seq<byte> :=
    [0, 2, 6, 13, 22, 33, 46, 61, 78, 96, 116, 138, 161, 186, 212, 240]

  /** The driver byte for a game value: `gama_64[int(value / 4)]`. A byte divided by
      4 is at most 63, so the lookup never leaves the table. */
  function Gamma(v: byte): (g: byte)
    ensures v == 0 ==> g == 0
    ensures v == 255 ==> g == 255
  {
    Gamma64[v / 4]
  }

  /** Every step of the table is at least as bright as the one before. */
  lemma Gamma64Steps(k: nat)
    requires k < 63
    ensures Gamma64[k] <= Gamma64[k + 1]
  {
  }

  lemma {:induction false} Gamma64Sorted(i: nat, j: nat)
    requires i <= j < 64
    ensures Gamma64[i] <= Gamma64[j]
    decreases j - i
  {
    if i < j {
      Gamma64Steps(i);
      Gamma64Sorted(i + 1, j);
    }
  }

  /** Gamma correction keeps the order of brightness: a larger game value never
      drives an LED dimmer. */
  lemma GammaMonotone(v: byte, w: byte)
    requires v <= w
    ensures Gamma(v) <= Gamma(w)
  {
    Gamma64Sorted((v / 4) as nat, (w / 4) as nat);
  }

  /** `chip_60`: the raster cells sent to the driver at I2C address 60, in slot order
      (one grid column to a line). */
  const Chip60: seq<nat> :=
    [66, 59, 52, 45, 38] +
    [65, 58, 51, 44, 37, 30, 23, 16, 9, 2] +
    [64, 57, 50, 43, 36, 29, 22, 15, 8, 1] +
    [63, 56, 49, 42, 35, 28, 21, 14, 7, 0]

  /** `chip_63`: the raster cells sent to the driver at I2C address 63, in slot order
      (one grid column to a line). */
  const Chip63: seq<nat> :=
    [6, 13, 20, 27, 34, 41, 48, 55, 62, 69] +
    [5, 12, 19, 26, 33, 40, 47, 54, 61, 68] +
    [4, 11, 18, 25, 32, 39, 46, 53, 60, 67] +
    [3, 10, 17, 24, 31]

  /** The wiring the two tables encode, slot by slot. Slot s < 35 is slot s of
      chip 60 and slot 35 + s is slot s of chip 63. Chip 60 carries column 3 from
      row 9 up to row 5, then columns 2, 1 and 0, each from row 9 up to row 0; chip 63
      carries columns 6, 5 and 4, each from row 0 down to row 9, then column 3 from
      row 0 down to row 4. */
  function CellOfSlot(s: nat): (c: nat)
    requires s < Size
    ensures c < Size
  {
    if s < 5 then Offset(3, 9 - s)
    else if s < 15 then Offset(2, 14 - s)
    else if s < 25 then Offset(1, 24 - s)
    else if s < 35 then Offset(0, 34 - s)
    else if s < 45 then Offset(6, s - 35)
    else if s < 55 then Offset(5, s - 45)
    else if s < 65 then Offset(4, s - 55)
    else Offset(3, s - 65)
  }

  /** The slot that carries cell c: the inverse of CellOfSlot. */
  function SlotOfCell(c: nat): (s: nat)
    requires c < Size
    ensures s < Size
  {
    var (x, y) := Coords(c);
    if x == 3 then (if y >= 5 then 9 - y else 65 + y)
    else if x < 3 then 5 + (2 - x) * 10 + (9 - y)
    else 35 + (6 - x) * 10 + y
  }

  /** The tables are the wiring: slot s of each chip holds CellOfSlot. */
  lemma Chip60Wiring(s: nat)
    requires s < 35
    ensures Chip60[s] == CellOfSlot(s)
  {
    if s < 5 {
    } else if s < 15 {
    } else if s < 25 {
    } else {
    }
  }

  lemma Chip63Wiring(s: nat)
    requires s < 35
    ensures Chip63[s] == CellOfSlot(35 + s)
  {
    if s < 10 {
    } else if s < 20 {
    } else if s < 30 {
    } else {
    }
  }

  /** Every slot carries a different cell: SlotOfCell recovers the slot. */
  lemma SlotRoundTrip(s: nat)
    requires s < Size
    ensures SlotOfCell(CellOfSlot(s)) == s
  {
    var c := CellOfSlot(s);
    CoordsOfOffset(ColumnOf(c), RowOf(c));
    OffsetOfCoords(c);
  }

  /** Every cell has a slot: CellOfSlot recovers the cell. Together with
      SlotRoundTrip, the two chip tables list each of the 70 cells exactly once. */
  lemma CellRoundTrip(c: nat)
    requires c < Size
    ensures CellOfSlot(SlotOfCell(c)) == c
  {
    OffsetOfCoords(c);
  }

  /** The bytes one driver receives: slot s carries raster cell chip[s] (a slot
      naming no cell would carry 0; the tables name none such, see ChipsInRange). */
  function Gather(raster: seq<byte>, chip: seq<nat>): (buffer: seq<byte>)
    ensures |buffer| == |chip|
    ensures forall s :: 0 <= s < |chip| && chip[s] < |raster| ==> buffer[s] == raster[chip[s]]
  {
    seq(|chip|, s requires 0 <= s < |chip| => if chip[s] < |raster| then raster[chip[s]] else 0)
  }

  lemma ChipsInRange()
    ensures |Chip60| == 35 && |Chip63| == 35
    ensures forall s :: 0 <= s < 35 ==> Chip60[s] < Size && Chip63[s] < Size
  {
    forall s | 0 <= s < 35
      ensures Chip60[s] < Size && Chip63[s] < Size
    {
      Chip60Wiring(s);
      Chip63Wiring(s);
    }
  }

  /** Reads raster cell c back out of the two driver buffers. */
  function Ungather(buffer60: seq<byte>, buffer63: seq<byte>, c: nat): byte
    requires |buffer60| == 35 && |buffer63| == 35 && c < Size
  {
    var s := SlotOfCell(c);
    if s < 35 then buffer60[s] else buffer63[s - 35]
  }

  /** Nothing is lost in the reorder: every raster cell can be read back from the
      buffers `render` sends. */
  lemma GatherLosesNothing(raster: seq<byte>, c: nat)
    requires |raster| == Size && c < Size
    ensures Ungather(Gather(raster, Chip60), Gather(raster, Chip63), c) == raster[c]
  {
    ChipsInRange();
    var s := SlotOfCell(c);
    CellRoundTrip(c);
    if s < 35 {
      Chip60Wiring(s);
    } else {
      Chip63Wiring(s - 35);
    }
  }

  /** The reorder loop of `render` (the I2C transfers that follow it are not part of
      this model). */
  method Reorder(raster: array<byte>, buffer60: array<byte>, buffer63: array<byte>)
    requires raster.Length == Size && buffer60.Length == 35 && buffer63.Length == 35
    requires buffer60 != buffer63
    modifies buffer60, buffer63
    ensures buffer60[..] == Gather(raster[..], Chip60)
    ensures buffer63[..] == Gather(raster[..], Chip63)
  {
    ChipsInRange();
    var i := 0;
    while i < 35
      invariant i <= 35
      invariant forall s :: 0 <= s < i ==> buffer60[s] == raster[Chip60[s]]
      invariant forall s :: 0 <= s < i ==> buffer63[s] == raster[Chip63[s]]
    {
      buffer60[i] := raster[Chip60[i]];
      buffer63[i] := raster[Chip63[i]];
      i := i + 1;
    }
  }
}
