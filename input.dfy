/** Edge detection on the switch matrix (`get_button_states` with
    `left_click_down_event` / `left_click_up_event`), as rules over values. The
    scan hands over a 7 x 10 matrix of readings indexed [x][y], true for a closed
    switch; the previous scan's matrix is kept, and the game's view of each switch
    is the byte array `node_switch_state` (1 pressed, 0 released). */
module Input {
  import opened Grid

  /** A full matrix of readings, 7 columns of 10. */
  predicate IsMatrix(m: seq<seq<bool>>) {
    |m| == Width && forall x :: 0 <= x < Width ==> |m[x]| == Height
  }

  /** The all-released matrix the firmware starts from. */
  function Released(): (m: seq<seq<bool>>)
    ensures IsMatrix(m)
  {
    seq(Width, _ => seq(Height, _ => false))
  }

  /** The reading of cell i. */
  function Reading(m: seq<seq<bool>>, i: nat): bool
    requires IsMatrix(m) && i < Size
  {
    var c := Coords(i);
    m[c.0][c.1]
  }

  /** The switch-state byte for a reading. */
  function Bit(b: bool): (r: byte)
    ensures r <= 1 && (r == 1 <==> b)
  {
    if b then 1 else 0
  }

  /** A click event fires for cell i when its reading changed since the last scan
      AND differs from what the game holds for it. */
  predicate Fires(raw: seq<seq<bool>>, last: seq<seq<bool>>, sw: seq<byte>, i: nat)
    requires IsMatrix(raw) && IsMatrix(last) && |sw| == Size && i < Size
  {
    Reading(raw, i) != Reading(last, i) && Bit(Reading(raw, i)) != sw[i]
  }

  /** The switch states after a scan: a fired cell takes its reading (a down event
      stores 1, an up event 0), every other cell keeps its state. */
  function Scanned(raw: seq<seq<bool>>, last: seq<seq<bool>>, sw: seq<byte>): (r: seq<byte>)
    requires IsMatrix(raw) && IsMatrix(last) && |sw| == Size
    ensures |r| == Size
    // a cell whose reading changed ends up equal to the reading, whether or not an
    // event fired for it
    ensures forall i :: 0 <= i < Size && Reading(raw, i) != Reading(last, i)
              ==> r[i] == Bit(Reading(raw, i))
    // a cell whose reading did not change keeps its state, even when a level
    // cleared it while the switch is still held
    ensures forall i :: 0 <= i < Size && Reading(raw, i) == Reading(last, i) ==> r[i] == sw[i]
  {
    seq(Size, i requires 0 <= i < Size => if Fires(raw, last, sw, i) then Bit(Reading(raw, i)) else sw[i])
  }

  /** The last cell, in index order below n, for which an event fires. */
  function LastFired(raw: seq<seq<bool>>, last: seq<seq<bool>>, sw: seq<byte>, n: nat): (r: Option<nat>)
    requires IsMatrix(raw) && IsMatrix(last) && |sw| == Size && n <= Size
    ensures r.Some? ==> r.value < n && Fires(raw, last, sw, r.value)
    ensures r.Some? ==> forall j :: r.value < j < n ==> !Fires(raw, last, sw, j)
    ensures r.None? ==> forall j :: 0 <= j < n ==> !Fires(raw, last, sw, j)
  {
    if n == 0 then None
    else if Fires(raw, last, sw, n - 1) then Some(n - 1)
    else LastFired(raw, last, sw, n - 1)
  }

  /** Two matrices with the same reading for every cell are the same matrix. */
  lemma {:induction false} SameReadings(m1: seq<seq<bool>>, m2: seq<seq<bool>>)
    requires IsMatrix(m1) && IsMatrix(m2)
    requires forall i :: 0 <= i < Size ==> Reading(m1, i) == Reading(m2, i)
    ensures m1 == m2
  {
    forall x | 0 <= x < Width
      ensures m1[x] == m2[x]
    {
      forall y | 0 <= y < Height
        ensures m1[x][y] == m2[x][y]
      {
        CoordsOfOffset(x, y);
        assert Reading(m1, Offset(x, y)) == Reading(m2, Offset(x, y));
      }
    }
  }

  /** Scanning is idempotent: once a matrix has been scanned, scanning the same
      readings again fires nothing and changes no switch. */
  lemma {:induction false} RescanChangesNothing(raw: seq<seq<bool>>, last: seq<seq<bool>>, sw: seq<byte>)
    requires IsMatrix(raw) && IsMatrix(last) && |sw| == Size
    ensures Scanned(raw, raw, Scanned(raw, last, sw)) == Scanned(raw, last, sw)
    ensures LastFired(raw, raw, Scanned(raw, last, sw), Size).None?
  {
  }
}
