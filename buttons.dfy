/** `get_button_states` with `left_click_down_event` / `left_click_up_event`:
    the scan of one frame's switch readings into the badge state, proved against
    the rules of the Input module. */
module Buttons {
  import opened Grid
  import opened Input
  import opened Firmware

  /** The edge-detection loop over the cells in index order. Each cell whose
      reading changed updates the previous-scan matrix; when the change also
      differs from the game's view of the switch, the cell becomes the last
      button and its switch state follows the reading, with cell 0 also setting
      the HUD button. */
  method Scan(b: Badge, raw: seq<seq<bool>>)
    requires b.Shape() && IsMatrix(raw) && IsMatrix(b.buttonStatesOld)
    modifies b`buttonStatesOld, b`buttonX, b`buttonY, b`hudPressed, b.switchState
    ensures b.buttonStatesOld == raw
    ensures b.switchState[..] == Scanned(raw, old(b.buttonStatesOld), old(b.switchState[..]))
    ensures match LastFired(raw, old(b.buttonStatesOld), old(b.switchState[..]), Size)
            case Some(i) => (b.buttonX, b.buttonY) == Coords(i)
            case None => b.buttonX == old(b.buttonX) && b.buttonY == old(b.buttonY)
    ensures b.hudPressed == if Fires(raw, old(b.buttonStatesOld), old(b.switchState[..]), 0)
                            then Reading(raw, 0) else old(b.hudPressed)
  {
    ghost var last0 := b.buttonStatesOld;
    ghost var sw0 := b.switchState[..];
    ghost var x0, y0, hud0 := b.buttonX, b.buttonY, b.hudPressed;
    var i := 0;
    while i < Size
      invariant i <= Size && IsMatrix(b.buttonStatesOld)
      invariant forall j :: 0 <= j < i ==> Reading(b.buttonStatesOld, j) == Reading(raw, j)
      invariant forall j :: i <= j < Size ==> Reading(b.buttonStatesOld, j) == Reading(last0, j)
      invariant forall j :: 0 <= j < i ==> b.switchState[j] == Scanned(raw, last0, sw0)[j]
      invariant forall j :: i <= j < Size ==> b.switchState[j] == sw0[j]
      invariant match LastFired(raw, last0, sw0, i)
                case Some(k) => (b.buttonX, b.buttonY) == Coords(k)
                case None => b.buttonX == x0 && b.buttonY == y0
      invariant b.hudPressed == if i > 0 && Fires(raw, last0, sw0, 0) then Reading(raw, 0) else hud0
    {
      assert Fires(raw, b.buttonStatesOld, b.switchState[..], i) == Fires(raw, last0, sw0, i);
      ScanCell(b, raw, i);
      i := i + 1;
    }
    SameReadings(b.buttonStatesOld, raw);
  }

  /** One step of the loop: cell i. Its reading is recorded as seen; when an
      event fires for it, it becomes the last button, its switch state follows
      the reading, and cell 0 also sets the HUD button. Nothing else changes. */
  method ScanCell(b: Badge, raw: seq<seq<bool>>, i: nat)
    requires b.Shape() && IsMatrix(raw) && IsMatrix(b.buttonStatesOld) && i < Size
    modifies b`buttonStatesOld, b`buttonX, b`buttonY, b`hudPressed, b.switchState
    ensures IsMatrix(b.buttonStatesOld)
    ensures forall j :: 0 <= j < Size ==>
      Reading(b.buttonStatesOld, j) == if j == i then Reading(raw, j) else Reading(old(b.buttonStatesOld), j)
    ensures forall j :: 0 <= j < Size && j != i ==> b.switchState[j] == old(b.switchState[j])
    ensures var fired := Fires(raw, old(b.buttonStatesOld), old(b.switchState[..]), i);
      && b.switchState[i] == (if fired then Bit(Reading(raw, i)) else old(b.switchState[i]))
      && (b.buttonX, b.buttonY) == (if fired then Coords(i) else (old(b.buttonX), old(b.buttonY)))
      && b.hudPressed == if fired && i == 0 then Reading(raw, 0) else old(b.hudPressed)
  {
    var c := Coords(i);
    var x, y := c.0, c.1;
    OffsetOfCoords(i);
    if raw[x][y] != b.buttonStatesOld[x][y] {
      b.buttonStatesOld := b.buttonStatesOld[x := b.buttonStatesOld[x][y := raw[x][y]]];
      if Bit(raw[x][y]) != b.switchState[i] {
        b.buttonX, b.buttonY := x, y;
        if !raw[x][y] {
          b.switchState[Offset(x, y)] := 0;
          if Offset(x, y) == 0 {
            b.hudPressed := false;
          }
        } else {
          b.switchState[Offset(x, y)] := 1;
          if Offset(x, y) == 0 {
            b.hudPressed := true;
          }
        }
      }
    }
    forall j | 0 <= j < Size && j != i
      ensures Coords(j) != (x, y)
    {
      OffsetOfCoords(j);
    }
  }

  /** `get_button_states` on a badge in play: the scan keeps the frame-wide
      invariant (each switch state stays 0 or 1, the last button inside the
      field) and touches nothing a level's own invariant depends on. */
  method GetButtonStates(b: Badge, raw: seq<seq<bool>>)
    requires b.Ready() && IsMatrix(raw)
    modifies b`buttonStatesOld, b`buttonX, b`buttonY, b`hudPressed, b.switchState
    ensures b.Ready() && b.LevelOk() == old(b.LevelOk())
    ensures b.buttonStatesOld == raw
    ensures b.switchState[..] == Scanned(raw, old(b.buttonStatesOld), old(b.switchState[..]))
    ensures match LastFired(raw, old(b.buttonStatesOld), old(b.switchState[..]), Size)
            case Some(i) => (b.buttonX, b.buttonY) == Coords(i)
            case None => b.buttonX == old(b.buttonX) && b.buttonY == old(b.buttonY)
    ensures b.hudPressed == if Fires(raw, old(b.buttonStatesOld), old(b.switchState[..]), 0)
                            then Reading(raw, 0) else old(b.hudPressed)
  {
    Scan(b, raw);
    ScannedSwitches(raw, old(b.buttonStatesOld), old(b.switchState[..]));
  }

  /** A scan of switch states that are all 0 or 1 leaves them all 0 or 1. */
  lemma ScannedSwitches(raw: seq<seq<bool>>, last: seq<seq<bool>>, sw: seq<byte>)
    requires IsMatrix(raw) && IsMatrix(last) && |sw| == Size && Switches(sw)
    ensures Switches(Scanned(raw, last, sw))
  {
  }
}
