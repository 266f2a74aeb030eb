/** The main loop on core 0: the long press of the HUD button that switches
    between game and HUD, and one whole frame of the badge. */
module MainLoop {
  import opened Grid
  import opened Firmware
  import opened Game
  import opened Display
  import opened Hud

  // ------------------------------------------------------------- long press

  /** The long-press bookkeeping: the HUD button latch (`hud_pressed`), whether
      it was seen held (`hud_was_pressed`), the frames it has been held alone
      (`hud_counter`) and the mode (`game_mode`: 0 game, 1 HUD). */
  datatype Hold = Hold(pressed: bool, wasPressed: bool, counter: nat, mode: nat)

  /** What one frame of the long-press block does: the new bookkeeping, the
      value written to switch 0 if any, whether a press of cell 0 is faked for
      the game, and whether the rest of the frame is skipped (`continue`). */
  datatype Outcome = Outcome(next: Hold, cell0: Option<byte>, fake: bool, skip: bool)

  /** No switch other than the HUD button's cell 0 is down. */
  predicate OthersReleased(sw: seq<byte>) {
    forall i :: 1 <= i < |sw| ==> sw[i] != 1
  }

  /** One frame of the long-press block. Held alone, the HUD button counts
      frames and the frame is skipped; on the frame the count passes 255 the
      mode flips and switch 0 is cleared. Held together with another cell, or
      released before that, it is handed to the game as a press of cell 0. */
  function LongPress(h: Hold, othersReleased: bool): (o: Outcome)
    ensures o.skip <==> h.pressed && othersReleased && h.counter < 255
    ensures o.next.mode != h.mode <==> h.pressed && othersReleased && h.counter >= 255
    ensures o.fake <==> o.cell0 == Some(1)
    ensures o.fake <==> (h.pressed && !othersReleased) || (!h.pressed && h.wasPressed)
    ensures o.next.pressed ==> o.skip
  {
    if h.pressed then
      if othersReleased then
        if h.counter + 1 > 255 then
          Outcome(Hold(false, false, 0, if h.mode == 0 then 1 else 0), Some(0), false, false)
        else
          Outcome(Hold(true, true, h.counter + 1, h.mode), None, false, true)
      else
        Outcome(Hold(false, false, 0, h.mode), Some(1), true, false)
    else if h.wasPressed then
      Outcome(Hold(false, false, 0, h.mode), Some(1), true, false)
    else
      Outcome(h, None, false, false)
  }

  /** The bookkeeping after n frames with the HUD button alone held. */
  function Held(h: Hold, n: nat): Hold
    decreases n
  {
    if n == 0 then h else Held(LongPress(h, true).next, n - 1)
  }

  /** While the count stays within 255, every frame held alone adds one. */
  lemma {:induction false} HeldCounts(h: Hold, n: nat)
    requires h.pressed && h.counter + n <= 255
    ensures Held(h, n) == if n == 0 then h else Hold(true, true, h.counter + n, h.mode)
    decreases n
  {
    if n > 0 {
      HeldCounts(LongPress(h, true).next, n - 1);
    }
  }

  /** The frame that takes the count past 255 flips the mode and resets the
      bookkeeping. */
  lemma {:induction false} HeldFlips(h: Hold, n: nat)
    requires h.pressed && h.counter + n == 255
    ensures Held(h, n + 1) == Hold(false, false, 0, if h.mode == 0 then 1 else 0)
    decreases n
  {
    if n > 0 {
      HeldFlips(LongPress(h, true).next, n - 1);
    }
  }

  /** A fresh press of the HUD button held alone for 256 frames switches
      between game and HUD; 255 frames leave the mode as it was. */
  lemma LongPressSwitches(mode: nat)
    requires mode <= 1
    ensures Held(Hold(true, false, 0, mode), 255).mode == mode
    ensures Held(Hold(true, false, 0, mode), 256) == Hold(false, false, 0, 1 - mode)
  {
    HeldCounts(Hold(true, false, 0, mode), 255);
    HeldFlips(Hold(true, false, 0, mode), 255);
  }

  /** The scan for any switch other than cell 0 that is down. */
  method NoOtherPress(b: Badge) returns (released: bool)
    requires b.switchState.Length == Size
    ensures released == OthersReleased(b.switchState[..])
  {
    released := true;
    var i := 1;
    while i < Size
      invariant 1 <= i <= Size
      invariant released == forall j :: 1 <= j < i ==> b.switchState[j] != 1
    {
      if b.switchState[i] == 1 {
        released := false;
      }
      i := i + 1;
    }
  }

  /** The long-press block of the main loop, with `hud_init` on entering the
      HUD. */
  method HudButton(b: Badge) returns (skip: bool)
    requires b.switchState.Length == Size && b.ant.Valid() && b.switchState != b.ant.cells
    modifies b.switchState, b`hudPressed, b`hudWasPressed, b`hudCounter, b`gameMode, b`fakePress
    modifies b`hudCode, b.ant, b.ant.cells
    ensures var o := LongPress(Hold(old(b.hudPressed), old(b.hudWasPressed), old(b.hudCounter), old(b.gameMode)),
                               OthersReleased(old(b.switchState[..])));
      && Hold(b.hudPressed, b.hudWasPressed, b.hudCounter, b.gameMode) == o.next
      && b.switchState[..] == (match o.cell0 case Some(v) => old(b.switchState[..])[0 := v]
                                             case None => old(b.switchState[..]))
      && b.fakePress == (old(b.fakePress) || o.fake)
      && skip == o.skip
    ensures b.ant.Valid()
    ensures old(b.gameMode) == 0 && b.gameMode == 1 ==> b.hudCode < 32
    ensures old(b.gameMode) <= 1 ==> b.gameMode <= 1
    ensures Switches(old(b.switchState[..])) ==> Switches(b.switchState[..])
  {
    var released := NoOtherPress(b);
    skip := false;
    if b.hudPressed {
      skip := HudHeld(b, released);
    } else if b.hudWasPressed {
      b.hudWasPressed, b.hudCounter := false, 0;
      b.switchState[0] := 1;
      b.fakePress := true;
    }
  }

  /** The branch of the long-press block for a HUD button that is down. */
  method HudHeld(b: Badge, released: bool) returns (skip: bool)
    requires b.switchState.Length == Size && b.ant.Valid() && b.switchState != b.ant.cells && b.hudPressed
    modifies b.switchState, b`hudPressed, b`hudWasPressed, b`hudCounter, b`gameMode, b`fakePress
    modifies b`hudCode, b.ant, b.ant.cells
    ensures var o := LongPress(Hold(true, old(b.hudWasPressed), old(b.hudCounter), old(b.gameMode)), released);
      && Hold(b.hudPressed, b.hudWasPressed, b.hudCounter, b.gameMode) == o.next
      && b.switchState[..] == (match o.cell0 case Some(v) => old(b.switchState[..])[0 := v]
                                             case None => old(b.switchState[..]))
      && b.fakePress == (old(b.fakePress) || o.fake)
      && skip == o.skip
    ensures b.ant.Valid()
    ensures old(b.gameMode) == 0 && b.gameMode == 1 ==> b.hudCode < 32
    ensures old(b.gameMode) <= 1 ==> b.gameMode <= 1
    ensures Switches(old(b.switchState[..])) ==> Switches(b.switchState[..])
  {
    skip := false;
    b.hudWasPressed := true;
    if released {
      b.hudCounter := b.hudCounter + 1;
      if b.hudCounter > 255 {
        b.switchState[0] := 0;
        b.hudCounter, b.hudWasPressed, b.hudPressed := 0, false, false;
        if b.gameMode == 0 {
          b.gameMode := 1;
          HudInit(b);
        } else {
          b.gameMode := 0;
        }
      } else {
        skip := true;
      }
    } else {
      b.hudCounter, b.hudWasPressed, b.hudPressed := 0, false, false;
      b.switchState[0] := 1;
      b.fakePress := true;
    }
  }

  // ------------------------------------------------------------------ frame

  /** The head of every frame on a badge in play: `step_level_minus_3` advances
      the random source, then the long-press block runs. Neither touches what
      a level's own invariant reads. */
  method Prelude(b: Badge) returns (skip: bool)
    requires b.Ready()
    modifies b.switchState, b`hudPressed, b`hudWasPressed, b`hudCounter, b`gameMode, b`fakePress
    modifies b`hudCode, b.ant, b.ant.cells
    ensures b.Ready() && b.LevelOk() == old(b.LevelOk())
  {
    Tick(b);
    skip := ButtonInPlay(b);
  }

  /** `step_level_minus_3` on a badge in play. */
  method Tick(b: Badge)
    requires b.Ready()
    modifies b.ant, b.ant.cells
    ensures b.Ready() && b.LevelOk() == old(b.LevelOk())
  {
    b.ant.Step();
  }

  /** The long-press block on a badge in play. */
  method ButtonInPlay(b: Badge) returns (skip: bool)
    requires b.Ready()
    modifies b.switchState, b`hudPressed, b`hudWasPressed, b`hudCounter, b`gameMode, b`fakePress
    modifies b`hudCode, b.ant, b.ant.cells
    ensures b.Ready() && b.LevelOk() == old(b.LevelOk())
  {
    skip := HudButton(b);
  }

  /** The end of a game frame with a faked press of cell 0: the press is
      withdrawn again. */
  method WithdrawFake(b: Badge)
    requires b.Ready()
    modifies b.switchState, b`fakePress
    ensures b.Ready() && b.LevelOk() == old(b.LevelOk())
    ensures !b.fakePress && b.switchState[..] == old(b.switchState[..])[0 := 0]
  {
    b.fakePress := false;
    b.switchState[0] := 0;
  }

  /** A game frame: `step`, `draw`, and the withdrawal of a faked press. */
  method GameFrame(b: Badge)
    requires b.Valid()
    modifies b.value, b.lock, b.deform, b.counter, b.velocity, b.switchState, b.ant, b.ant.cells
    modifies b`buttonX, b`buttonY, b`gameTimeout, b`gameLevel
    modifies b`subLevel1, b`columnLevel1, b`firstNodeLevel1, b`leftLevel1, b`rightLevel1
    modifies b`nodeLevel2, b`node1Level3, b`node2Level3, b`node3Level3, b`node4Level3, b`startedLevel5
    modifies b`fakePress, b.overscan, b.rendered
    ensures b.Valid() && !b.fakePress
    ensures b.gameTimed == old(b.gameTimed)
    ensures 1 <= old(b.gameLevel) <= 13 && b.gameTimed && old(b.gameTimeout) + 1 >= Patience ==>
              b.gameLevel == old(b.gameLevel) - 1
    ensures b.gameLevel < old(b.gameLevel) ==>
              1 <= old(b.gameLevel) <= 13 && b.gameTimed && old(b.gameTimeout) + 1 >= Patience
    ensures b.gameLevel == old(b.gameLevel) || b.gameLevel == old(b.gameLevel) - 1
            || (b.gameLevel == old(b.gameLevel) + 1 && old(b.gameLevel) <= 13)
    ensures b.gameLevel != old(b.gameLevel) ==> b.gameTimeout == 0
    ensures old(b.gameLevel) == -3 || old(b.gameLevel) == 14 ==> b.gameLevel == old(b.gameLevel)
  {
    Step(b);
    Show(b);
  }

  /** `draw`, then the withdrawal of a faked press of cell 0. */
  method Show(b: Badge)
    requires b.Valid()
    modifies b.switchState, b`fakePress, b.overscan, b.rendered
    ensures b.Valid() == old(b.Valid()) && !b.fakePress
  {
    Draw(b);
    if b.fakePress {
      WithdrawFake(b);
    }
  }

  /** A HUD frame: `hud_step` then `hud_draw`. */
  method HudFrame(b: Badge)
    requires b.Valid()
    modifies b.value, b.lock, b.deform, b.counter, b.velocity, b.switchState, b.ant, b.ant.cells
    modifies b`buttonX, b`buttonY, b`gameTimeout, b`gameLevel
    modifies b`subLevel1, b`columnLevel1, b`leftLevel1, b`rightLevel1
    modifies b`nodeLevel2, b`node1Level3, b`node2Level3, b`node3Level3, b`node4Level3, b`startedLevel5
    modifies b`currentLevel, b`currentChange, b`unlocked, b`gameTimed, b.vendorCodeEntry, b.vendorCodePass
    modifies b.overscan
    ensures b.Valid()
    ensures b.overscan[..] ==
      HudRaster(b.unlocked, b.gameLevel, b.gameTimed, b.vendorCodeEntry[..], Passed(b.vendorCodePass[..]))
  {
    HudStep(b);
    HudDraw(b);
  }

  /** One pass of the main loop: the head of the frame, then, unless the frame
      is skipped, a game frame or a HUD frame as the mode says. The badge
      invariant holds from frame to frame. */
  method Frame(b: Badge)
    requires b.Valid()
    modifies b.value, b.lock, b.deform, b.counter, b.velocity, b.switchState, b.ant, b.ant.cells
    modifies b`buttonX, b`buttonY, b`gameTimeout, b`gameLevel
    modifies b`subLevel1, b`columnLevel1, b`firstNodeLevel1, b`leftLevel1, b`rightLevel1
    modifies b`nodeLevel2, b`node1Level3, b`node2Level3, b`node3Level3, b`node4Level3, b`startedLevel5
    modifies b`hudPressed, b`hudWasPressed, b`hudCounter, b`gameMode, b`fakePress, b`hudCode
    modifies b`currentLevel, b`currentChange, b`unlocked, b`gameTimed, b.vendorCodeEntry, b.vendorCodePass
    modifies b.overscan, b.rendered
    ensures b.Valid()
  {
    var skip := Prelude(b);
    if skip {
      return;
    }
    if b.gameMode == 0 {
      GameFrame(b);
    } else {
      HudFrame(b);
    }
  }
}
