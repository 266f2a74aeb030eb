/** One game step outside the HUD: the `step` dispatcher with
    `game_timeout_check`, over the badge state of the Firmware module. What a
    frame then draws is the Display module's. */
module Game {
  import opened Grid
  import opened Render
  import opened Firmware
  import OpeningLevels
  import MiddleLevels
  import FinalLevels
  import Entropy

  /** The number of idle frames after which a level falls back to the one before. */
  const Patience: nat := 1000

  // ----------------------------------------------------------------- step

  /** `game_timeout_check`: in timed play each call counts one idle frame and
      reports whether the level has waited its full patience; untimed play
      counts nothing and never times out. */
  method GameTimeoutCheck(b: Badge) returns (expired: bool)
    modifies b`gameTimeout
    ensures b.gameTimeout == if b.gameTimed then old(b.gameTimeout) + 1 else old(b.gameTimeout)
    ensures expired <==> b.gameTimed && b.gameTimeout >= Patience
  {
    expired := false;
    if b.gameTimed {
      b.gameTimeout := b.gameTimeout + 1;
      expired := b.gameTimeout >= Patience;
    }
  }

  /** What a level body may leave behind: the frame-wide part of the invariant
      still holds, the level is unchanged, and a level that did not finish
      keeps its own invariant. */
  ghost predicate Played(b: Badge, level: int, finished: bool)
    reads b, b.value, b.lock, b.deform, b.counter, b.velocity, b.switchState, b.ant, b.ant.cells
  {
    && b.Ready() && b.gameLevel == level
    && (!finished ==> b.LevelOkAt(level))
    && (finished ==> level < 14)
  }

  /** Level 0. */
  method Play0(b: Badge) returns (finished: bool)
    requires b.Valid() && b.gameLevel == 0
    modifies b.value, b.lock, b.deform, b.velocity, b.ant, b.ant.cells
    ensures Played(b, 0, finished)
  {
    finished := OpeningLevels.Level0(b);
  }

  /** Level 1. */
  method Play1(b: Badge) returns (finished: bool)
    requires b.Valid() && b.gameLevel == 1
    modifies b.value, b`subLevel1, b`columnLevel1, b`firstNodeLevel1, b`leftLevel1, b`rightLevel1, b`gameTimeout
    ensures Played(b, 1, finished)
  {
    finished := OpeningLevels.Level1(b);
  }

  /** Level 2. */
  method Play2(b: Badge) returns (finished: bool)
    requires b.Valid() && b.gameLevel == 2
    modifies b.value, b.velocity, b`nodeLevel2, b`gameTimeout, b.ant, b.ant.cells
    ensures Played(b, 2, finished)
  {
    finished := OpeningLevels.Level2(b);
  }

  /** Level 3. */
  method Play3(b: Badge) returns (finished: bool)
    requires b.Valid() && b.gameLevel == 3
    modifies b.value, b`node1Level3, b`node2Level3, b`node3Level3, b`node4Level3, b`gameTimeout
    ensures Played(b, 3, finished)
  {
    finished := OpeningLevels.Level3(b);
  }

  /** Level 4. */
  method Play4(b: Badge) returns (finished: bool)
    requires b.Valid() && b.gameLevel == 4
    modifies b.value, b.lock, b.velocity, b.counter, b.switchState, b`gameTimeout
    ensures Played(b, 4, finished)
  {
    finished := OpeningLevels.Level4(b);
  }

  /** Level 5. */
  method Play5(b: Badge) returns (finished: bool)
    requires b.Valid() && b.gameLevel == 5
    modifies b.deform, b.counter, b`startedLevel5, b`gameTimeout, b.ant, b.ant.cells
    ensures Played(b, 5, finished)
  {
    finished := MiddleLevels.Level5(b);
  }

  /** Level 6. */
  method Play6(b: Badge) returns (finished: bool)
    requires b.Valid() && b.gameLevel == 6
    modifies b.value, b`gameTimeout, b.ant, b.ant.cells
    ensures Played(b, 6, finished)
  {
    finished := MiddleLevels.Level6(b);
  }

  /** Level 7. */
  method Play7(b: Badge) returns (finished: bool)
    requires b.Valid() && b.gameLevel == 7
    modifies b.value, b.counter, b.switchState, b`gameTimeout
    ensures Played(b, 7, finished)
  {
    finished := MiddleLevels.Level7(b);
  }

  /** Level 8. */
  method Play8(b: Badge) returns (finished: bool)
    requires b.Valid() && b.gameLevel == 8
    modifies b.value, b.counter, b.switchState, b`gameTimeout, b.ant, b.ant.cells
    ensures Played(b, 8, finished)
  {
    finished := MiddleLevels.Level8(b);
  }

  /** Level 9. */
  method Play9(b: Badge) returns (finished: bool)
    requires b.Valid() && b.gameLevel == 9
    modifies b.value, b.deform, b.counter, b.switchState, b`gameTimeout, b.ant, b.ant.cells
    ensures Played(b, 9, finished)
  {
    finished := MiddleLevels.Level9(b);
  }

  /** Level 10. */
  method Play10(b: Badge) returns (finished: bool)
    requires b.Valid() && b.gameLevel == 10
    modifies b.value, b.switchState, b`gameTimeout
    ensures Played(b, 10, finished)
  {
    finished := FinalLevels.Level10(b);
  }

  /** Level 11. */
  method Play11(b: Badge) returns (finished: bool)
    requires b.Valid() && b.gameLevel == 11
    modifies b.value, b.lock, b.deform, b.counter, b.velocity, b.switchState, b`gameTimeout, b.ant, b.ant.cells
    ensures Played(b, 11, finished)
  {
    finished := FinalLevels.Level11(b);
  }

  /** Level 12. */
  method Play12(b: Badge) returns (finished: bool)
    requires b.Valid() && b.gameLevel == 12
    modifies b.value, b.deform, b.velocity, b.switchState, b`gameTimeout
    ensures Played(b, 12, finished)
  {
    finished := FinalLevels.Level12(b);
  }

  /** Level 13. */
  method Play13(b: Badge) returns (finished: bool)
    requires b.Valid() && b.gameLevel == 13
    modifies b.value, b.velocity, b.switchState, b`gameTimeout
    ensures Played(b, 13, finished)
  {
    finished := FinalLevels.Level13(b);
  }

  /** Level 14, which never finishes. */
  method Play14(b: Badge) returns (finished: bool)
    requires b.Valid() && b.gameLevel == 14
    modifies b.value, b.switchState
    ensures Played(b, 14, finished)
  {
    finished := false;
    FinalLevels.Level14(b);
  }

  /** The body of the current level, one of 0 to 14. */
  method Play(b: Badge) returns (finished: bool)
    requires b.Valid() && 0 <= b.gameLevel <= 14
    modifies b.value, b.lock, b.deform, b.counter, b.velocity, b.switchState, b.ant, b.ant.cells
    modifies b`subLevel1, b`columnLevel1, b`firstNodeLevel1, b`leftLevel1, b`rightLevel1
    modifies b`nodeLevel2, b`node1Level3, b`node2Level3, b`node3Level3, b`node4Level3
    modifies b`startedLevel5, b`gameTimeout
    ensures Played(b, old(b.gameLevel), finished)
  {
    var level := b.gameLevel;
    if level == 0 {
      finished := Play0(b);
    } else if level == 1 {
      finished := Play1(b);
    } else if level == 2 {
      finished := Play2(b);
    } else if level == 3 {
      finished := Play3(b);
    } else if level == 4 {
      finished := Play4(b);
    } else if level == 5 {
      finished := Play5(b);
    } else if level == 6 {
      finished := Play6(b);
    } else if level == 7 {
      finished := Play7(b);
    } else if level == 8 {
      finished := Play8(b);
    } else if level == 9 {
      finished := Play9(b);
    } else if level == 10 {
      finished := Play10(b);
    } else if level == 11 {
      finished := Play11(b);
    } else if level == 12 {
      finished := Play12(b);
    } else if level == 13 {
      finished := Play13(b);
    } else {
      finished := Play14(b);
    }
  }

  /** The attract screen's step: the random source advances and nothing else changes. */
  method StepAttract(b: Badge)
    requires b.Valid() && b.gameLevel == -3
    modifies b.ant, b.ant.cells
    ensures b.Valid() && b.gameLevel == -3
    ensures b.ant.State() == Entropy.Next(old(b.ant.State()))
  {
    b.ant.Step();
  }

  /** The level body, and the next level's `level_init` when it finishes. */
  method PlayOn(b: Badge)
    requires b.Valid() && 0 <= b.gameLevel <= 14
    modifies b.value, b.lock, b.deform, b.counter, b.velocity, b.switchState, b.ant, b.ant.cells
    modifies b`buttonX, b`buttonY, b`gameTimeout, b`gameLevel
    modifies b`subLevel1, b`columnLevel1, b`firstNodeLevel1, b`leftLevel1, b`rightLevel1
    modifies b`nodeLevel2, b`node1Level3, b`node2Level3, b`node3Level3, b`node4Level3, b`startedLevel5
    ensures b.Valid()
    ensures b.gameLevel == old(b.gameLevel) || (b.gameLevel == old(b.gameLevel) + 1 && old(b.gameLevel) <= 13)
    ensures b.gameLevel != old(b.gameLevel) ==> b.Entered(b.gameLevel)
  {
    var level := b.gameLevel;
    var finished := Play(b);
    if finished {
      b.LevelInit(level + 1);
    }
  }

  /** A timed-out level gives way to the one before it. */
  method FallBack(b: Badge)
    requires b.Valid() && 1 <= b.gameLevel <= 13
    modifies b.value, b.lock, b.deform, b.counter, b.velocity, b.switchState, b.ant, b.ant.cells
    modifies b`buttonX, b`buttonY, b`gameTimeout, b`gameLevel
    modifies b`subLevel1, b`columnLevel1, b`leftLevel1, b`rightLevel1
    modifies b`nodeLevel2, b`node1Level3, b`node2Level3, b`node3Level3, b`node4Level3, b`startedLevel5
    ensures b.Valid()
    ensures b.gameLevel == old(b.gameLevel) - 1 && b.Entered(b.gameLevel)
  {
    b.LevelInit(b.gameLevel - 1);
  }

  /** The rest of `step` on a timed level once its timeout has been counted:
      back to the level before when patience is exhausted, else play on. */
  method Resolve(b: Badge, expired: bool)
    requires b.Valid() && 1 <= b.gameLevel <= 13
    modifies b.value, b.lock, b.deform, b.counter, b.velocity, b.switchState, b.ant, b.ant.cells
    modifies b`buttonX, b`buttonY, b`gameTimeout, b`gameLevel
    modifies b`subLevel1, b`columnLevel1, b`firstNodeLevel1, b`leftLevel1, b`rightLevel1
    modifies b`nodeLevel2, b`node1Level3, b`node2Level3, b`node3Level3, b`node4Level3, b`startedLevel5
    ensures b.Valid()
    ensures expired ==> b.gameLevel == old(b.gameLevel) - 1
    ensures !expired ==> b.gameLevel == old(b.gameLevel) || b.gameLevel == old(b.gameLevel) + 1
    ensures b.gameLevel != old(b.gameLevel) ==> b.Entered(b.gameLevel)
  {
    if expired {
      FallBack(b);
    } else {
      PlayOn(b);
    }
  }

  /** `step` on levels 1 to 13, which can time out. */
  method StepTimed(b: Badge)
    requires b.Valid() && 1 <= b.gameLevel <= 13
    modifies b.value, b.lock, b.deform, b.counter, b.velocity, b.switchState, b.ant, b.ant.cells
    modifies b`buttonX, b`buttonY, b`gameTimeout, b`gameLevel
    modifies b`subLevel1, b`columnLevel1, b`firstNodeLevel1, b`leftLevel1, b`rightLevel1
    modifies b`nodeLevel2, b`node1Level3, b`node2Level3, b`node3Level3, b`node4Level3, b`startedLevel5
    ensures b.Valid()
    ensures b.gameTimed == old(b.gameTimed)
    // a level times out exactly when it is timed and this frame exhausts its patience
    ensures 1 <= old(b.gameLevel) <= 13 && b.gameTimed && old(b.gameTimeout) + 1 >= Patience ==>
              b.gameLevel == old(b.gameLevel) - 1
    ensures b.gameLevel < old(b.gameLevel) ==>
              1 <= old(b.gameLevel) <= 13 && b.gameTimed && old(b.gameTimeout) + 1 >= Patience
    // otherwise the level stays, or is finished and the next one is entered
    ensures b.gameLevel == old(b.gameLevel) || b.gameLevel == old(b.gameLevel) - 1
            || (b.gameLevel == old(b.gameLevel) + 1 && old(b.gameLevel) <= 13)
    // a level that is left is left for a freshly entered one
    ensures b.gameLevel != old(b.gameLevel) ==> b.Entered(b.gameLevel)
  {
    var expired := GameTimeoutCheck(b);
    Resolve(b, expired);
  }

  /** `step` on levels 0 to 14. */
  method Advance(b: Badge)
    requires b.Valid() && 0 <= b.gameLevel <= 14
    modifies b.value, b.lock, b.deform, b.counter, b.velocity, b.switchState, b.ant, b.ant.cells
    modifies b`buttonX, b`buttonY, b`gameTimeout, b`gameLevel
    modifies b`subLevel1, b`columnLevel1, b`firstNodeLevel1, b`leftLevel1, b`rightLevel1
    modifies b`nodeLevel2, b`node1Level3, b`node2Level3, b`node3Level3, b`node4Level3, b`startedLevel5
    ensures b.Valid()
    ensures b.gameTimed == old(b.gameTimed)
    // a level times out exactly when it is timed and this frame exhausts its patience
    ensures 1 <= old(b.gameLevel) <= 13 && b.gameTimed && old(b.gameTimeout) + 1 >= Patience ==>
              b.gameLevel == old(b.gameLevel) - 1
    ensures b.gameLevel < old(b.gameLevel) ==>
              1 <= old(b.gameLevel) <= 13 && b.gameTimed && old(b.gameTimeout) + 1 >= Patience
    // otherwise the level stays, or is finished and the next one is entered
    ensures b.gameLevel == old(b.gameLevel) || b.gameLevel == old(b.gameLevel) - 1
            || (b.gameLevel == old(b.gameLevel) + 1 && old(b.gameLevel) <= 13)
    // a level that is left is left for a freshly entered one
    ensures b.gameLevel != old(b.gameLevel) ==> b.Entered(b.gameLevel)
  {
    if 1 <= b.gameLevel <= 13 {
      StepTimed(b);
    } else {
      PlayOn(b);
    }
  }

  /** `step`: the attract screen only advances the random source; levels 1 to
      13 first count an idle frame and fall back one level once patience runs
      out; otherwise the level body runs, and a finished level enters the next. */
  method Step(b: Badge)
    requires b.Valid()
    modifies b.value, b.lock, b.deform, b.counter, b.velocity, b.switchState, b.ant, b.ant.cells
    modifies b`buttonX, b`buttonY, b`gameTimeout, b`gameLevel
    modifies b`subLevel1, b`columnLevel1, b`firstNodeLevel1, b`leftLevel1, b`rightLevel1
    modifies b`nodeLevel2, b`node1Level3, b`node2Level3, b`node3Level3, b`node4Level3, b`startedLevel5
    ensures b.Valid()
    ensures b.gameTimed == old(b.gameTimed)
    // a level times out exactly when it is timed and this frame exhausts its patience
    ensures 1 <= old(b.gameLevel) <= 13 && b.gameTimed && old(b.gameTimeout) + 1 >= Patience ==>
              b.gameLevel == old(b.gameLevel) - 1
    ensures b.gameLevel < old(b.gameLevel) ==>
              1 <= old(b.gameLevel) <= 13 && b.gameTimed && old(b.gameTimeout) + 1 >= Patience
    // otherwise the level stays, or is finished and the next one is entered
    ensures b.gameLevel == old(b.gameLevel) || b.gameLevel == old(b.gameLevel) - 1
            || (b.gameLevel == old(b.gameLevel) + 1 && old(b.gameLevel) <= 13)
    // a level that is left is left for a freshly entered one
    ensures b.gameLevel != old(b.gameLevel) ==> b.Entered(b.gameLevel)
    // levels -3 and 14 are never left by stepping
    ensures old(b.gameLevel) == -3 || old(b.gameLevel) == 14 ==> b.gameLevel == old(b.gameLevel)
  {
    if b.gameLevel == -3 {
      StepAttract(b);
    } else {
      Advance(b);
    }
  }
}
