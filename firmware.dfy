/** The blue badge's game firmware: the global bytearrays and scalars of
    `code/main.py` as the fields of one `Badge` object, `level_init`, the
    timeout rule, input edge detection, the render buffer, the fourteen level
    bodies, the step dispatcher, the HUD and one frame of the main loop. */
module Firmware {
  import opened Grid
  import opened Input
  import opened Entropy
  import opened Render

  /** Every entry of s is v. */
  predicate Filled(s: seq<byte>, v: byte) {
    forall i :: 0 <= i < |s| ==> s[i] == v
  }

  /** The two-tone toggle of one cell, shared by level 7, level 10 and the
      HUD's code entry: a dark cell lights at 128, a lit one goes dark. */
  function Toggle(v: byte): (r: byte)
    ensures r == 0 || r == 128
    ensures r == 0 <==> v != 0
  {
    if v == 0 then 128 else 0
  }

  /** On the two values a toggled cell holds, toggling twice changes nothing. */
  lemma ToggleTwice(v: byte)
    requires v == 0 || v == 128
    ensures Toggle(Toggle(v)) == v
  {
  }

  /** Every switch state is 0 (released) or 1 (pressed). */
  predicate Switches(s: seq<byte>) {
    forall i :: 0 <= i < |s| ==> s[i] <= 1
  }

  /** The level-6 field for one chosen row per column: the chosen cell of each
      column lit at 255, every other cell dark. */
  function Comets(rows: seq<nat>): (v: seq<byte>)
    requires |rows| == Width
    ensures |v| == Size
  {
    seq(Size, i requires 0 <= i < Size => if RowOf(i) == rows[ColumnOf(i)] then 255 else 0)
  }

  /** Cell c is one of the first n level-7 targets stored in `node_lock`. */
  predicate Marked(locks: seq<byte>, n: nat, c: int)
    requires n <= |locks|
  {
    exists k :: 0 <= k < n && locks[k] as int == c
  }

  /** The level-4 rules for one cell: `node_lock` counts presses up to 7, and
      `node_velocity` is 1 (idle, never pressed), 2 (brightening) or 0 (dimming).
      `node_counter` indexes `gama_16`, so it must stay in 1..15 (0 ends the
      level); a brightening counter is at most 14 so that its next step fits. */
  predicate Level4Cell(lock: byte, velocity: byte, counter: byte) {
    && lock <= 7 && velocity <= 2 && 1 <= counter <= 15
    && (lock == 0 <==> velocity == 1)
    && (velocity == 1 ==> counter == 7)
    && (velocity == 2 ==> counter <= 14)
  }

  /** Pairwise distinct entries. */
  predicate Distinct(s: seq<byte>) {
    forall i, j :: 0 <= i < j < |s| ==> s[i] != s[j]
  }

  /** Sets every entry of a to v (the fill loops of `level_init`). */
  method Fill(a: array<byte>, v: byte)
    modifies a
    ensures Filled(a[..], v)
  {
    var i := 0;
    while i < a.Length
      invariant i <= a.Length
      invariant forall j :: 0 <= j < i ==> a[j] == v
    {
      a[i] := v;
      i := i + 1;
    }
  }

  /** The cells 0..k-1, as a set. */
  function Cells(k: nat): (s: set<int>)
    ensures |s| == k
    ensures forall c :: c in s <==> 0 <= c < k
  {
    if k == 0 then {} else Cells(k - 1) + {k - 1}
  }

  /** The cells the first n entries of s name. */
  function Named(s: seq<byte>, n: nat): (r: set<int>)
    requires n <= |s|
    ensures |r| <= n
    ensures forall c :: c in r <==> Marked(s, n, c)
  {
    if n == 0 then {} else Named(s, n - 1) + {s[n - 1] as int}
  }

  /** A subset is no larger than its superset. */
  lemma SubsetCard(a: set<int>, b: set<int>)
    requires a <= b
    ensures |a| <= |b|
  {
    assert b == a + (b - a);
    assert a * (b - a) == {};
  }

  /** Fewer than 70 entries cannot name all 70 cells. */
  lemma Pigeonhole(s: seq<byte>, n: nat, k: nat)
    requires n <= |s| && n < k
    ensures exists c :: 0 <= c < k && !Marked(s, n, c)
  {
    if forall c :: 0 <= c < k ==> Marked(s, n, c) {
      SubsetCard(Cells(k), Named(s, n));
      assert false;
    }
  }

  /** `level_init(13)` draws at most this many candidates for one slot of the
      shuffle before it settles for the smallest unused cell. */
  const ShuffleLimit: nat := 1000

  class Badge {
    /** `node_value`, `node_lock`, `node_deform`, `node_counter`, `node_velocity`,
        `node_switch_state`, `node_rendered`: one byte per cell each. */
    const value: array<byte>
    const lock: array<byte>
    const deform: array<byte>
    const counter: array<byte>
    const velocity: array<byte>
    const switchState: array<byte>
    const rendered: array<byte>
    /** `overscan`: the gamma-corrected raster that `render` sends out. */
    const overscan: array<byte>
    /** `vendor_code_entry` and `vendor_code_pass`: the HUD's code-entry cells and
        the per-row verdicts of the vendor check. */
    const vendorCodeEntry: array<byte>
    const vendorCodePass: array<bool>
    /** The random source (`ant_value`, `ant_position`, ...). */
    const ant: Ant

    var buttonX: nat
    var buttonY: nat
    /** `coreXfer_buttonStates_old`: the previous scan's matrix. */
    var buttonStatesOld: seq<seq<bool>>

    var gameLevel: int
    var gameTimeout: nat
    var gameTimed: bool

    var subLevel1: nat
    var columnLevel1: nat
    var leftLevel1: bool
    var rightLevel1: bool
    var firstNodeLevel1: nat
    var nodeLevel2: nat
    var node1Level3: nat
    var node2Level3: nat
    var node3Level3: nat
    var node4Level3: nat
    var startedLevel5: nat

    var unlocked: bool
    /** 0 while the game runs, 1 while the HUD is shown. */
    var gameMode: nat
    var hudCode: nat
    var hudPressed: bool
    var hudWasPressed: bool
    var hudCounter: nat
    var fakePress: bool
    /** The LED current level the HUD asked for, and whether it changed. */
    var currentLevel: nat
    var currentChange: bool

    /** The HUD's settings: the lock, timed play and the LED current level. */
    function Prefs(): (bool, bool, nat, bool)
      reads this`unlocked, this`gameTimed, this`currentLevel, this`currentChange
    {
      (unlocked, gameTimed, currentLevel, currentChange)
    }

    /** Array sizes and the fact that no two of the arrays are the same object. */
    predicate Shape() {
      && value.Length == Size && lock.Length == Size && deform.Length == Size
      && counter.Length == Size && velocity.Length == Size && switchState.Length == Size
      && rendered.Length == Size && overscan.Length == Size && vendorCodeEntry.Length == Size
      && vendorCodePass.Length == 7 && ant.cells.Length == Size
      && value != lock && value != deform && value != counter && value != velocity
      && value != switchState && value != rendered && value != overscan
      && value != vendorCodeEntry && value != ant.cells
      && lock != deform && lock != counter && lock != velocity && lock != switchState
      && lock != rendered && lock != overscan && lock != vendorCodeEntry && lock != ant.cells
      && deform != counter && deform != velocity && deform != switchState && deform != rendered
      && deform != overscan && deform != vendorCodeEntry && deform != ant.cells
      && counter != velocity && counter != switchState && counter != rendered
      && counter != overscan && counter != vendorCodeEntry && counter != ant.cells
      && velocity != switchState && velocity != rendered && velocity != overscan
      && velocity != vendorCodeEntry && velocity != ant.cells
      && switchState != rendered && switchState != overscan && switchState != vendorCodeEntry
      && switchState != ant.cells
      && rendered != overscan && rendered != vendorCodeEntry && rendered != ant.cells
      && overscan != vendorCodeEntry && overscan != ant.cells
      && vendorCodeEntry != ant.cells
    }

    /** What holds at every level: the shape, a well-formed random source, a
        known level, switch states that are 0 or 1, and stored coordinates and
        indices inside the field. */
    ghost predicate Ready()
      reads this`gameLevel, this`buttonStatesOld, this`buttonX, this`buttonY
      reads this`columnLevel1, this`firstNodeLevel1, this`gameMode, switchState, ant, ant.cells
    {
      && Shape() && ant.Valid()
      && (gameLevel == -3 || 0 <= gameLevel <= 14)
      && Switches(switchState[..])
      && IsMatrix(buttonStatesOld)
      && buttonX < Width && buttonY < Height
      && columnLevel1 < Width && firstNodeLevel1 < Size
      && gameMode <= 1
    }

    /** The per-level invariants that keep every index the level stores inside
        its array and every byte it computes inside 0..255. */
    ghost predicate LevelOk()
      reads this`gameLevel, this`subLevel1, this`columnLevel1, this`nodeLevel2, this`node1Level3, this`node2Level3,
        this`node3Level3, this`node4Level3, this`startedLevel5, value, lock, deform, counter, velocity
      requires Shape()
    {
      LevelOkAt(gameLevel)
    }

    ghost predicate LevelOkAt(level: int)
      reads this`subLevel1, this`columnLevel1, this`nodeLevel2, this`node1Level3, this`node2Level3, this`node3Level3, this`node4Level3
      reads this`startedLevel5, value, lock, deform, counter, velocity
      requires Shape()
    {
      && ScalarsOkAt(level) && CellsOkAt(level)
      // level 1: cells are dark or full, and once the column is drawn it stays full
      && (level == 1 ==>
            && subLevel1 <= 2
            && (forall i :: 0 <= i < Size ==> value[i] == 0 || value[i] == 255)
            && (subLevel1 == 2 ==> forall i :: 0 <= i < Size && ColumnOf(i) == columnLevel1 ==> value[i] == 255))
      // level 2: a cell is out (0) or in play (64 and up), and the chosen cell is in play
      && (level == 2 ==>
            && (forall i :: 0 <= i < Size ==> value[i] == 0 || value[i] >= 64)
            && (nodeLevel2 < Size ==> value[nodeLevel2] >= 64))
      // level 3: the field shows the held cells and nothing else, the oldest brightest
      && (level == 3 ==> HeldShown())
    }

    /** Level 3's field shows the held cells and nothing else. */
    ghost predicate HeldShown()
      reads this`node1Level3, this`node2Level3, this`node3Level3, value
      requires Shape()
    {
      forall i :: 0 <= i < Size ==> value[i] == Held3(i)
    }

    /** The brightness `step_level_3` gives cell i: 64 for the newest held
        cell, 64 more for each cell held after it, 0 for a cell not held. */
    function Held3(i: nat): byte
      reads this`node1Level3, this`node2Level3, this`node3Level3
    {
      if i == node1Level3 then (if node3Level3 != Size then 192 else if node2Level3 != Size then 128 else 64)
      else if i == node2Level3 then (if node3Level3 != Size then 128 else 64)
      else if i == node3Level3 then 64
      else 0
    }

    /** The part of the level invariant that concerns the level's own scalars:
        the level-2 and level-3 cell indices, where 70 means "none". */
    ghost predicate ScalarsOkAt(level: int)
      reads this`nodeLevel2, this`node1Level3, this`node2Level3, this`node3Level3, this`node4Level3
      reads this`startedLevel5
    {
      && (level == 2 ==> nodeLevel2 <= Size)
      && (level == 3 ==>
            && node1Level3 <= Size && node2Level3 <= Size && node3Level3 <= Size && node4Level3 == Size
            // the second held cell is above the first, the third right of the second
            && (node2Level3 != Size ==>
                  node1Level3 != Size && ColumnOf(node2Level3) == ColumnOf(node1Level3) && RowOf(node2Level3) < RowOf(node1Level3))
            && (node3Level3 != Size ==>
                  node2Level3 != Size && RowOf(node3Level3) == RowOf(node2Level3) && ColumnOf(node3Level3) > ColumnOf(node2Level3)))
      && (level == 5 ==> startedLevel5 <= 2)
    }

    /** The part of the level invariant that concerns the arrays. */
    ghost predicate CellsOkAt(level: int)
      reads value, lock, deform, counter, velocity
      requires Shape()
    {
      if level == 0 then forall i :: 0 <= i < Size ==> 125 <= velocity[i] <= 130
      else if level == 4 then forall i :: 0 <= i < Size ==> Level4Cell(lock[i], velocity[i], counter[i])
      else if level == 5 then forall k :: 0 <= k < Width ==> deform[k] < Size as byte
      else if level == 6 then forall i :: 0 <= i < Size ==> value[i] == 0 || value[i] == 255
      else if level == 7 then
        && (forall k :: 0 <= k < 6 ==> lock[k] < Size as byte)
        && (forall i :: 0 <= i < Size ==> value[i] == 0 || value[i] == 128)
      else if level == 8 then forall x :: 0 <= x < Width ==> counter[x] <= Height as byte
      else if level == 9 then
        && (forall i :: 0 <= i < Size ==> deform[i] <= Size as byte)
        && deform[0] < Size as byte && 1 <= counter[0] < Size as byte && counter[1] <= Size as byte
      else if level == 10 then forall i :: 0 <= i < Size ==> value[i] == 0 || value[i] == 128
      else if level == 11 then
        && lock[0] < 16
        && forall i :: 0 <= i < Size ==> counter[i] < Size as byte && deform[i] <= 1
      else if level == 12 then
        && deform[0] < Size as byte && 64 <= deform[1] <= 192 && (deform[2] == 127 || deform[2] == 128)
        && forall i :: 0 <= i < Size ==> velocity[i] == 0 || velocity[i] == 63
      else if level == 13 then
        && Distinct(deform[..]) && (forall i :: 0 <= i < Size ==> deform[i] < Size as byte)
        && velocity[0] <= 3 && velocity[1] <= Size as byte && velocity[2] <= 8 && velocity[3] <= 2
        && (velocity[0] == 2 ==> velocity[1] < Size as byte)
      else if level == 14 then forall i :: 0 <= i < Size ==> value[i] % 32 == 0
      else true
    }

    ghost predicate Valid()
      reads this`buttonStatesOld, this`buttonX, this`buttonY, this`firstNodeLevel1, this`gameMode
      reads this`gameLevel, this`subLevel1, this`columnLevel1, this`nodeLevel2, this`node1Level3, this`node2Level3,
        this`node3Level3, this`node4Level3, this`startedLevel5
      reads value, lock, deform, counter, velocity, switchState, ant, ant.cells
    {
      Ready() && LevelOk()
    }

    /** The seeding `level_init(level)` leaves in the level's own scalars. */
    ghost predicate SeededScalars(level: int)
      reads this`subLevel1, this`columnLevel1, this`leftLevel1, this`rightLevel1, this`nodeLevel2
      reads this`node1Level3, this`node2Level3, this`node3Level3, this`node4Level3, this`startedLevel5
    {
      && (level == 1 ==> subLevel1 == 0 && columnLevel1 == 0 && !leftLevel1 && !rightLevel1)
      && (level == 2 ==> nodeLevel2 == Size)
      && (level == 3 ==> node1Level3 == Size && node2Level3 == Size && node3Level3 == Size && node4Level3 == Size)
      && (level == 5 ==> startedLevel5 == 0)
    }

    /** All five game arrays are zero, as the clearing loop leaves them. */
    ghost predicate Cleared()
      reads value, lock, deform, counter, velocity
      requires Shape()
    {
      && Filled(value[..], 0) && Filled(lock[..], 0) && Filled(deform[..], 0)
      && Filled(counter[..], 0) && Filled(velocity[..], 0)
    }

    /** The seeding `level_init(level)` leaves in the arrays (and, for level -3,
        in the random source's position and heading), after clearing them all. */
    ghost predicate SeededCells(level: int)
      reads value, lock, deform, counter, velocity, ant`position, ant`rotation
      requires Shape()
    {
      var v, l, d, c, w := value[..], lock[..], deform[..], counter[..], velocity[..];
      if level == -3 then
        Cleared() && ant.position == 39 && ant.rotation == 0
      else if level == 0 then
        Filled(v, 0) && Filled(l, 0) && Filled(d, 0) && Filled(c, 0) && Filled(w, 128)
      else if level == 2 then
        Filled(v, 64) && Filled(l, 0) && Filled(d, 0) && Filled(c, 0) && Filled(w, 0)
      else if level == 4 then
        Filled(v, 0) && Filled(l, 0) && Filled(d, 0) && Filled(c, 7) && Filled(w, 1)
      else if level == 6 then
        // one lit cell in every column, at a random row
        (exists rows: seq<nat> :: |rows| == Width && (forall x :: 0 <= x < Width ==> rows[x] < Height)
                                  && v == Comets(rows))
        && Filled(l, 0) && Filled(d, 0) && Filled(c, 0) && Filled(w, 0)
      else if level == 7 then
        // six random targets, lit at 128, shown for 128 frames
        && (forall k :: 0 <= k < Size ==> (k < 6 ==> l[k] < Size as byte) && (k >= 6 ==> l[k] == 0))
        && (forall i :: 0 <= i < Size ==> v[i] == if Marked(l, 6, i) then 128 else 0)
        && c[0] == 128 && (forall i :: 1 <= i < Size ==> c[i] == 0)
        && Filled(d, 0) && Filled(w, 0)
      else if level == 8 then
        // every column's bar starts one cell high
        && (forall i :: 0 <= i < Size ==> c[i] == if i < Width then 1 else 0)
        && Filled(v, 0) && Filled(l, 0) && Filled(d, 0) && Filled(w, 0)
      else if level == 9 then
        // a one-cell snake at a random head, length counter 69, no target
        && d[0] < Size as byte && (forall i :: 1 <= i < Size ==> d[i] == Size as byte)
        && c[0] == 69 && c[1] == Size as byte && (forall i :: 2 <= i < Size ==> c[i] == 0)
        && Filled(v, 0) && Filled(l, 0) && Filled(w, 0)
      else if level == 11 then
        // walker i starts on cell i, facing a random one of the four directions
        && (forall i :: 0 <= i < Size ==> w[i] == 2 || w[i] == 4 || w[i] == 6 || w[i] == 8)
        && (forall i :: 0 <= i < Size ==> c[i] as int == i)
        && Filled(v, 8) && Filled(l, 0) && Filled(d, 0)
      else if level == 12 then
        // a random head cell, breathing brightness 64 rising
        && d[0] < Size as byte && d[1] == 64 && d[2] == 128 && (forall i :: 3 <= i < Size ==> d[i] == 0)
        && Filled(v, 0) && Filled(l, 0) && Filled(c, 0) && Filled(w, 0)
      else if level == 13 then
        // a random order of all 70 cells to memorise
        && Distinct(d) && (forall i :: 0 <= i < Size ==> d[i] < Size as byte)
        && Filled(v, 0) && Filled(l, 0) && Filled(c, 0) && Filled(w, 0)
      else
        Cleared()
    }

    /** The module-level globals at their initial values, before the power-on
        sequence (Boot) runs. */
    constructor ()
      ensures Shape() && ant.Valid() && Switches(switchState[..]) && IsMatrix(buttonStatesOld)
      ensures buttonX == 0 && buttonY == 0 && columnLevel1 == 0 && firstNodeLevel1 == 0
      ensures gameLevel == 0 && gameTimed && !unlocked && gameMode == 0
      ensures !hudPressed && !hudWasPressed && hudCounter == 0 && !fakePress
      ensures fresh(value) && fresh(lock) && fresh(deform) && fresh(counter) && fresh(velocity)
      ensures fresh(switchState) && fresh(rendered) && fresh(overscan) && fresh(vendorCodeEntry)
      ensures fresh(vendorCodePass) && fresh(ant) && fresh(ant.cells)
    {
      ant := new Ant();
      vendorCodePass := new bool[7](_ => false);
      value := new byte[Size](_ => 0);
      lock := new byte[Size](_ => 0);
      deform := new byte[Size](_ => 0);
      counter := new byte[Size](_ => 0);
      velocity := new byte[Size](_ => 0);
      rendered := new byte[Size](_ => 0);
      overscan := new byte[Size](_ => 0);
      vendorCodeEntry := new byte[Size](_ => 0);
      switchState := new byte[Size](_ => 0);
      buttonX, buttonY, buttonStatesOld := 0, 0, Released();
      gameLevel, gameTimeout, gameTimed := 0, 0, true;
      subLevel1, columnLevel1, leftLevel1, rightLevel1, firstNodeLevel1 := 0, 0, false, false, 0;
      nodeLevel2, node1Level3, node2Level3, node3Level3, node4Level3 := 0, 0, 0, 0, 0;
      startedLevel5 := 0;
      unlocked, gameMode, hudCode := false, 0, 0;
      hudPressed, hudWasPressed, hudCounter, fakePress := false, false, 0, false;
      currentLevel, currentChange := 0, false;
    }

    /** The power-on sequence that follows the globals: `level_init(-3)`,
        `game_level = 0`, `game_timeout = 0`, `game_timed = True` and
        `level_init(0)`. */
    method Boot()
      requires Ready()
      modifies value, lock, deform, counter, velocity, switchState, ant, ant.cells
      modifies this`buttonX, this`buttonY, this`gameTimeout, this`gameLevel, this`gameTimed
      modifies this`subLevel1, this`columnLevel1, this`leftLevel1, this`rightLevel1
      modifies this`nodeLevel2, this`node1Level3, this`node2Level3, this`node3Level3
      modifies this`node4Level3, this`startedLevel5
      ensures Entered(0) && gameTimed
    {
      LevelInit(-3);
      gameLevel := 0;
      gameTimeout := 0;
      gameTimed := true;
      LevelInit(0);
    }

    /** `level_init`: clears the six per-cell arrays, the last button position
        and the idle counter, applies the seeding of `level` and only that, and
        enters it. */
    method LevelInit(level: int)
      requires Ready()
      requires level == -3 || 0 <= level <= 14
      modifies value, lock, deform, counter, velocity, switchState, ant, ant.cells
      modifies this`buttonX, this`buttonY, this`gameTimeout, this`gameLevel
      modifies this`subLevel1, this`columnLevel1, this`leftLevel1, this`rightLevel1
      modifies this`nodeLevel2, this`node1Level3, this`node2Level3, this`node3Level3
      modifies this`node4Level3, this`startedLevel5
      ensures Entered(level)
      ensures level !in {-3, 6, 7, 9, 11, 12, 13} ==> ant.State() == old(ant.State())
    {
      SeedCells(level);
      SeedScalars(level);
    }

    /** The seeding of the level's own scalars in `level_init`. */
    method SeedScalars(level: int)
      modifies this`subLevel1, this`columnLevel1, this`leftLevel1, this`rightLevel1
      modifies this`nodeLevel2, this`node1Level3, this`node2Level3, this`node3Level3
      modifies this`node4Level3, this`startedLevel5
      modifies this`buttonX, this`buttonY, this`gameTimeout, this`gameLevel
      ensures SeededScalars(level) && ScalarsOkAt(level)
      ensures buttonX == 0 && buttonY == 0 && gameTimeout == 0 && gameLevel == level
      ensures columnLevel1 <= old(columnLevel1)
    {
      buttonX, buttonY, gameTimeout := 0, 0, 0;
      if level == 1 {
        subLevel1, columnLevel1, leftLevel1, rightLevel1 := 0, 0, false, false;
      } else if level == 2 {
        nodeLevel2 := Size;
      } else if level == 3 {
        node1Level3, node2Level3, node3Level3, node4Level3 := Size, Size, Size, Size;
      } else if level == 5 {
        startedLevel5 := 0;
      }
      gameLevel := level;
    }

    /** The clearing and the seeding of the arrays in `level_init`. */
    method SeedCells(level: int)
      requires Shape() && ant.Valid()
      modifies value, lock, deform, counter, velocity, switchState, ant, ant.cells
      ensures ant.Valid() && SeededCells(level) && CellsOkAt(level) && Filled(switchState[..], 0)
      ensures level !in {-3, 6, 7, 9, 11, 12, 13} ==> ant.State() == old(ant.State())
    {
      ClearCells();
      if level < 7 {
        SeedEarly(level);
      } else {
        SeedLate(level);
      }
    }

    /** The seeding of levels -3 to 6. */
    method SeedEarly(level: int)
      requires Shape() && ant.Valid() && Cleared() && level < 7
      modifies value, lock, deform, counter, velocity, ant, ant.cells
      ensures ant.Valid() && SeededCells(level) && CellsOkAt(level)
      ensures level != -3 && level != 6 ==> ant.State() == old(ant.State())
    {
      if level == -3 {
        ant.position, ant.rotation := 39, 0;
      } else if level == 0 {
        Fill(velocity, 128);
      } else if level == 2 {
        Fill(value, 64);
      } else if level == 4 {
        SeedCounters();
      } else if level == 6 {
        SeedComets();
      }
    }

    /** The seeding of levels 7 to 14. */
    method SeedLate(level: int)
      requires Shape() && ant.Valid() && Cleared() && level >= 7
      modifies value, lock, deform, counter, velocity, ant, ant.cells
      ensures ant.Valid() && SeededCells(level) && CellsOkAt(level)
      ensures level !in {7, 9, 11, 12, 13} ==> ant.State() == old(ant.State())
    {
      if level == 7 {
        SeedTargets();
      } else if level == 8 {
        SeedBars();
      } else if level == 9 {
        SeedSnake();
      } else if level == 11 {
        SeedWalkers();
      } else if level == 12 {
        SeedHead();
      } else if level == 13 {
        Shuffle();
      }
    }

    /** Level 4 seeding: every counter at 7, every cell idle. */
    method SeedCounters()
      requires Shape() && Cleared()
      modifies counter, velocity
      ensures SeededCells(4) && CellsOkAt(4)
    {
      Fill(counter, 7);
      Fill(velocity, 1);
    }

    /** Level 12 seeding: a random head cell, breathing brightness 64, rising. */
    method SeedHead()
      requires Shape() && ant.Valid() && Cleared()
      modifies deform, ant, ant.cells
      ensures ant.Valid() && SeededCells(12) && CellsOkAt(12)
    {
      var head := RandRange(Size);
      deform[0], deform[1], deform[2] := head as byte, 64, 128;
    }

    /** `randrange(0, modulo)` as the game sees it: the random source advances
        exactly once, and the result lies in [0, max(modulo, 1)), so a modulo of
        0 or 1 yields 0. */
    method RandRange(modulo: nat) returns (r: nat)
      requires ant.Valid()
      modifies ant, ant.cells
      ensures ant.Valid() && ant.count == old(ant.count) + 1
      ensures r == ant.random % (if modulo == 0 then 1 else modulo)
      ensures r < (if modulo == 0 then 1 else modulo)
    {
      r := ant.RandRange(modulo);
    }

    /** The clearing loop at the head of `level_init`. */
    method ClearCells()
      requires Shape()
      modifies value, lock, deform, counter, velocity, switchState
      ensures Filled(value[..], 0) && Filled(lock[..], 0) && Filled(deform[..], 0)
      ensures Filled(counter[..], 0) && Filled(velocity[..], 0) && Filled(switchState[..], 0)
    {
      var i := 0;
      while i < Size
        invariant i <= Size
        invariant forall j :: 0 <= j < i ==> value[j] == 0 && lock[j] == 0 && deform[j] == 0
        invariant forall j :: 0 <= j < i ==> counter[j] == 0 && velocity[j] == 0 && switchState[j] == 0
      {
        value[i], lock[i], deform[i], counter[i], velocity[i], switchState[i] := 0, 0, 0, 0, 0, 0;
        i := i + 1;
      }
    }

    /** Level 6 seeding: one random row lit in each column, left to right. */
    method SeedComets()
      requires Shape() && ant.Valid() && Cleared()
      modifies value, ant, ant.cells
      ensures ant.Valid() && SeededCells(6) && CellsOkAt(6)
    {
      ghost var rows: seq<nat> := [];
      var xo := 0;
      while xo < Width
        invariant xo <= Width && |rows| == xo && ant.Valid()
        invariant forall x :: 0 <= x < xo ==> rows[x] < Height
        invariant forall i :: 0 <= i < Size ==>
                    value[i] == if ColumnOf(i) < xo && RowOf(i) == rows[ColumnOf(i)] then 255 else 0
      {
        var yo := RandRange(Height);
        CoordsOfOffset(xo, yo);
        forall i | 0 <= i < Size && ColumnOf(i) == xo && RowOf(i) == yo
          ensures i == Offset(xo, yo)
        {
          OffsetOfCoords(i);
        }
        value[Offset(xo, yo)] := 255;
        rows := rows + [yo];
        xo := xo + 1;
      }
      assert value[..] == Comets(rows);
    }

    /** Level 7 seeding: 128 frames of preview, and six random targets, each lit
        at 128 (a target drawn twice is lit once). */
    method SeedTargets()
      requires Shape() && ant.Valid() && Cleared()
      modifies value, lock, counter, ant, ant.cells
      ensures ant.Valid() && SeededCells(7) && CellsOkAt(7)
    {
      counter[0] := 128;
      var k := 0;
      while k < 6
        invariant k <= 6 && ant.Valid()
        invariant counter[0] == 128 && forall i :: 1 <= i < Size ==> counter[i] == 0
        invariant forall j :: 0 <= j < Size ==> (j < k ==> lock[j] < Size as byte) && (j >= k ==> lock[j] == 0)
        invariant forall i :: 0 <= i < Size ==> value[i] == if Marked(lock[..], k, i) then 128 else 0
      {
        var target := RandRange(Size);
        ghost var before := lock[..];
        lock[k] := target as byte;
        assert forall i :: Marked(lock[..], k + 1, i) <==> Marked(before, k, i) || i == target by {
          forall i
            ensures Marked(lock[..], k + 1, i) <==> Marked(before, k, i) || i == target
          {
            if Marked(before, k, i) {
              var j :| 0 <= j < k && before[j] as int == i;
              assert lock[..][j] as int == i;
            }
            if Marked(lock[..], k + 1, i) {
              var j :| 0 <= j < k + 1 && lock[..][j] as int == i;
              if j < k {
                assert before[j] as int == i;
              }
            }
            if i == target {
              assert lock[..][k] as int == i;
            }
          }
        }
        value[lock[k]] := 128;
        k := k + 1;
      }
    }

    /** Level 8 seeding: the counter of each column (cell x of row 0) starts at 1. */
    method SeedBars()
      requires Shape() && Cleared()
      modifies counter
      ensures SeededCells(8) && CellsOkAt(8)
    {
      var xo := 0;
      while xo < Width
        invariant xo <= Width
        invariant forall i :: 0 <= i < Size ==> counter[i] == if i < xo then 1 else 0
      {
        counter[Offset(xo, 0)] := 1;
        xo := xo + 1;
      }
    }

    /** Level 9 seeding: an empty body (every cell 70, off the field) behind a
        random head, length counter 69 and no target (70). */
    method SeedSnake()
      requires Shape() && ant.Valid() && Cleared()
      modifies deform, counter, ant, ant.cells
      ensures ant.Valid() && SeededCells(9) && CellsOkAt(9)
    {
      Fill(deform, Size as byte);
      var head := RandRange(Size);
      deform[0] := head as byte;
      counter[0] := (Size - 1) as byte;
      counter[1] := Size as byte;
    }

    /** Level 11 seeding: walker i starts on cell i at brightness 8, heading up
        (8), right (6), down (2) or left (4) at random. */
    method SeedWalkers()
      requires Shape() && ant.Valid() && Cleared()
      modifies value, counter, velocity, ant, ant.cells
      ensures ant.Valid() && SeededCells(11) && CellsOkAt(11)
    {
      var i := 0;
      while i < Size
        invariant i <= Size && ant.Valid()
        invariant forall j :: 0 <= j < i ==> velocity[j] == 2 || velocity[j] == 4 || velocity[j] == 6 || velocity[j] == 8
        invariant forall j :: 0 <= j < i ==> counter[j] as int == j && value[j] == 8
      {
        var heading := RandRange(4);
        if heading == 0 {
          velocity[i] := 8;
        } else if heading == 1 {
          velocity[i] := 6;
        } else if heading == 2 {
          velocity[i] := 2;
        } else if heading == 3 {
          velocity[i] := 4;
        }
        counter[i] := i as byte;
        value[i] := 8;
        i := i + 1;
      }
    }

    /** Level 13 seeding: a random order of the 70 cells in `node_deform`, drawn by
        rejection (a candidate already used is drawn again). */
    method Shuffle()
      requires Shape() && ant.Valid() && Cleared()
      modifies deform, ant, ant.cells
      ensures ant.Valid() && SeededCells(13) && CellsOkAt(13)
    {
      var first := RandRange(Size);
      deform[0] := first as byte;
      var n := 1;
      while n < Size
        invariant 1 <= n <= Size && ant.Valid()
        invariant forall i :: 0 <= i < n ==> deform[i] < Size as byte
        invariant forall i, j :: 0 <= i < j < n ==> deform[i] != deform[j]
      {
        var drawn := Draft(n);
        deform[n] := drawn;
        n := n + 1;
      }
    }

    /** One slot of the shuffle: candidates are drawn until one is not among
        the first n slots, up to `ShuffleLimit` draws, and then the smallest
        unused cell is taken. */
    method Draft(n: nat) returns (drawn: byte)
      requires Shape() && ant.Valid() && n < Size
      modifies ant, ant.cells
      ensures ant.Valid()
      ensures drawn < Size as byte && !Marked(deform[..], n, drawn as int)
    {
      var finished := false;
      var tries := 0;
      drawn := 0;
      while !finished && tries < ShuffleLimit
        invariant tries <= ShuffleLimit && ant.Valid()
        invariant finished ==> drawn < Size as byte && !Marked(deform[..], n, drawn as int)
        decreases ShuffleLimit - tries
      {
        var candidate := RandRange(Size);
        var check := Unused(candidate, n);
        if check {
          drawn := candidate as byte;
          finished := true;
        }
        tries := tries + 1;
      }
      if !finished {
        drawn := SmallestUnused(n);
      }
    }

    /** The inner check of the shuffle: no slot below n holds the candidate. */
    method Unused(candidate: nat, n: nat) returns (check: bool)
      requires Shape() && n <= Size
      ensures check <==> !Marked(deform[..], n, candidate)
    {
      check := true;
      var j := 0;
      while j < n
        invariant j <= n
        invariant check <==> !Marked(deform[..], j, candidate)
      {
        if deform[j] as int == candidate {
          check := false;
        }
        j := j + 1;
      }
    }

    /** The smallest cell no slot below n holds; one exists while n < 70. */
    method SmallestUnused(n: nat) returns (spare: byte)
      requires Shape() && n < Size
      ensures spare < Size as byte && !Marked(deform[..], n, spare as int)
    {
      Pigeonhole(deform[..], n, Size);
      var c := 0;
      while c < Size && Marked(deform[..], n, c)
        invariant c <= Size
        invariant forall d :: 0 <= d < c ==> Marked(deform[..], n, d)
      {
        c := c + 1;
      }
      spare := c as byte;
    }

    ghost predicate Seeded(level: int)
      reads this`subLevel1, this`columnLevel1, this`leftLevel1, this`rightLevel1, this`nodeLevel2
      reads this`node1Level3, this`node2Level3, this`node3Level3, this`node4Level3, this`startedLevel5
      reads value, lock, deform, counter, velocity, ant`position, ant`rotation
      requires Shape()
    {
      SeededScalars(level) && SeededCells(level)
    }

    /** The state right after `level_init(level)`. */
    ghost predicate Entered(level: int)
      reads this, value, lock, deform, counter, velocity, switchState, ant, ant.cells
    {
      && Valid() && gameLevel == level && Seeded(level)
      && Filled(switchState[..], 0)
      && buttonX == 0 && buttonY == 0 && gameTimeout == 0
    }
  }
}
