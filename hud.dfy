/** The HUD: the vendor-code lock (`check_vendor_code`, `hud_code_get`,
    `hud_code_check`), its per-frame handler `hud_step`, its raster `hud_draw`,
    `hud_init`, and the long press of the HUD button that switches between game
    and HUD. */
module Hud {
  import opened Grid
  import opened Render
  import opened Firmware
  import opened Display
  import opened Bits

  /** The vendor-code rule on a 7-bit code: bit 0 is the parity of bits 1 to 6,
      and the top k bits of the nibble in bits 1 to 4, where k is one more than
      the two high bits, hold an odd number of ones. */
  predicate VendorCode(code: nat)
    requires code < 128
  {
    var k := code / 32 + 1;
    && Ones(code / 2, 6) % 2 == code % 2
    && Ones(code / 2 % 16 / Pow2(4 - k), k) % 2 == 1
  }

  /** The counting loop `check_vendor_code` runs twice: n times, add the low
      bit of a to the count and shift it out (`& 0b1` and `>> 1` on a
      non-negative value). */
  method CountOnes(a: nat, n: nat) returns (count: nat)
    ensures count == Ones(a, n)
  {
    var rest := a;
    count := 0;
    var index := 0;
    while index < n
      invariant 0 <= index <= n
      invariant count + Ones(rest, n - index) == Ones(a, n)
    {
      count := count + rest % 2;
      rest := rest / 2;
      index := index + 1;
    }
  }

  /** `check_vendor_code`: the parity test over bits 1 to 6, then the odd-ones
      test over the top bits of the nibble, a shift by 4 - k being a division by
      2^(4 - k). */
  method CheckVendorCode(code: nat) returns (ok: bool)
    requires code < 128
    ensures ok == VendorCode(code)
  {
    var c := code % 2;
    var b := CountOnes(code / 2, 6);
    var d := b % 2 == c;
    var k := code / 32 + 1;
    b := CountOnes(code / 2 % 16 / Pow2(4 - k), k);
    ok := b % 2 == 1 && d;
  }

  /** Bit 0 is a parity bit: of two codes that differ only in it, at most one passes. */
  lemma ParityBitChecked(code: nat)
    requires code < 127 && code % 2 == 0
    ensures !(VendorCode(code) && VendorCode(code + 1))
  {
    assert (code + 1) / 2 == code / 2;
  }

  /** A code passes once its two counts are known. */
  lemma Passes(code: nat, low: nat, top: nat, k: nat)
    requires code < 128 && low == code / 2 && k == code / 32 + 1 && top == low % 16 / Pow2(4 - k)
    requires Ones(low, 6) % 2 == code % 2 && Ones(top, k) % 2 == 1
    ensures VendorCode(code)
  {
  }

  /** Seven distinct codes pass, so the lock can be opened. */
  lemma SevenCodesPass()
    ensures VendorCode(17) && VendorCode(18) && VendorCode(20) && VendorCode(23)
    ensures VendorCode(24) && VendorCode(27) && VendorCode(29)
  {
    assert Pow2(3) == 8 && Ones(1, 1) == 1;
    assert Ones(8, 6) == 1;
    Passes(17, 8, 1, 1);
    assert Ones(9, 6) == 2;
    Passes(18, 9, 1, 1);
    assert Ones(10, 6) == 2;
    Passes(20, 10, 1, 1);
    assert Ones(11, 6) == 3;
    Passes(23, 11, 1, 1);
    assert Ones(12, 6) == 2;
    Passes(24, 12, 1, 1);
    assert Ones(13, 6) == 3;
    Passes(27, 13, 1, 1);
    assert Ones(14, 6) == 3;
    Passes(29, 14, 1, 1);
  }

  // ------------------------------------------------------------- the code

  /** The value of a sequence of bits, the first most significant. */
  function Pack(bits: seq<bool>): (r: nat)
    ensures r < Pow2(|bits|)
  {
    if |bits| == 0 then 0
    else 2 * Pack(bits[..|bits| - 1]) + (if bits[|bits| - 1] then 1 else 0)
  }

  /** The n low bits of r, the most significant first. */
  function Unpack(r: nat, n: nat): (bits: seq<bool>)
    ensures |bits| == n
  {
    if n == 0 then [] else Unpack(r / 2, n - 1) + [r % 2 == 1]
  }

  /** Unpacking a packed value gives back the bits. */
  lemma {:induction false} UnpackPack(bits: seq<bool>)
    ensures Unpack(Pack(bits), |bits|) == bits
    decreases |bits|
  {
    if |bits| > 0 {
      var front := bits[..|bits| - 1];
      UnpackPack(front);
      assert bits == front + [bits[|bits| - 1]];
    }
  }

  /** Different bit patterns of one length pack to different values. */
  lemma PackInjective(a: seq<bool>, b: seq<bool>)
    requires |a| == |b| && Pack(a) == Pack(b)
    ensures a == b
  {
    UnpackPack(a);
    UnpackPack(b);
  }

  /** Entry group k: cells 21 + 7k to 27 + 7k, lit or not. */
  function Group(e: seq<byte>, k: nat): (g: seq<bool>)
    requires |e| == Size && k < 7
    ensures |g| == 7
  {
    seq(7, i requires 0 <= i < 7 => e[21 + 7 * k + i] != 0)
  }

  /** The code the player has entered in group k. */
  function Code(e: seq<byte>, k: nat): (r: nat)
    requires |e| == Size && k < 7
    ensures r < 128
  {
    Pack(Group(e, k))
  }

  /** `hud_code_get`: the group copied into a 7-byte buffer, then shifted in
      one cell at a time, a lit cell as a 1. */
  method HudCodeGet(b: Badge, index: nat) returns (r: nat)
    requires b.vendorCodeEntry.Length == Size && index < 7
    ensures r == Code(b.vendorCodeEntry[..], index)
  {
    var temps := new byte[7];
    var i := 0;
    while i < 7
      invariant i <= 7
      invariant forall j :: 0 <= j < i ==> temps[j] == b.vendorCodeEntry[index * 7 + 21 + j]
    {
      temps[i] := b.vendorCodeEntry[index * 7 + 21 + i];
      i := i + 1;
    }
    ghost var g := Group(b.vendorCodeEntry[..], index);
    r := 0;
    i := 0;
    while i < 7
      invariant i <= 7
      invariant r == Pack(g[..i])
    {
      assert g[..i + 1][..i] == g[..i];
      if temps[i] == 0 {
        r := r * 2;
      } else {
        r := r * 2 + 1;
      }
      i := i + 1;
    }
    assert g[..7] == g;
  }

  /** The unlock rule: every group holds a passing code and no two groups hold
      the same code. */
  predicate Unlocks(e: seq<byte>)
    requires |e| == Size
  {
    && (forall k :: 0 <= k < 7 ==> VendorCode(Code(e, k)))
    && (forall k, j :: 0 <= k < 7 && 0 <= j < 7 && k != j ==> Code(e, k) != Code(e, j))
  }

  /** Distinct codes are distinct lit patterns: the lock opens exactly when every
      group passes and no two groups are lit alike. */
  lemma UnlocksByPattern(e: seq<byte>)
    requires |e| == Size
    ensures Unlocks(e) <==>
      && (forall k :: 0 <= k < 7 ==> VendorCode(Code(e, k)))
      && (forall k, j :: 0 <= k < 7 && 0 <= j < 7 && k != j ==> Group(e, k) != Group(e, j))
  {
    forall k, j | 0 <= k < 7 && 0 <= j < 7
      ensures Code(e, k) == Code(e, j) <==> Group(e, k) == Group(e, j)
    {
      if Code(e, k) == Code(e, j) {
        PackInjective(Group(e, k), Group(e, j));
      }
    }
  }

  /** The inner loop of `hud_code_check`: does code i repeat among the seven? */
  method Repeats(codes: array<byte>, i: nat) returns (clash: bool)
    requires codes.Length == 7 && i < 7
    ensures clash <==> exists j :: 0 <= j < 7 && j != i && codes[j] == codes[i]
  {
    clash := false;
    var index := 0;
    while index < 7
      invariant index <= 7
      invariant clash <==> exists j :: 0 <= j < index && j != i && codes[j] == codes[i]
    {
      if index != i && codes[i] == codes[index] {
        clash := true;
      }
      index := index + 1;
    }
  }

  /** The first loop of `hud_code_check`: each group's code into `codes`, its
      verdict into `vendor_code_pass`; the result says whether all passed. */
  method CheckGroups(b: Badge, codes: array<byte>) returns (finished: bool)
    requires b.vendorCodeEntry.Length == Size && b.vendorCodePass.Length == 7
    requires codes.Length == 7 && codes != b.vendorCodeEntry
    modifies b.vendorCodePass, codes
    ensures forall k :: 0 <= k < 7 ==> codes[k] as nat == Code(b.vendorCodeEntry[..], k)
    ensures forall k :: 0 <= k < 7 ==> b.vendorCodePass[k] == VendorCode(Code(b.vendorCodeEntry[..], k))
    ensures finished == forall k :: 0 <= k < 7 ==> VendorCode(Code(b.vendorCodeEntry[..], k))
  {
    ghost var e := b.vendorCodeEntry[..];
    finished := true;
    var i := 0;
    while i < 7
      invariant i <= 7 && b.vendorCodeEntry[..] == e
      invariant forall k :: 0 <= k < i ==> codes[k] as nat == Code(e, k)
      invariant forall k :: 0 <= k < i ==> b.vendorCodePass[k] == VendorCode(Code(e, k))
      invariant finished == forall k :: 0 <= k < i ==> VendorCode(Code(e, k))
    {
      var ok := CheckGroup(b, codes, i);
      if !ok {
        finished := false;
      }
      i := i + 1;
    }
  }

  /** One group of the first loop of `hud_code_check`: its code into
      `codes[i]` and its verdict into `vendor_code_pass[i]`. */
  method CheckGroup(b: Badge, codes: array<byte>, i: nat) returns (ok: bool)
    requires b.vendorCodeEntry.Length == Size && b.vendorCodePass.Length == 7
    requires codes.Length == 7 && codes != b.vendorCodeEntry && i < 7
    modifies b.vendorCodePass, codes
    ensures codes[..] == old(codes[..])[i := Code(b.vendorCodeEntry[..], i) as byte]
    ensures ok == VendorCode(Code(b.vendorCodeEntry[..], i))
    ensures b.vendorCodePass[..] == old(b.vendorCodePass[..])[i := ok]
  {
    var c := HudCodeGet(b, i);
    codes[i] := c as byte;
    ok := CheckVendorCode(c);
    b.vendorCodePass[i] := ok;
  }

  /** The second loop of `hud_code_check`: are the seven codes pairwise distinct? */
  method AllDistinct(codes: array<byte>) returns (distinct: bool)
    requires codes.Length == 7
    ensures distinct <==> forall k, j :: 0 <= k < 7 && 0 <= j < 7 && k != j ==> codes[k] != codes[j]
  {
    distinct := true;
    var i := 0;
    while i < 7
      invariant i <= 7
      invariant distinct <==> forall k, j :: 0 <= k < i && 0 <= j < 7 && k != j ==> codes[k] != codes[j]
    {
      var clash := Repeats(codes, i);
      if clash {
        distinct := false;
      }
      i := i + 1;
    }
  }

  /** `hud_code_check`: records which groups pass, and unlocks (for good) when
      the entry satisfies the unlock rule. */
  method HudCodeCheck(b: Badge)
    requires b.vendorCodeEntry.Length == Size && b.vendorCodePass.Length == 7
    modifies b.vendorCodePass, b`unlocked
    ensures forall k :: 0 <= k < 7 ==> b.vendorCodePass[k] == VendorCode(Code(b.vendorCodeEntry[..], k))
    ensures b.unlocked == (old(b.unlocked) || Unlocks(b.vendorCodeEntry[..]))
  {
    var codes := new byte[7];
    var finished := CheckGroups(b, codes);
    var distinct := AllDistinct(codes);
    assert distinct <==> forall k, j :: 0 <= k < 7 && 0 <= j < 7 && k != j ==>
      Code(b.vendorCodeEntry[..], k) != Code(b.vendorCodeEntry[..], j);
    if finished && distinct {
      b.unlocked := true;
    }
  }

  // ------------------------------------------------------------- hud_step

  /** The first cell in [lo, hi) that is pressed, if any. */
  function FirstOne(sw: seq<byte>, lo: nat, hi: nat): (r: Option<nat>)
    requires lo <= hi <= |sw|
    ensures r.Some? ==> lo <= r.value < hi && sw[r.value] == 1
    ensures r.Some? ==> forall j :: lo <= j < r.value ==> sw[j] != 1
    ensures r.None? ==> forall j :: lo <= j < hi ==> sw[j] != 1
    decreases hi - lo
  {
    if lo == hi then None else if sw[lo] == 1 then Some(lo) else FirstOne(sw, lo + 1, hi)
  }

  /** The last cell in [lo, hi) that is pressed, if any. */
  function LastOne(sw: seq<byte>, lo: nat, hi: nat): (r: Option<nat>)
    requires lo <= hi <= |sw|
    ensures r.Some? ==> lo <= r.value < hi && sw[r.value] == 1
    ensures r.Some? ==> forall j :: r.value < j < hi ==> sw[j] != 1
    ensures r.None? ==> forall j :: lo <= j < hi ==> sw[j] != 1
  {
    if lo == hi then None else if sw[hi - 1] == 1 then Some(hi - 1) else LastOne(sw, lo, hi - 1)
  }

  /** The level-select scan: the first pressed cell among 28 to 42, or 43. */
  method FirstPressed(b: Badge) returns (k: nat)
    requires b.switchState.Length == Size
    ensures k == match FirstOne(b.switchState[..], 28, 43) case Some(j) => j case None => 43
  {
    k := 28;
    while k < 43 && b.switchState[k] != 1
      invariant 28 <= k <= 43
      invariant FirstOne(b.switchState[..], 28, 43) == FirstOne(b.switchState[..], k, 43)
    {
      k := k + 1;
    }
  }

  /** Level select: the pressed cell 28 + n is released and level n entered.
      `level_init` releases every other switch too, so the rest of `hud_step`
      finds nothing pressed. */
  method LevelSelect(b: Badge, k: nat)
    requires b.Ready() && 28 <= k < 43
    modifies b.value, b.lock, b.deform, b.counter, b.velocity, b.switchState, b.ant, b.ant.cells
    modifies b`buttonX, b`buttonY, b`gameTimeout, b`gameLevel
    modifies b`subLevel1, b`columnLevel1, b`leftLevel1, b`rightLevel1
    modifies b`nodeLevel2, b`node1Level3, b`node2Level3, b`node3Level3, b`node4Level3, b`startedLevel5
    ensures b.Entered(k - 28)
    ensures b.Prefs() == old(b.Prefs())
  {
    ghost var prefs := b.Prefs();
    b.switchState[k] := 0;
    b.LevelInit(k - 28);
    assert b.Prefs() == prefs;
  }

  /** A switch that was pressed is released; any other keeps its state. */
  predicate Released(before: byte, after: byte) {
    after == if before == 1 then 0 else before
  }

  /** The settings cells (brightness 63 to 66, lock 55, timed mode 62) are
      released when pressed; every other switch keeps its state. */
  predicate SettingsReleased(sw0: seq<byte>, sw: seq<byte>)
    requires |sw0| == Size && |sw| == Size
  {
    forall j :: 0 <= j < Size ==>
      if 63 <= j < 67 || j == 55 || j == 62 then Released(sw0[j], sw[j]) else sw[j] == sw0[j]
  }

  /** The code cells 21 to 69 are released when pressed; cells 0 to 20 keep
      their state. */
  predicate CodeReleased(sw0: seq<byte>, sw: seq<byte>)
    requires |sw0| == Size && |sw| == Size
  {
    forall j :: 0 <= j < Size ==> if 21 <= j then Released(sw0[j], sw[j]) else sw[j] == sw0[j]
  }

  /** Every pass flag says whether its code in the entry e is a vendor code. */
  predicate PassesChecked(e: seq<byte>, pass: seq<bool>)
    requires |e| == Size && |pass| == 7
  {
    forall k :: 0 <= k < 7 ==> pass[k] == VendorCode(Code(e, k))
  }

  /** The brightness-select loop over cells 63 to 66: each pressed one is
      released and picks current level `cell - 63`, the last one winning. */
  method Brightness(b: Badge)
    requires b.switchState.Length == Size
    modifies b.switchState, b`currentLevel, b`currentChange
    ensures forall j :: 0 <= j < Size ==>
      if 63 <= j < 67 then Released(old(b.switchState[j]), b.switchState[j]) else b.switchState[j] == old(b.switchState[j])
    ensures match LastOne(old(b.switchState[..]), 63, 67)
            case Some(j) => b.currentLevel == j - 63 && b.currentChange
            case None => b.currentLevel == old(b.currentLevel) && b.currentChange == old(b.currentChange)
  {
    ghost var sw0 := b.switchState[..];
    var k := 63;
    while k < 67
      invariant 63 <= k <= 67
      invariant forall j :: 0 <= j < Size ==>
        if 63 <= j < k then Released(sw0[j], b.switchState[j]) else b.switchState[j] == sw0[j]
      invariant match LastOne(sw0, 63, k)
                case Some(j) => b.currentLevel == j - 63 && b.currentChange
                case None => b.currentLevel == old(b.currentLevel) && b.currentChange == old(b.currentChange)
    {
      if b.switchState[k] == 1 {
        b.switchState[k] := 0;
        b.currentLevel := k - 63;
        b.currentChange := true;
      }
      k := k + 1;
    }
  }

  /** The unlocked HUD when no level is selected: brightness select, then the
      lock cell 55 (locks the HUD again) and the timed-mode cell 62 (toggles
      timed play), each released when pressed. */
  method Settings(b: Badge)
    requires b.switchState.Length == Size
    modifies b.switchState, b`currentLevel, b`currentChange, b`unlocked, b`gameTimed
    ensures SettingsReleased(old(b.switchState[..]), b.switchState[..])
    ensures match LastOne(old(b.switchState[..]), 63, 67)
            case Some(j) => b.currentLevel == j - 63 && b.currentChange
            case None => b.currentLevel == old(b.currentLevel) && b.currentChange == old(b.currentChange)
    ensures b.unlocked == (old(b.unlocked) && old(b.switchState[55]) != 1)
    ensures b.gameTimed == (old(b.gameTimed) != (old(b.switchState[62]) == 1))
  {
    Brightness(b);
    if b.switchState[55] == 1 {
      b.switchState[55] := 0;
      b.unlocked := false;
    }
    if b.switchState[62] == 1 {
      b.switchState[62] := 0;
      b.gameTimed := !b.gameTimed;
    }
  }

  /** The entry after the presses on cells 21 to n - 1 have toggled their cells. */
  function Toggled(e: seq<byte>, sw: seq<byte>, n: nat): (r: seq<byte>)
    requires |e| == Size && |sw| == Size
    ensures |r| == Size
  {
    seq(Size, j requires 0 <= j < Size => if 21 <= j < n && sw[j] == 1 then Toggle(e[j]) else e[j])
  }

  /** The locked HUD: each pressed cell among 21 to 69 is released and toggles
      its entry cell, and the unlock rule is checked after every toggle; the lock
      opens if it holds after any one of them. */
  method EnterCode(b: Badge)
    requires b.switchState.Length == Size && b.vendorCodeEntry.Length == Size && b.vendorCodePass.Length == 7
    requires b.switchState != b.vendorCodeEntry
    modifies b.switchState, b.vendorCodeEntry, b.vendorCodePass, b`unlocked
    ensures CodeReleased(old(b.switchState[..]), b.switchState[..])
    ensures b.vendorCodeEntry[..] == Toggled(old(b.vendorCodeEntry[..]), old(b.switchState[..]), Size)
    ensures b.unlocked <==>
      || old(b.unlocked)
      || exists j :: 21 <= j < Size && old(b.switchState[j]) == 1
           && Unlocks(Toggled(old(b.vendorCodeEntry[..]), old(b.switchState[..]), j + 1))
    ensures (exists j :: 21 <= j < Size && old(b.switchState[j]) == 1) ==>
      PassesChecked(b.vendorCodeEntry[..], b.vendorCodePass[..])
  {
    ghost var sw0, e0 := b.switchState[..], b.vendorCodeEntry[..];
    var i := 21;
    while i < Size
      invariant 21 <= i <= Size
      invariant forall j :: 0 <= j < Size ==>
        if 21 <= j < i then Released(sw0[j], b.switchState[j]) else b.switchState[j] == sw0[j]
      invariant b.vendorCodeEntry[..] == Toggled(e0, sw0, i)
      invariant b.unlocked <==> old(b.unlocked) || UnlockedBy(e0, sw0, i)
      invariant (exists j :: 21 <= j < i && sw0[j] == 1) ==>
        PassesChecked(b.vendorCodeEntry[..], b.vendorCodePass[..])
    {
      EnterCell(b, i);
      if sw0[i] == 1 {
        assert b.vendorCodeEntry[..] == Toggled(e0, sw0, i + 1);
      } else {
        assert Toggled(e0, sw0, i + 1) == Toggled(e0, sw0, i);
      }
      i := i + 1;
    }
    UnlockedByMeans(e0, sw0, Size);
  }

  /** Some press on the cells 21 to n - 1 left an entry that unlocks. */
  ghost predicate UnlockedBy(e: seq<byte>, sw: seq<byte>, n: nat)
    requires |e| == Size && |sw| == Size && n <= Size
  {
    n > 21 && (UnlockedBy(e, sw, n - 1) || (sw[n - 1] == 1 && Unlocks(Toggled(e, sw, n))))
  }

  /** `UnlockedBy` is the search over the presses on cells 21 to n - 1. */
  lemma {:induction false} UnlockedByMeans(e: seq<byte>, sw: seq<byte>, n: nat)
    requires |e| == Size && |sw| == Size && n <= Size
    ensures UnlockedBy(e, sw, n) <==> exists j :: 21 <= j < n && sw[j] == 1 && Unlocks(Toggled(e, sw, j + 1))
  {
    if n > 21 {
      UnlockedByMeans(e, sw, n - 1);
    }
  }

  /** One cell of the code-entry loop: a press on cell i is released, toggles
      the entry cell and runs the unlock check; without a press nothing changes. */
  method EnterCell(b: Badge, i: nat)
    requires b.switchState.Length == Size && b.vendorCodeEntry.Length == Size && b.vendorCodePass.Length == 7
    requires b.switchState != b.vendorCodeEntry && i < Size
    modifies b.switchState, b.vendorCodeEntry, b.vendorCodePass, b`unlocked
    ensures b.switchState[..] == old(b.switchState[..])[i := if old(b.switchState[i]) == 1 then 0 else old(b.switchState[i])]
    ensures old(b.switchState[i]) == 1 ==>
      && b.vendorCodeEntry[..] == old(b.vendorCodeEntry[..])[i := Toggle(old(b.vendorCodeEntry[i]))]
      && b.unlocked == (old(b.unlocked) || Unlocks(b.vendorCodeEntry[..]))
      && PassesChecked(b.vendorCodeEntry[..], b.vendorCodePass[..])
    ensures old(b.switchState[i]) != 1 ==>
      && b.vendorCodeEntry[..] == old(b.vendorCodeEntry[..])
      && b.unlocked == old(b.unlocked) && b.vendorCodePass[..] == old(b.vendorCodePass[..])
  {
    if b.switchState[i] == 1 {
      b.switchState[i] := 0;
      if b.vendorCodeEntry[i] == 0 {
        b.vendorCodeEntry[i] := 128;
      } else {
        b.vendorCodeEntry[i] := 0;
      }
      HudCodeCheck(b);
    }
  }

  /** The settings cells on a badge in play: the switch states stay 0 or 1 and
      the level's own state is not touched, so the game invariant holds on. */
  method SettingsInPlay(b: Badge)
    requires b.Valid()
    modifies b.switchState, b`currentLevel, b`currentChange, b`unlocked, b`gameTimed
    ensures b.Valid() == old(b.Valid())
    ensures Configured(b, old(b.switchState[..]), old(b.currentLevel), old(b.currentChange), old(b.unlocked), old(b.gameTimed))
    ensures SettingsReleased(old(b.switchState[..]), b.switchState[..])
  {
    Settings(b);
    assert Switches(b.switchState[..]);
  }

  /** Code entry on a badge in play: the switch states stay 0 or 1 and the
      level's own state is not touched. */
  method EnterCodeInPlay(b: Badge)
    requires b.Valid()
    modifies b.switchState, b.vendorCodeEntry, b.vendorCodePass, b`unlocked
    ensures b.Valid()
    ensures b.vendorCodeEntry[..] == Toggled(old(b.vendorCodeEntry[..]), old(b.switchState[..]), Size)
    ensures b.unlocked <==>
      || old(b.unlocked)
      || exists j :: 21 <= j < Size && old(b.switchState[j]) == 1
           && Unlocks(Toggled(old(b.vendorCodeEntry[..]), old(b.switchState[..]), j + 1))
    ensures CodeReleased(old(b.switchState[..]), b.switchState[..])
    ensures (exists j :: 21 <= j < Size && old(b.switchState[j]) == 1) ==>
      PassesChecked(b.vendorCodeEntry[..], b.vendorCodePass[..])
  {
    EnterCode(b);
  }

  /** The settings as `Settings` leaves them, given the switch states and the
      settings from before: the last pressed brightness cell picks the level,
      cell 55 locks and cell 62 toggles timed play. */
  ghost predicate Configured(b: Badge, sw: seq<byte>, level: int, change: bool, unlocked: bool, timed: bool)
    requires |sw| == Size
    reads b
  {
    && (match LastOne(sw, 63, 67)
        case Some(j) => b.currentLevel == j - 63 && b.currentChange
        case None => b.currentLevel == level && b.currentChange == change)
    && b.unlocked == (unlocked && sw[55] != 1)
    && b.gameTimed == (timed != (sw[62] == 1))
  }

  /** The unlocked HUD: a press on cell 28 + n enters level n (the first such
      cell wins, and k is that cell); with none, k is 43, the level in play
      stays and the brightness, lock and timed-mode cells act as `Settings`
      says. The game invariant holds after either. */
  method HudUnlocked(b: Badge) returns (k: nat)
    requires b.Valid()
    modifies b.value, b.lock, b.deform, b.counter, b.velocity, b.switchState, b.ant, b.ant.cells
    modifies b`buttonX, b`buttonY, b`gameTimeout, b`gameLevel
    modifies b`subLevel1, b`columnLevel1, b`leftLevel1, b`rightLevel1
    modifies b`nodeLevel2, b`node1Level3, b`node2Level3, b`node3Level3, b`node4Level3, b`startedLevel5
    modifies b`currentLevel, b`currentChange, b`unlocked, b`gameTimed
    ensures b.Valid() == old(b.Valid())
    ensures k == match FirstOne(old(b.switchState[..]), 28, 43) case Some(j) => j case None => 43
    ensures b.gameLevel == if k < 43 then k - 28 else old(b.gameLevel)
    ensures k < 43 ==> b.Entered(k - 28)
    // a level select leaves the settings as they were
    ensures k < 43 ==> b.Prefs() == old(b.Prefs())
    ensures k == 43 ==> Configured(b, old(b.switchState[..]), old(b.currentLevel), old(b.currentChange),
                                   old(b.unlocked), old(b.gameTimed))
    ensures k == 43 ==> SettingsReleased(old(b.switchState[..]), b.switchState[..])
  {
    k := FirstPressed(b);
    if k < 43 {
      LevelSelect(b, k);
    } else {
      SettingsInPlay(b);
    }
  }

  /** `hud_step`: the unlocked HUD selects levels and settings, the locked one
      takes code entry. The game invariant is kept either way, and only the
      unlocked HUD changes the level. */
  method HudStep(b: Badge)
    requires b.Valid()
    modifies b.value, b.lock, b.deform, b.counter, b.velocity, b.switchState, b.ant, b.ant.cells
    modifies b`buttonX, b`buttonY, b`gameTimeout, b`gameLevel
    modifies b`subLevel1, b`columnLevel1, b`leftLevel1, b`rightLevel1
    modifies b`nodeLevel2, b`node1Level3, b`node2Level3, b`node3Level3, b`node4Level3, b`startedLevel5
    modifies b`currentLevel, b`currentChange, b`unlocked, b`gameTimed, b.vendorCodeEntry, b.vendorCodePass
    ensures b.Valid()
    ensures !old(b.unlocked) ==> b.gameLevel == old(b.gameLevel) && b.gameTimed == old(b.gameTimed)
    ensures b.gameLevel != old(b.gameLevel) ==> old(b.unlocked)
    ensures old(b.unlocked) ==> match FirstOne(old(b.switchState[..]), 28, 43)
            case Some(k) =>
              && b.Entered(k - 28) && b.Prefs() == old(b.Prefs())
            case None =>
              && Configured(b, old(b.switchState[..]), old(b.currentLevel), old(b.currentChange),
                            old(b.unlocked), old(b.gameTimed))
              && SettingsReleased(old(b.switchState[..]), b.switchState[..])
    ensures !old(b.unlocked) ==>
      && b.vendorCodeEntry[..] == Toggled(old(b.vendorCodeEntry[..]), old(b.switchState[..]), Size)
      && (b.unlocked <==> exists j :: 21 <= j < Size && old(b.switchState[j]) == 1
                            && Unlocks(Toggled(old(b.vendorCodeEntry[..]), old(b.switchState[..]), j + 1)))
      && CodeReleased(old(b.switchState[..]), b.switchState[..])
      && ((exists j :: 21 <= j < Size && old(b.switchState[j]) == 1) ==>
            PassesChecked(b.vendorCodeEntry[..], b.vendorCodePass[..]))
  {
    if b.unlocked {
      var _ := HudUnlocked(b);
    } else {
      EnterCodeInPlay(b);
    }
  }

  // --------------------------------------------------------------- hud_draw

  /** The number of codes marked as passing. */
  function Passed(pass: seq<bool>): (n: nat)
    ensures n <= |pass|
    ensures n == 0 <==> forall k :: 0 <= k < |pass| ==> !pass[k]
  {
    if pass == [] then 0 else Passed(pass[..|pass| - 1]) + (if pass[|pass| - 1] then 1 else 0)
  }

  /** The counting loop of `hud_draw` over the seven pass flags. */
  method CountPassed(b: Badge) returns (n: nat)
    requires b.vendorCodePass.Length == 7
    ensures n == Passed(b.vendorCodePass[..])
  {
    n := 0;
    var k := 0;
    while k < 7
      invariant k <= 7 && n == Passed(b.vendorCodePass[..k])
    {
      assert b.vendorCodePass[..k + 1][..k] == b.vendorCodePass[..k];
      if b.vendorCodePass[k] {
        n := n + 1;
      }
      k := k + 1;
    }
    assert b.vendorCodePass[..k] == b.vendorCodePass[..];
  }

  /** One cell of the HUD picture before gamma correction. Unlocked: the level
      marker at cell level + 7, the level-select row 28 to 42, the brightness
      ramp 63 to 66, the lock cell 55 and the timed-mode cell 62. Locked: the
      level marker for levels 0 to 13, the seven pass cells 14 to 20 with the
      count of passing codes marked, and the code entries from cell 21 on. */
  function HudCell(unlocked: bool, level: int, timed: bool, e: seq<byte>, passed: nat, i: nat): byte
    requires |e| == Size && i < Size
  {
    if unlocked then
      if i == level + 7 then 255
      else if 28 <= i < 43 then 32
      else if 63 <= i < 67 then ((i - 62) * 32) as byte
      else if i == 55 then 16
      else if i == 62 then (if timed then 255 else 16)
      else 0
    else
      if i < 14 then (if i == level then 255 else 0)
      else if i < 21 then (if passed > 0 && i == passed + 13 then 128 else 32)
      else e[i]
  }

  /** The HUD raster: every cell through the gamma table. */
  function HudRaster(unlocked: bool, level: int, timed: bool, e: seq<byte>, passed: nat): (r: seq<byte>)
    requires |e| == Size
    ensures |r| == Size
  {
    seq(Size, i requires 0 <= i < Size => Gamma(HudCell(unlocked, level, timed, e, passed, i)))
  }

  /** `overscan_set_at` on the coordinates of cell i, seen cell by cell. */
  method SetCell(b: Badge, i: nat, v: byte)
    requires b.overscan.Length == Size && i < Size
    modifies b.overscan
    ensures forall j :: 0 <= j < Size ==> b.overscan[j] == if j == i then Gamma(v) else old(b.overscan[j])
  {
    var c := Coords(i);
    OffsetOfCoords(i);
    OverscanSetAt(b, c.0, c.1, v);
  }

  /** Cells lo to hi - 1 set to value v. */
  method PaintRange(b: Badge, lo: nat, hi: nat, v: byte)
    requires b.overscan.Length == Size && lo <= hi <= Size
    modifies b.overscan
    ensures forall j :: 0 <= j < Size ==> b.overscan[j] == if lo <= j < hi then Gamma(v) else old(b.overscan[j])
  {
    var i := lo;
    while i < hi
      invariant lo <= i <= hi
      invariant forall j :: 0 <= j < Size ==> b.overscan[j] == if lo <= j < i then Gamma(v) else old(b.overscan[j])
    {
      SetCell(b, i, v);
      i := i + 1;
    }
  }

  /** The brightness ramp: cell 62 + n at n * 32 for n from 1 to 4. */
  method PaintRamp(b: Badge)
    requires b.overscan.Length == Size
    modifies b.overscan
    ensures forall j :: 0 <= j < Size ==>
      b.overscan[j] == if 63 <= j < 67 then Gamma(((j - 62) * 32) as byte) else old(b.overscan[j])
  {
    var i := 63;
    while i < 67
      invariant 63 <= i <= 67
      invariant forall j :: 0 <= j < Size ==>
        b.overscan[j] == if 63 <= j < i then Gamma(((j - 62) * 32) as byte) else old(b.overscan[j])
    {
      SetCell(b, i, ((i - 62) * 32) as byte);
      i := i + 1;
    }
  }

  /** The code entries: cells 21 to 69 show the entry cells. */
  method PaintEntries(b: Badge)
    requires b.overscan.Length == Size && b.vendorCodeEntry.Length == Size && b.overscan != b.vendorCodeEntry
    modifies b.overscan
    ensures forall j :: 0 <= j < Size ==>
      b.overscan[j] == if 21 <= j then Gamma(b.vendorCodeEntry[j]) else old(b.overscan[j])
  {
    var i := 21;
    while i < Size
      invariant 21 <= i <= Size
      invariant forall j :: 0 <= j < Size ==>
        b.overscan[j] == if 21 <= j < i then Gamma(b.vendorCodeEntry[j]) else old(b.overscan[j])
    {
      SetCell(b, i, b.vendorCodeEntry[i]);
      i := i + 1;
    }
  }

  /** `hud_draw` for the unlocked HUD. */
  method HudDrawUnlocked(b: Badge)
    requires b.overscan.Length == Size && b.vendorCodeEntry.Length == Size && -3 <= b.gameLevel <= 14
    modifies b.overscan
    ensures forall j :: 0 <= j < Size ==>
      b.overscan[j] == Gamma(HudCell(true, b.gameLevel, b.gameTimed, b.vendorCodeEntry[..], 0, j))
  {
    OverscanFill(b, 0);
    SetCell(b, b.gameLevel + 7, 255);
    PaintRange(b, 28, 43, 32);
    PaintRamp(b);
    SetCell(b, 55, 16);
    if b.gameTimed {
      SetCell(b, 62, 255);
    } else {
      SetCell(b, 62, 16);
    }
  }

  /** `hud_draw` for the locked HUD. */
  method HudDrawLocked(b: Badge)
    requires b.overscan.Length == Size && b.vendorCodeEntry.Length == Size && b.vendorCodePass.Length == 7
    requires b.overscan != b.vendorCodeEntry
    modifies b.overscan
    ensures forall j :: 0 <= j < Size ==>
      b.overscan[j] == Gamma(HudCell(false, b.gameLevel, b.gameTimed, b.vendorCodeEntry[..], Passed(b.vendorCodePass[..]), j))
  {
    OverscanFill(b, 0);
    if 0 <= b.gameLevel <= 13 {
      SetCell(b, b.gameLevel, 255);
    }
    PaintEntries(b);
    PaintRange(b, 14, 21, 32);
    var passed := CountPassed(b);
    if passed > 0 {
      SetCell(b, passed + 13, 128);
    }
  }

  /** `hud_draw`: the HUD picture of the current state in the raster. */
  method HudDraw(b: Badge)
    requires b.overscan.Length == Size && b.vendorCodeEntry.Length == Size && b.vendorCodePass.Length == 7
    requires b.overscan != b.vendorCodeEntry && -3 <= b.gameLevel <= 14
    modifies b.overscan
    ensures b.overscan[..] ==
      HudRaster(b.unlocked, b.gameLevel, b.gameTimed, b.vendorCodeEntry[..], Passed(b.vendorCodePass[..]))
  {
    if b.unlocked {
      HudDrawUnlocked(b);
    } else {
      HudDrawLocked(b);
    }
  }

  /** On the unlocked HUD the only full-bright cell of the first four rows is
      the level marker, and cell 62 is full bright exactly when play is timed. */
  lemma UnlockedHudShowsLevel(level: int, timed: bool, e: seq<byte>, passed: nat)
    requires |e| == Size && -3 <= level <= 14
    ensures var r := HudRaster(true, level, timed, e, passed);
      && (forall i :: 0 <= i < 28 ==> (r[i] == 255 <==> i == level + 7))
      && (r[62] == 255 <==> timed)
  {
  }

  /** On the locked HUD the only full-bright cell of the first two rows is the
      level marker, shown for levels 0 to 13 only. */
  lemma LockedHudShowsLevel(level: int, timed: bool, e: seq<byte>, passed: nat)
    requires |e| == Size
    ensures var r := HudRaster(false, level, timed, e, passed);
      forall i :: 0 <= i < 14 ==> (r[i] == 255 <==> i == level)
  {
  }

  /** On the locked HUD the pass row reads back the number of passing codes:
      cell 13 + n stands out from the rest of the row exactly when n codes
      pass and n > 0, and the entry cells show the code entered. */
  lemma LockedHudShowsPassed(level: int, timed: bool, e: seq<byte>, passed: nat)
    requires |e| == Size && passed <= 7
    ensures var r := HudRaster(false, level, timed, e, passed);
      && (forall i :: 14 <= i < 21 ==> (r[i] == Gamma(128) <==> passed > 0 && i == passed + 13))
      && (forall i :: 14 <= i < 21 ==> (r[i] == Gamma(32) <==> !(passed > 0 && i == passed + 13)))
      && r[21..] == Shown(e)[21..]
  {
  }

  // --------------------------------------------------------------- hud_init

  /** `hud_init`: a fresh HUD code below 32, drawn from the random source. */
  method HudInit(b: Badge)
    requires b.ant.Valid()
    modifies b`hudCode, b.ant, b.ant.cells
    ensures b.ant.Valid() && b.ant.count == old(b.ant.count) + 1
    ensures b.hudCode < 32
  {
    b.hudCode := b.RandRange(32);
  }
}
