/** Sampling the fifteen push buttons into a mask (getButtonsPressed). The
    GPIO read is injected: `gpio(p)` is the level gpio_get(p) returns for pin
    p. Buttons are wired active-low with pull-ups, so a pressed button reads
    false. */
module ButtonSampler {

  /** GPIO pin of each button. */
  const PinR: nat := 5
  const PinZR: nat := 6
  const PinL: nat := 7
  const PinZL: nat := 8
  const PinSelect: nat := 9
  const PinStart: nat := 10
  const PinMode: nat := 11
  const PinA: nat := 12
  const PinB: nat := 13
  const PinX: nat := 14
  const PinY: nat := 15
  const PinLeft: nat := 16
  const PinDown: nat := 17
  const PinUp: nat := 18
  const PinRight: nat := 19

  /** Mask bit of each button. */
  const MaskLeft: bv32 := 1 << 0
  const MaskDown: bv32 := 1 << 1
  const MaskUp: bv32 := 1 << 2
  const MaskRight: bv32 := 1 << 3
  const MaskA: bv32 := 1 << 4
  const MaskB: bv32 := 1 << 5
  const MaskX: bv32 := 1 << 6
  const MaskY: bv32 := 1 << 7
  const MaskSelect: bv32 := 1 << 8
  const MaskStart: bv32 := 1 << 9
  const MaskMode: bv32 := 1 << 10
  const MaskR: bv32 := 1 << 11
  const MaskZR: bv32 := 1 << 12
  const MaskL: bv32 := 1 << 13
  const MaskZL: bv32 := 1 << 14

  /** All fifteen meaningful mask bits. */
  const AllButtons: bv32 := (1 << 15) - 1

  /** C's `!gpio_get(p)` widened to the mask type: 1 for a low (pressed) pin. */
  function Low(level: bool): bv32 {
    if level then 0 else 1
  }

  /** The packed mask: each button's bit is set exactly when its pin reads
      low, and no bit above the fifteen button bits is ever set. */
  function GetButtonsPressed(gpio: nat -> bool): (btn: bv32)
    ensures btn & !AllButtons == 0
    ensures (btn & MaskLeft != 0 <==> !gpio(PinLeft)) && (btn & MaskDown != 0 <==> !gpio(PinDown))
    ensures (btn & MaskUp != 0 <==> !gpio(PinUp)) && (btn & MaskRight != 0 <==> !gpio(PinRight))
    ensures (btn & MaskA != 0 <==> !gpio(PinA)) && (btn & MaskB != 0 <==> !gpio(PinB))
    ensures (btn & MaskX != 0 <==> !gpio(PinX)) && (btn & MaskY != 0 <==> !gpio(PinY))
    ensures (btn & MaskSelect != 0 <==> !gpio(PinSelect)) && (btn & MaskStart != 0 <==> !gpio(PinStart))
    ensures (btn & MaskMode != 0 <==> !gpio(PinMode)) && (btn & MaskR != 0 <==> !gpio(PinR))
    ensures (btn & MaskZR != 0 <==> !gpio(PinZR)) && (btn & MaskL != 0 <==> !gpio(PinL))
    ensures btn & MaskZL != 0 <==> !gpio(PinZL)
  {
    Low(gpio(PinLeft))
    | (Low(gpio(PinDown)) << 1)
    | (Low(gpio(PinUp)) << 2)
    | (Low(gpio(PinRight)) << 3)
    | (Low(gpio(PinA)) << 4)
    | (Low(gpio(PinB)) << 5)
    | (Low(gpio(PinX)) << 6)
    | (Low(gpio(PinY)) << 7)
    | (Low(gpio(PinSelect)) << 8)
    | (Low(gpio(PinStart)) << 9)
    | (Low(gpio(PinMode)) << 10)
    | (Low(gpio(PinR)) << 11)
    | (Low(gpio(PinZR)) << 12)
    | (Low(gpio(PinL)) << 13)
    | (Low(gpio(PinZL)) << 14)
  }

  /** The mask bit a button pin drives, 0 for a pin with no button. */
  function MaskOfPin(p: nat): (m: bv32)
    ensures m & !AllButtons == 0
  {
    if p == PinLeft then MaskLeft else if p == PinDown then MaskDown
    else if p == PinUp then MaskUp else if p == PinRight then MaskRight
    else if p == PinA then MaskA else if p == PinB then MaskB
    else if p == PinX then MaskX else if p == PinY then MaskY
    else if p == PinSelect then MaskSelect else if p == PinStart then MaskStart
    else if p == PinMode then MaskMode else if p == PinR then MaskR
    else if p == PinZR then MaskZR else if p == PinL then MaskL
    else if p == PinZL then MaskZL else 0
  }

  /** Pin levels that hold down exactly the buttons of a mask. */
  function LevelsFor(btn: bv32): nat -> bool {
    (p: nat) => btn & MaskOfPin(p) == 0
  }

  /** Two masks without bits above the buttons that agree on every button
      bit are equal. */
  lemma MaskExtensional(a: bv32, b: bv32)
    requires a & !AllButtons == 0 && b & !AllButtons == 0
    requires (a & MaskLeft == 0) == (b & MaskLeft == 0) && (a & MaskDown == 0) == (b & MaskDown == 0)
    requires (a & MaskUp == 0) == (b & MaskUp == 0) && (a & MaskRight == 0) == (b & MaskRight == 0)
    requires (a & MaskA == 0) == (b & MaskA == 0) && (a & MaskB == 0) == (b & MaskB == 0)
    requires (a & MaskX == 0) == (b & MaskX == 0) && (a & MaskY == 0) == (b & MaskY == 0)
    requires (a & MaskSelect == 0) == (b & MaskSelect == 0) && (a & MaskStart == 0) == (b & MaskStart == 0)
    requires (a & MaskMode == 0) == (b & MaskMode == 0) && (a & MaskR == 0) == (b & MaskR == 0)
    requires (a & MaskZR == 0) == (b & MaskZR == 0) && (a & MaskL == 0) == (b & MaskL == 0)
    requires (a & MaskZL == 0) == (b & MaskZL == 0)
    ensures a == b
  {
  }

  /** Pin levels that agree with a mask on every button pin sample to it. */
  lemma SampleOfAgreeingLevels(gpio: nat -> bool, btn: bv32)
    requires btn & !AllButtons == 0
    requires gpio(PinLeft) == (btn & MaskLeft == 0) && gpio(PinDown) == (btn & MaskDown == 0)
    requires gpio(PinUp) == (btn & MaskUp == 0) && gpio(PinRight) == (btn & MaskRight == 0)
    requires gpio(PinA) == (btn & MaskA == 0) && gpio(PinB) == (btn & MaskB == 0)
    requires gpio(PinX) == (btn & MaskX == 0) && gpio(PinY) == (btn & MaskY == 0)
    requires gpio(PinSelect) == (btn & MaskSelect == 0) && gpio(PinStart) == (btn & MaskStart == 0)
    requires gpio(PinMode) == (btn & MaskMode == 0) && gpio(PinR) == (btn & MaskR == 0)
    requires gpio(PinZR) == (btn & MaskZR == 0) && gpio(PinL) == (btn & MaskL == 0)
    requires gpio(PinZL) == (btn & MaskZL == 0)
    ensures GetButtonsPressed(gpio) == btn
  {
    MaskExtensional(GetButtonsPressed(gpio), btn);
  }

  /** Each button pin drives its own mask bit. */
  lemma PinWiring()
    ensures MaskOfPin(PinLeft) == MaskLeft && MaskOfPin(PinDown) == MaskDown && MaskOfPin(PinUp) == MaskUp
    ensures MaskOfPin(PinRight) == MaskRight && MaskOfPin(PinA) == MaskA && MaskOfPin(PinB) == MaskB
    ensures MaskOfPin(PinX) == MaskX && MaskOfPin(PinY) == MaskY && MaskOfPin(PinSelect) == MaskSelect
    ensures MaskOfPin(PinStart) == MaskStart && MaskOfPin(PinMode) == MaskMode && MaskOfPin(PinR) == MaskR
    ensures MaskOfPin(PinZR) == MaskZR && MaskOfPin(PinL) == MaskL && MaskOfPin(PinZL) == MaskZL
  {
  }

  /** The level of one pin, given the mask bit it drives. */
  lemma LevelOfPin(btn: bv32, p: nat, m: bv32)
    requires MaskOfPin(p) == m
    ensures LevelsFor(btn)(p) == (btn & m == 0)
  {
  }

  /** The levels for a mask hold down exactly its buttons, pin by pin. */
  lemma LevelsForPins(btn: bv32)
    ensures LevelsFor(btn)(PinLeft) == (btn & MaskLeft == 0) && LevelsFor(btn)(PinDown) == (btn & MaskDown == 0)
    ensures LevelsFor(btn)(PinUp) == (btn & MaskUp == 0) && LevelsFor(btn)(PinRight) == (btn & MaskRight == 0)
    ensures LevelsFor(btn)(PinA) == (btn & MaskA == 0) && LevelsFor(btn)(PinB) == (btn & MaskB == 0)
    ensures LevelsFor(btn)(PinX) == (btn & MaskX == 0) && LevelsFor(btn)(PinY) == (btn & MaskY == 0)
    ensures LevelsFor(btn)(PinSelect) == (btn & MaskSelect == 0) && LevelsFor(btn)(PinStart) == (btn & MaskStart == 0)
    ensures LevelsFor(btn)(PinMode) == (btn & MaskMode == 0) && LevelsFor(btn)(PinR) == (btn & MaskR == 0)
    ensures LevelsFor(btn)(PinZR) == (btn & MaskZR == 0) && LevelsFor(btn)(PinL) == (btn & MaskL == 0)
    ensures LevelsFor(btn)(PinZL) == (btn & MaskZL == 0)
  {
    PinWiring();
    LevelOfPin(btn, PinLeft, MaskLeft);
    LevelOfPin(btn, PinDown, MaskDown);
    LevelOfPin(btn, PinUp, MaskUp);
    LevelOfPin(btn, PinRight, MaskRight);
    LevelOfPin(btn, PinA, MaskA);
    LevelOfPin(btn, PinB, MaskB);
    LevelOfPin(btn, PinX, MaskX);
    LevelOfPin(btn, PinY, MaskY);
    LevelOfPin(btn, PinSelect, MaskSelect);
    LevelOfPin(btn, PinStart, MaskStart);
    LevelOfPin(btn, PinMode, MaskMode);
    LevelOfPin(btn, PinR, MaskR);
    LevelOfPin(btn, PinZR, MaskZR);
    LevelOfPin(btn, PinL, MaskL);
    LevelOfPin(btn, PinZL, MaskZL);
  }

  /** Every 15-bit mask is produced by some pin levels: sampling the levels
      that hold down the buttons of `btn` gives back `btn`. */
  lemma SampleLevelsFor(btn: bv32)
    requires btn & !AllButtons == 0
    ensures GetButtonsPressed(LevelsFor(btn)) == btn
  {
    LevelsForPins(btn);
    SampleOfAgreeingLevels(LevelsFor(btn), btn);
  }

  /** The mask depends on the fifteen button pins only. */
  lemma SampleReadsButtonPinsOnly(gpio1: nat -> bool, gpio2: nat -> bool)
    requires forall p: nat :: MaskOfPin(p) != 0 ==> gpio1(p) == gpio2(p)
    ensures GetButtonsPressed(gpio1) == GetButtonsPressed(gpio2)
  {
    assert MaskOfPin(PinLeft) != 0 && MaskOfPin(PinDown) != 0 && MaskOfPin(PinUp) != 0;
    assert MaskOfPin(PinRight) != 0 && MaskOfPin(PinA) != 0 && MaskOfPin(PinB) != 0;
    assert MaskOfPin(PinX) != 0 && MaskOfPin(PinY) != 0 && MaskOfPin(PinSelect) != 0;
    assert MaskOfPin(PinStart) != 0 && MaskOfPin(PinMode) != 0 && MaskOfPin(PinR) != 0;
    assert MaskOfPin(PinZR) != 0 && MaskOfPin(PinL) != 0 && MaskOfPin(PinZL) != 0;
  }
}
