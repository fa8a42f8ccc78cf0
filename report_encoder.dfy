/** Building one gamepad report from a button mask (the body of
    send_hid_report): the hat chain, the button map and the zero axes. */
module ReportEncoder {
  import opened GamepadReport
  import opened ButtonSampler
  import opened BitSelect

  /** The four direction bits of a mask. */
  const DirectionBits: bv32 := MaskLeft | MaskDown | MaskUp | MaskRight

  /** The eleven non-direction bits of a mask. */
  const FaceBits: bv32 := AllButtons & !DirectionBits

  /** Index 0..15 of the direction bits: Left 1, Down 2, Up 4, Right 8. */
  function DirectionIndex(btn: bv32): (k: nat)
    ensures k < 16
  {
    (if Pressed(btn, MaskLeft) then 1 else 0) + (if Pressed(btn, MaskDown) then 2 else 0)
    + (if Pressed(btn, MaskUp) then 4 else 0) + (if Pressed(btn, MaskRight) then 8 else 0)
  }

  /** The hat for each of the sixteen direction combinations, indexed by
      DirectionIndex: the outcome of the overwrite chain, tabulated. */
  const HatTable: seq<bv8> := [
    HatCentered,  // none
    HatLeft,      // L
    HatDown,      // D
    HatDownLeft,  // L D
    HatUp,        // U
    HatUpLeft,    // L U
    HatUp,        // D U
    HatUpLeft,    // L D U
    HatRight,     // R
    HatRight,     // L R
    HatDownRight, // D R
    HatDownRight, // L D R
    HatUpRight,   // U R
    HatUpRight,   // L U R
    HatUpRight,   // D U R
    HatUpRight    // L D U R
  ]

  /** The hat chain: starting from 0, eight conditional overwrites, the last
      one that fires wins. Agrees with the table on every mask. */
  function HatOf(btn: bv32): (hat: bv8)
    ensures hat == HatTable[DirectionIndex(btn)]
  {
    var h0: bv8 := 0;
    var h1 := if Pressed(btn, MaskLeft) then HatLeft else h0;
    var h2 := if Pressed(btn, MaskDown) then HatDown else h1;
    var h3 := if Pressed(btn, MaskUp) then HatUp else h2;
    var h4 := if Pressed(btn, MaskRight) then HatRight else h3;
    var h5 := if Pressed(btn, MaskLeft) && Pressed(btn, MaskDown) then HatDownLeft else h4;
    var h6 := if Pressed(btn, MaskRight) && Pressed(btn, MaskDown) then HatDownRight else h5;
    var h7 := if Pressed(btn, MaskLeft) && Pressed(btn, MaskUp) then HatUpLeft else h6;
    var h8 := if Pressed(btn, MaskRight) && Pressed(btn, MaskUp) then HatUpRight else h7;
    h8
  }

  /** The eleven `report.buttons |= btn & m ? BUTTON : 0` lines, in order:
      source mask bit, then the report bit it selects. */
  const ButtonMap: seq<(bv32, bv16)> := [
    (MaskA, ButtonA), (MaskB, ButtonB), (MaskX, ButtonX), (MaskY, ButtonY),
    (MaskSelect, ButtonSelect), (MaskStart, ButtonStart), (MaskMode, ButtonMode),
    (MaskR, ButtonTR), (MaskZR, ButtonTR2), (MaskL, ButtonTL), (MaskZL, ButtonTL2)
  ]

  lemma ButtonMapDistinct()
    ensures DistinctSingleBits(ButtonMap)
  {
  }

  /** The button field: each TinyUSB button bit is set exactly when the mask
      bit mapped to it is set, and a bit outside every mapped button bit is
      never set. */
  function ButtonsOf(btn: bv32): (buttons: bv16)
    ensures forall j :: 0 <= j < |ButtonMap| ==>
              (!Disjoint(buttons, ButtonMap[j].1) <==> Pressed(btn, ButtonMap[j].0))
    ensures forall c: bv16 :: (forall j :: 0 <= j < |ButtonMap| ==> Disjoint(ButtonMap[j].1, c)) ==> Disjoint(buttons, c)
  {
    ButtonMapDistinct();
    var fire := Firing(btn, ButtonMap);
    forall j | 0 <= j < |ButtonMap|
      ensures !Disjoint(OrFirst(fire, ButtonMap, |ButtonMap|), ButtonMap[j].1) <==> Pressed(btn, ButtonMap[j].0)
    {
      OrFirstBit(fire, ButtonMap, |ButtonMap|, j);
    }
    forall c: bv16 | forall j :: 0 <= j < |ButtonMap| ==> Disjoint(ButtonMap[j].1, c)
      ensures Disjoint(OrFirst(fire, ButtonMap, |ButtonMap|), c)
    {
      OrFirstOnlyMapped(fire, ButtonMap, |ButtonMap|, c);
    }
    OrMapped(btn, ButtonMap)
  }

  /** Every mask bit the button map reads is a non-direction bit. */
  lemma ButtonMapReadsFaceBits(j: nat)
    requires j < |ButtonMap|
    ensures ButtonMap[j].0 & FaceBits == ButtonMap[j].0
  {
  }

  /** Masks that agree on the non-direction bits fire the same button lines. */
  lemma FiringReadsFaceBitsOnly(a: bv32, b: bv32)
    requires a & FaceBits == b & FaceBits
    ensures Firing(a, ButtonMap) == Firing(b, ButtonMap)
  {
    forall j | 0 <= j < |ButtonMap| ensures Pressed(a, ButtonMap[j].0) <==> Pressed(b, ButtonMap[j].0) {
      ButtonMapReadsFaceBits(j);
      SameUnderMask(a, b, FaceBits, ButtonMap[j].0);
    }
  }

  /** The button field depends only on the eleven non-direction bits. */
  lemma ButtonsReadFaceBitsOnly(a: bv32, b: bv32)
    requires a & FaceBits == b & FaceBits
    ensures ButtonsOf(a) == ButtonsOf(b)
  {
    FiringReadsFaceBitsOnly(a, b);
  }

  /** The hat depends only on the four direction bits. */
  lemma HatReadsDirectionBitsOnly(a: bv32, b: bv32)
    requires a & DirectionBits == b & DirectionBits
    ensures HatOf(a) == HatOf(b)
  {
    SameUnderMask(a, b, DirectionBits, MaskLeft);
    SameUnderMask(a, b, DirectionBits, MaskDown);
    SameUnderMask(a, b, DirectionBits, MaskUp);
    SameUnderMask(a, b, DirectionBits, MaskRight);
  }

  /** The button field is nonzero exactly when a non-direction button is pressed. */
  lemma ButtonsNonzeroIffFacePressed(btn: bv32)
    ensures ButtonsOf(btn) != 0 <==> btn & FaceBits != 0
  {
    if btn & FaceBits == 0 {
      forall j | 0 <= j < |ButtonMap| ensures !Pressed(btn, ButtonMap[j].0) {
        ButtonMapReadsFaceBits(j);
        SameUnderMask(btn, 0, FaceBits, ButtonMap[j].0);
      }
      OrFirstNoneFiring(Firing(btn, ButtonMap), ButtonMap, |ButtonMap|);
    } else {
      var j := FacePressedEntry(btn);
      assert !Disjoint(ButtonsOf(btn), ButtonMap[j].1);
    }
  }

  /** An entry of the button map whose mask bit is set, when some
      non-direction bit is set. */
  function FacePressedEntry(btn: bv32): (j: nat)
    requires btn & FaceBits != 0
    ensures j < |ButtonMap| && Pressed(btn, ButtonMap[j].0)
  {
    if Pressed(btn, MaskA) then 0 else if Pressed(btn, MaskB) then 1
    else if Pressed(btn, MaskX) then 2 else if Pressed(btn, MaskY) then 3
    else if Pressed(btn, MaskSelect) then 4 else if Pressed(btn, MaskStart) then 5
    else if Pressed(btn, MaskMode) then 6 else if Pressed(btn, MaskR) then 7
    else if Pressed(btn, MaskZR) then 8 else if Pressed(btn, MaskL) then 9
    else 10
  }

  /** The hat leaves CENTERED exactly when a direction button is pressed. */
  lemma HatCenteredIffNoDirection(btn: bv32)
    ensures HatOf(btn) == HatCentered <==> btn & DirectionBits == 0
  {
  }

  /** With exactly one direction bit set the hat is that cardinal direction. */
  lemma HatSingleDirection(btn: bv32)
    ensures btn & DirectionBits == MaskLeft ==> HatOf(btn) == HatLeft
    ensures btn & DirectionBits == MaskDown ==> HatOf(btn) == HatDown
    ensures btn & DirectionBits == MaskUp ==> HatOf(btn) == HatUp
    ensures btn & DirectionBits == MaskRight ==> HatOf(btn) == HatRight
  {
  }

  /** Two adjacent direction bits alone give the diagonal between them. */
  lemma HatDiagonal(btn: bv32)
    ensures btn & DirectionBits == MaskLeft | MaskDown ==> HatOf(btn) == HatDownLeft
    ensures btn & DirectionBits == MaskRight | MaskDown ==> HatOf(btn) == HatDownRight
    ensures btn & DirectionBits == MaskLeft | MaskUp ==> HatOf(btn) == HatUpLeft
    ensures btn & DirectionBits == MaskRight | MaskUp ==> HatOf(btn) == HatUpRight
  {
  }

  /** Later assignments of the chain win: what the chain gives for the
      combinations that are not a plain cardinal or a plain diagonal. */
  lemma HatOverwriteOrder(btn: bv32)
    ensures btn & DirectionBits == MaskLeft | MaskUp | MaskRight ==> HatOf(btn) == HatUpRight
    ensures btn & DirectionBits == MaskLeft | MaskRight ==> HatOf(btn) == HatRight
    ensures btn & DirectionBits == MaskUp | MaskDown ==> HatOf(btn) == HatUp
    ensures btn & DirectionBits == MaskLeft | MaskRight | MaskDown ==> HatOf(btn) == HatDownRight
    ensures btn & DirectionBits == DirectionBits ==> HatOf(btn) == HatUpRight
  {
  }

  /** The report for a mask: a nonzero mask goes through the hat chain and
      the button map, a zero mask gives the centered, button-free report.
      Either way the axes are 0 and the report carries the hat chain and the
      button map of the mask. */
  function BuildReport(btn: bv32): (r: Report)
    ensures r.x == 0 && r.y == 0 && r.z == 0 && r.rz == 0
    ensures r.hat == HatOf(btn) && r.buttons == ButtonsOf(btn)
  {
    if btn != 0 then
      Report(0, 0, 0, 0, HatOf(btn), ButtonsOf(btn))
    else
      OrFirstNoneFiring(Firing(btn, ButtonMap), ButtonMap, |ButtonMap|);
      Report(0, 0, 0, 0, HatCentered, 0)
  }

  /** A report is the idle report exactly when no button bit of the mask is
      set. */
  lemma BuildReportIdleIff(btn: bv32)
    ensures BuildReport(btn) == IdleReport <==> btn & AllButtons == 0
  {
    ButtonsNonzeroIffFacePressed(btn);
    HatCenteredIffNoDirection(btn);
  }

  /** Up and A held, everything else released: the pins sample to the mask
      with bits 2 and 4, and the report has hat UP and only the A button. */
  lemma UpAndAReport()
    ensures MaskUp | MaskA == 0x14
    ensures GetButtonsPressed(LevelsFor(MaskUp | MaskA)) == 0x14
    ensures BuildReport(MaskUp | MaskA) == Report(0, 0, 0, 0, HatUp, ButtonA)
  {
    SampleLevelsFor(MaskUp | MaskA);
    UpAndAButtons();
  }

  lemma UpAndAButtons()
    ensures ButtonsOf(MaskUp | MaskA) == ButtonA
  {
    var fire := Firing(MaskUp | MaskA, ButtonMap);
    assert fire[0];
    assert forall i :: 1 <= i < |ButtonMap| ==> !fire[i];
    OrFirstSingle(fire, ButtonMap, |ButtonMap|, 0);
  }
}
