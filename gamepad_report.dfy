/** The gamepad input report of the controller firmware: the packed struct
    custom_hid_gamepad_report_t, the hat and button codes it carries, and its
    7-byte wire image. */
module GamepadReport {

  /** Hat switch codes (TinyUSB's hid_gamepad_hat_t). Nine pairwise-distinct
      values; CENTERED is 0, the value the report's hat starts from. */
  const HatCentered: bv8 := 0
  const HatUp: bv8 := 1
  const HatUpRight: bv8 := 2
  const HatRight: bv8 := 3
  const HatDownRight: bv8 := 4
  const HatDown: bv8 := 5
  const HatDownLeft: bv8 := 6
  const HatLeft: bv8 := 7
  const HatUpLeft: bv8 := 8

  /** Button bits (TinyUSB's hid_gamepad_button_bm_t): single bits of a uint16. */
  const ButtonA: bv16 := 1 << 0
  const ButtonB: bv16 := 1 << 1
  const ButtonX: bv16 := 1 << 3
  const ButtonY: bv16 := 1 << 4
  const ButtonTL: bv16 := 1 << 6
  const ButtonTR: bv16 := 1 << 7
  const ButtonTL2: bv16 := 1 << 8
  const ButtonTR2: bv16 := 1 << 9
  const ButtonSelect: bv16 := 1 << 10
  const ButtonStart: bv16 := 1 << 11
  const ButtonMode: bv16 := 1 << 12

  /** A value with exactly one bit set. */
  predicate SingleBit(c: bv16) {
    c != 0 && c & (c - 1) == 0
  }

  /** One report: four int8_t axes, each held as its two's-complement byte,
      the hat code and the button field. */
  datatype Report = Report(x: bv8, y: bv8, z: bv8, rz: bv8, hat: bv8, buttons: bv16)

  /** The report with nothing pressed: axes 0, hat CENTERED, no buttons. */
  const IdleReport := Report(0, 0, 0, 0, HatCentered, 0)

  /** sizeof(custom_hid_gamepad_report_t): the struct is packed. */
  const ReportSize := 7

  /** Low and high byte of a uint16, and the uint16 made of two bytes. */
  function LowByte(w: bv16): bv8 { (w & 0xFF) as bv8 }
  function HighByte(w: bv16): bv8 { (w >> 8) as bv8 }
  function JoinBytes(lo: bv8, hi: bv8): bv16 { (lo as bv16) | ((hi as bv16) << 8) }

  /** Splitting a uint16 into bytes and joining them back gives the word. */
  lemma SplitJoin(w: bv16)
    ensures JoinBytes(LowByte(w), HighByte(w)) == w
  {
  }

  /** Joining two bytes and splitting the word gives the bytes back. */
  lemma JoinSplit(lo: bv8, hi: bv8)
    ensures LowByte(JoinBytes(lo, hi)) == lo && HighByte(JoinBytes(lo, hi)) == hi
  {
  }

  /** The bytes handed to the transport: fields in declaration order, no
      padding, the uint16 button field little-endian (low byte first). */
  function Serialize(r: Report): (bytes: seq<bv8>)
    ensures |bytes| == ReportSize
    ensures bytes[..4] == [r.x, r.y, r.z, r.rz] && bytes[4] == r.hat
    ensures JoinBytes(bytes[5], bytes[6]) == r.buttons
  {
    SplitJoin(r.buttons);
    [r.x, r.y, r.z, r.rz, r.hat, LowByte(r.buttons), HighByte(r.buttons)]
  }

  /** How the host reads the 7 bytes back into a report. */
  function Deserialize(bytes: seq<bv8>): (r: Report)
    requires |bytes| == ReportSize
    ensures [r.x, r.y, r.z, r.rz] == bytes[..4] && r.hat == bytes[4]
    ensures LowByte(r.buttons) == bytes[5] && HighByte(r.buttons) == bytes[6]
  {
    JoinSplit(bytes[5], bytes[6]);
    Report(bytes[0], bytes[1], bytes[2], bytes[3], bytes[4], JoinBytes(bytes[5], bytes[6]))
  }

  /** Reading back what was serialised gives the same report. */
  lemma SerializeRoundTrip(r: Report)
    ensures Deserialize(Serialize(r)) == r
  {
    SplitJoin(r.buttons);
  }

  /** Every 7-byte image is the serialisation of the report read from it. */
  lemma DeserializeRoundTrip(bytes: seq<bv8>)
    requires |bytes| == ReportSize
    ensures Serialize(Deserialize(bytes)) == bytes
  {
    JoinSplit(bytes[5], bytes[6]);
  }

  /** The nine hat codes are pairwise distinct. */
  lemma HatCodesDistinct()
    ensures |{HatCentered, HatUp, HatUpRight, HatRight, HatDownRight,
              HatDown, HatDownLeft, HatLeft, HatUpLeft}| == 9
  {
  }
}
