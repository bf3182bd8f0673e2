/** Decoding of time tagger records and their conversion to picoseconds. */
module Nox {
  import opened Words

  ghost predicate AreBytes(r: seq<nat>) {
    forall i :: 0 <= i < |r| ==> r[i] < 0x100
  }

  type Record = r: seq<nat> | |r| == 8 && AreBytes(r) ghost witness [0, 0, 0, 0, 0, 0, 0, 0]

  const CONFIG := 0x25
  const DETECTION := 0x24

  datatype MessageType = Invalid | Config | Detection

  /** A tag as the report holds it. */
  datatype Tag = Tag(coarse: nat, fine: nat, channel: nat)

  // The fields are shifted into disjoint places, so or-ing them together is adding them up.
  function Coarse(b: Record): (coarse: nat)
    ensures coarse < 0x10_0000_0000
  {
    b[1] * 0x1000_0000 + b[2] * 0x10_0000 + b[3] * 0x1000 + b[4] * 0x10 + b[5] / 0x10
  }

  function Fine(b: Record): (fine: nat)
    ensures fine < 0x1000
  {
    b[6] % 0x10 * 0x100 + b[7]
  }

  /** Counted from one in the record and from zero in the tag, in eight bits: channel 0 wraps to 255. */
  function Channel(b: Record): (channel: nat)
    ensures channel < 0x100
  {
    (b[6] / 0x10 + 0xFF) % 0x100
  }

  function Decode(b: Record): Tag {
    Tag(Coarse(b), Fine(b), Channel(b))
  }

  /** The values a tag can hold after a record is loaded. */
  predicate TagFits(tag: Tag) {
    tag.coarse < 0x10_0000_0000 && tag.fine < 0x1000 && tag.channel < 0x100
  }

  /** The documented layout: 8 bits type, 36 coarse, 4 blank, 4 channel counted from one, 12 fine. */
  function Encode(tag: Tag): Record
    requires TagFits(tag)
  {
    var c := tag.coarse;
    [DETECTION, c / 0x1000_0000, c / 0x10_0000 % 0x100, c / 0x1000 % 0x100, c / 0x10 % 0x100, c % 0x10 * 0x10,
     (tag.channel + 1) % 0x10 * 0x10 + tag.fine / 0x100, tag.fine % 0x100]
  }

  /** The number the eight bytes form, most significant first. */
  function BigEndian(b: Record): nat {
    ((((((b[0] * 0x100 + b[1]) * 0x100 + b[2]) * 0x100 + b[3]) * 0x100 + b[4]) * 0x100 + b[5]) * 0x100 + b[6]) * 0x100 + b[7]
  }

  /**
   * The fields of a record side by side: 8 bits of type, 36 of coarse counter, 4 blank, 4 of channel counted from
   * one, 12 of fine counter.
   */
  lemma RecordLayout(b: Record) returns (blank: nat, channel: nat)
    ensures blank < 0x10 && channel < 0x10
    ensures BigEndian(b) == b[0] * 0x100_0000_0000_0000 + Coarse(b) * 0x10_0000 + blank * 0x1_0000 + channel * 0x1000 + Fine(b)
    ensures Channel(b) == if channel == 0 then 0xFF else channel - 1
  {
    blank, channel := b[5] % 0x10, b[6] / 0x10;
  }

  lemma CoarseOfDigits(c: nat)
    requires c < 0x10_0000_0000
    ensures c == c / 0x1000_0000 * 0x1000_0000 + c / 0x10_0000 % 0x100 * 0x10_0000 + c / 0x1000 % 0x100 * 0x1000
              + c / 0x10 % 0x100 * 0x10 + c % 0x10
  {
    assert c / 0x10 / 0x100 == c / 0x1000;
    assert c / 0x1000 / 0x100 == c / 0x10_0000;
    assert c / 0x10_0000 / 0x100 == c / 0x1000_0000;
  }

  lemma DigitsOfCoarse(b1: nat, b2: nat, b3: nat, b4: nat, low: nat)
    requires b1 < 0x100 && b2 < 0x100 && b3 < 0x100 && b4 < 0x100 && low < 0x10
    ensures var c := b1 * 0x1000_0000 + b2 * 0x10_0000 + b3 * 0x1000 + b4 * 0x10 + low;
            c / 0x1000_0000 == b1 && c / 0x10_0000 % 0x100 == b2 && c / 0x1000 % 0x100 == b3
            && c / 0x10 % 0x100 == b4 && c % 0x10 == low
  {
    var c := b1 * 0x1000_0000 + b2 * 0x10_0000 + b3 * 0x1000 + b4 * 0x10 + low;
    assert c / 0x10 == b1 * 0x100_0000 + b2 * 0x1_0000 + b3 * 0x100 + b4;
    assert c / 0x1000 == b1 * 0x1_0000 + b2 * 0x100 + b3;
    assert c / 0x10_0000 == b1 * 0x100 + b2;
  }

  lemma ChannelNibble(channel: nat, high: nat)
    requires channel < 0x100 && high < 0x10
    ensures ((channel + 1) % 0x10 + 0xFF) % 0x100 == channel <==> channel < 15 || channel == 255
    ensures ((high + 0xFF) % 0x100 + 1) % 0x10 == high
  {
  }

  // Loading an encoded tag gives the tag back exactly when its channel fits the record.
  lemma DecodeEncode(tag: Tag)
    requires TagFits(tag)
    ensures Decode(Encode(tag)) == tag <==> tag.channel < 15 || tag.channel == 255
  {
    var c, e, high := tag.coarse, Encode(tag), (tag.channel + 1) % 0x10;
    CoarseOfDigits(c);
    assert c % 0x10 * 0x10 / 0x10 == c % 0x10;
    assert e[6] / 0x10 == high && e[6] % 0x10 == tag.fine / 0x100;
    ChannelNibble(tag.channel, high);
  }

  // Decoding forgets only the type byte and the blank bits.
  lemma EncodeDecode(b: Record)
    ensures Encode(Decode(b)) == b <==> b[0] == DETECTION && b[5] % 0x10 == 0
  {
    var e := Encode(Decode(b));
    DigitsOfCoarse(b[1], b[2], b[3], b[4], b[5] / 0x10);
    ChannelNibble(0, b[6] / 0x10);
    assert e[5] == b[5] - b[5] % 0x10;
    assert e[7] == b[7] && e[6] == b[6];
  }

  // ---------- Conversion to picoseconds ----------

  /** Fine ticks since the start, in a 64-bit register; 4096 fine ticks make one coarse tick. */
  function Ticks(coarse: nat, fine: nat): nat {
    Wrap(coarse * 4096 + fine)
  }

  /** A tick lasts 3125/1664 picoseconds; the product wraps at 64 bits and the division truncates. */
  function PicoSeconds(tag: Tag): nat {
    Wrap(Ticks(tag.coarse, tag.fine) * 3125) / 1664
  }

  predicate Earlier(a: Tag, b: Tag) {
    a.coarse < b.coarse || (a.coarse == b.coarse && a.fine < b.fine)
  }

  // No register overflows for a 36-bit coarse and a 12-bit fine counter.
  lemma NoOverflow(tag: Tag)
    requires TagFits(tag)
    ensures PicoSeconds(tag) == (tag.coarse * 4096 + tag.fine) * 3125 / 1664
  {
  }

  // Over all records: times are ordered as the counters are, and equal only for equal counters.
  lemma TimesOrderTags(a: Record, b: Record)
    ensures PicoSeconds(Decode(a)) < PicoSeconds(Decode(b)) <==> Earlier(Decode(a), Decode(b))
    ensures PicoSeconds(Decode(a)) == PicoSeconds(Decode(b)) <==> Coarse(a) == Coarse(b) && Fine(a) == Fine(b)
  {
    hide Coarse, Fine, PicoSeconds;
    NoOverflow(Decode(a));
    NoOverflow(Decode(b));
  }

  /** The report object a record is loaded into; only a detection changes the tag. */
  class NoxReport {
    var messageType: MessageType
    var detection: Tag

    constructor ()
      ensures messageType == Invalid && detection == Tag(0, 0, 0)
    {
      messageType, detection := Invalid, Tag(0, 0, 0);
    }

    method LoadRaw(buffer: Record) returns (result: bool)
      modifies this
      ensures result <==> buffer[0] in {0x24, 0x25}
      ensures messageType == Detection <==> buffer[0] == 0x24
      ensures messageType == (if buffer[0] == DETECTION then Detection else if buffer[0] == CONFIG then Config else Invalid)
      ensures detection == if buffer[0] == DETECTION then Decode(buffer) else old(detection)
    {
      result := false;
      if buffer[0] == DETECTION {
        messageType := Detection;
        detection := Tag(Coarse(buffer), Fine(buffer), Channel(buffer));
        result := true;
      } else if buffer[0] == CONFIG {
        messageType := Config;
        result := true;
      } else {
        messageType := Invalid;
      }
    }

    method GetTime() returns (result: nat)
      ensures result == if messageType == Detection then PicoSeconds(detection) else 0
    {
      result := 0;
      if messageType == Detection {
        var ticks := Wrap(detection.coarse * 4096 + detection.fine);
        result := Wrap(ticks * 3125) / 1664;
      }
    }
  }
}
