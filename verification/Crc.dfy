/** The table-driven CRC-32, the bit-by-bit polynomial division it stands for, and the bursts it detects. */
module Crc {

  // ---------- Words ----------

  // An unsigned word is its bits, most significant first.
  type Bits = seq<bool>
  type Byte = b: Bits | |b| == 8 witness Zeros(8)
  type Word = w: Bits | |w| == 32 witness Zeros(32)

  function Zeros(n: nat): (z: Bits)
    ensures |z| == n && forall i :: 0 <= i < n ==> !z[i]
  {
    seq(n, _ => false)
  }

  function Ones(n: nat): (z: Bits)
    ensures |z| == n && forall i :: 0 <= i < n ==> z[i]
  {
    seq(n, _ => true)
  }

  function Xor(a: Bits, b: Bits): (r: Bits)
    requires |a| == |b|
    ensures |r| == |a| && forall i :: 0 <= i < |r| ==> r[i] == (a[i] != b[i])
  {
    seq(|a|, i requires 0 <= i < |a| => a[i] != b[i])
  }

  function Not(w: Word): Word {
    Xor(w, Ones(32))
  }

  /** The byte above 24 zero bits. */
  function AtTop(b: Byte): Word {
    b + Zeros(24)
  }

  function SwapBytes(w: Word): Word {
    w[24..] + w[16..24] + w[8..16] + w[..8]
  }

  function Value(b: Bits): nat {
    if b == [] then 0 else 2 * Value(b[..|b| - 1]) + if b[|b| - 1] then 1 else 0
  }

  function BitsOf(v: nat, n: nat): (b: Bits)
    ensures |b| == n
  {
    if n == 0 then [] else BitsOf(v / 2, n - 1) + [v % 2 == 1]
  }

  lemma {:induction false} BitsOfValue(b: Bits)
    ensures BitsOf(Value(b), |b|) == b
  {
    if b != [] {
      BitsOfValue(b[..|b| - 1]);
    }
  }

  function PowerOfTwo(n: nat): nat {
    if n == 0 then 1 else 2 * PowerOfTwo(n - 1)
  }

  lemma {:induction false} ValueFits(b: Bits)
    ensures Value(b) < PowerOfTwo(|b|)
  {
    if b != [] {
      ValueFits(b[..|b| - 1]);
    }
  }

  lemma ByteValue(b: Byte)
    ensures Value(b) < 256
  {
    ValueFits(b);
    assert PowerOfTwo(4) == 16;
    assert PowerOfTwo(8) == 256;
  }

  // ---------- The shift register ----------

  /** The generator polynomial of section 3.2.9 of IEEE Std 802.3 without its leading term: 0x04c11db7. */
  function Poly(): (p: Word)
    ensures p[31]
  {
    var hex := "00000100110000010001110110110111";
    seq(32, i requires 0 <= i < 32 => hex[i] == '1')
  }

  // Its terms are those of x^32 + x^26 + x^23 + x^22 + x^16 + x^12 + x^11 + x^10 + x^8 + x^7 + x^5 + x^4 + x^2 + x + 1.
  lemma GeneratorTerms(e: nat)
    requires e < 32
    ensures Poly()[31 - e] <==> e in {26, 23, 22, 16, 12, 11, 10, 8, 7, 5, 4, 2, 1, 0}
  {
  }

  /** Shift the register once; a bit shifted out subtracts the polynomial. */
  function ShiftOnce(c: Word): Word {
    var shifted := c[1..] + [false];
    if c[0] then Xor(shifted, Poly()) else shifted
  }

  function Shift(c: Word, n: nat): Word {
    if n == 0 then c else ShiftOnce(Shift(c, n - 1))
  }

  /** The register before a shift. */
  function UnshiftOnce(c: Word): Word {
    if c[31] then [true] + Xor(c, Poly())[..31] else [false] + c[..31]
  }

  lemma ShiftUndoesUnshift(c: Word)
    ensures ShiftOnce(UnshiftOnce(c)) == c
  {
    hide Poly;
    var u := UnshiftOnce(c);
    assert forall i :: 1 <= i < 32 ==> u[i] == (c[i - 1] != (c[31] && Poly()[i - 1]));
  }

  lemma UnshiftUndoesShift(c: Word)
    ensures UnshiftOnce(ShiftOnce(c)) == c
  {
    hide Poly;
    var d := ShiftOnce(c);
    assert d[31] == c[0];
    assert forall i :: 0 <= i < 31 ==> d[i] == (c[i + 1] != (c[0] && Poly()[i]));
  }

  // Each shift is a bijection on 32-bit registers, because the polynomial is odd.
  lemma ShiftBijective(c: Word)
    ensures ShiftOnce(UnshiftOnce(c)) == c
    ensures UnshiftOnce(ShiftOnce(c)) == c
  {
    ShiftUndoesUnshift(c);
    UnshiftUndoesShift(c);
  }

  lemma {:induction false} ShiftInjective(a: Word, b: Word, n: nat)
    ensures Shift(a, n) == Shift(b, n) <==> a == b
  {
    if n > 0 {
      ShiftInjective(a, b, n - 1);
      ShiftBijective(Shift(a, n - 1));
      ShiftBijective(Shift(b, n - 1));
    }
  }

  lemma {:induction false} ShiftSurjective(c: Word, n: nat) returns (s: Word)
    ensures Shift(s, n) == c
    decreases n
  {
    s := c;
    if n > 0 {
      ShiftBijective(c);
      s := ShiftSurjective(UnshiftOnce(c), n - 1);
    }
  }

  lemma ShiftOnceLinear(a: Word, b: Word)
    ensures ShiftOnce(Xor(a, b)) == Xor(ShiftOnce(a), ShiftOnce(b))
  {
  }

  lemma {:induction false} ShiftLinear(a: Word, b: Word, n: nat)
    ensures Shift(Xor(a, b), n) == Xor(Shift(a, n), Shift(b, n))
  {
    if n > 0 {
      ShiftLinear(a, b, n - 1);
      ShiftOnceLinear(Shift(a, n - 1), Shift(b, n - 1));
    }
  }

  // A shift before n others is a shift after them.
  lemma {:induction false} ShiftFirst(c: Word, n: nat)
    ensures Shift(ShiftOnce(c), n) == Shift(c, n + 1)
  {
    if n > 0 {
      ShiftFirst(c, n - 1);
    }
  }

  // Leading zeros are shifted out without touching the polynomial.
  lemma {:induction false} ShiftZeros(n: nat, rest: Bits)
    requires n + |rest| == 32
    ensures Shift(Zeros(n) + rest, n) == rest + Zeros(n)
    decreases n
  {
    if n > 0 {
      var c := Zeros(n) + rest;
      assert c[1..] + [false] == Zeros(n - 1) + (rest + [false]);
      ShiftZeros(n - 1, rest + [false]);
      ShiftFirst(c, n - 1);
      assert (rest + [false]) + Zeros(n - 1) == rest + Zeros(n);
    } else {
      assert Zeros(0) + rest == rest == rest + Zeros(0);
    }
  }

  // ---------- Bit-serial division ----------

  /** Feed one message bit, most significant first, into the top of the register. */
  function FeedBit(c: Word, bit: bool): Word {
    ShiftOnce(Xor(c, [bit] + Zeros(31)))
  }

  function Feed(c: Word, message: Bits): Word {
    if message == [] then c else FeedBit(Feed(c, message[..|message| - 1]), message[|message| - 1])
  }

  lemma {:induction false} FeedAppend(c: Word, a: Bits, b: Bits)
    ensures Feed(c, a + b) == Feed(Feed(c, a), b)
  {
    if b == [] {
      assert a + b == a;
    } else {
      FeedAppend(c, a, b[..|b| - 1]);
      assert (a + b)[..|a + b| - 1] == a + b[..|b| - 1];
    }
  }

  lemma NoShift(c: Word)
    ensures Shift(c, 0) == c
  {
  }

  lemma LastShift(c: Word, n: nat)
    ensures Shift(c, n + 1) == ShiftOnce(Shift(c, n))
  {
  }

  // Up to 32 message bits may be added at the top first and shifted through afterwards.
  lemma {:induction false} FeedIsShift(c: Word, bits: Bits)
    requires |bits| <= 32
    ensures Feed(c, bits) == Shift(Xor(c, bits + Zeros(32 - |bits|)), |bits|)
  {
    hide ShiftOnce;
    if bits == [] {
      assert Xor(c, bits + Zeros(32)) == c;
    } else {
      hide Shift;
      var k := |bits| - 1;
      var init, bit := bits[..k], bits[k];
      var placed: Word := Zeros(k) + ([bit] + Zeros(31 - k));
      FeedIsShift(c, init);
      ShiftZeros(k, [bit] + Zeros(31 - k));
      assert ([bit] + Zeros(31 - k)) + Zeros(k) == [bit] + Zeros(31);
      var before := Xor(c, init + Zeros(32 - k));
      ShiftLinear(before, placed, k);
      assert Xor(before, placed) == Xor(c, bits + Zeros(31 - k));
      LastShift(Xor(before, placed), k);
    }
  }

  // ---------- Long division ----------

  /** Schoolbook division of a polynomial over GF(2): bring down the next bit, subtract if it fits. */
  function BringDown(c: Word, bit: bool): Word {
    var shifted := c[1..] + [bit];
    if c[0] then Xor(shifted, Poly()) else shifted
  }

  /** The remainder of s followed by the message. */
  function Remainder(s: Word, message: Bits): Word {
    if message == [] then s else BringDown(Remainder(s, message[..|message| - 1]), message[|message| - 1])
  }

  lemma {:induction false} RemainderZeros(s: Word, message: Bits, n: nat)
    ensures Remainder(s, message + Zeros(n)) == Shift(Remainder(s, message), n)
  {
    if n == 0 {
      assert message + Zeros(0) == message;
    } else {
      RemainderZeros(s, message, n - 1);
      assert (message + Zeros(n))[..|message| + n - 1] == message + Zeros(n - 1);
    }
  }

  // ---------- What dividing means ----------

  /** The product of a quotient and the generator, as polynomials over GF(2), 32 places longer than the quotient. */
  function TimesGenerator(q: Bits): (r: Bits)
    ensures |r| == |q| + 32
  {
    if q == [] then Zeros(32)
    else
      var last := |q| - 1;
      Xor(TimesGenerator(q[..last]) + [false], Zeros(last) + if q[last] then [true] + Poly() else Zeros(33))
  }

  lemma XorInParts(a: Bits, b: Bits, c: Bits, d: Bits)
    requires |a| == |c| && |b| == |d|
    ensures Xor(a + b, c + d) == Xor(a, c) + Xor(b, d)
  {
  }

  lemma XorRegroup(a: Bits, b: Bits, c: Bits)
    requires |a| == |b| == |c|
    ensures Xor(Xor(a, b), c) == Xor(a, Xor(b, c))
  {
  }

  // The register before a bit is brought down, and the subtraction it makes.
  lemma OneSubtraction(c: Word, bit: bool)
    ensures c + [bit] == Xor(if c[0] then [true] + Poly() else Zeros(33), [false] + BringDown(c, bit))
  {
    hide Poly;
    var x, y := c + [bit], Xor(if c[0] then [true] + Poly() else Zeros(33), [false] + BringDown(c, bit));
    forall i | 0 <= i < 33 ensures x[i] == y[i] {
      if i > 0 { assert (c[1..] + [bit])[i - 1] == x[i]; }
    }
  }

  lemma OneMoreZero(n: nat, w: Word)
    ensures Zeros(n) + ([false] + w) == Zeros(n + 1) + w
  {
    assert Zeros(n + 1) == Zeros(n) + [false];
  }

  // One more message bit: one more bit of the quotient, and the next remainder.
  lemma DivisionStep(q: Bits, c: Word, bit: bool)
    ensures Xor(TimesGenerator(q), Zeros(|q|) + c) + [bit]
         == Xor(TimesGenerator(q + [c[0]]), Zeros(|q| + 1) + BringDown(c, bit))
  {
    hide TimesGenerator, BringDown, Poly, Xor, Zeros;
    TimesOneMore(q, c[0]);
    OneSubtraction(c, bit);
    OneMoreZero(|q|, BringDown(c, bit));
    BroughtDown(TimesGenerator(q), c, |q|, bit, if c[0] then [true] + Poly() else Zeros(33), [false] + BringDown(c, bit));
  }

  lemma NothingDivided(s: Word)
    ensures s + [] == Xor(TimesGenerator([]), Zeros(0) + Remainder(s, []))
  {
    assert Zeros(0) + s == s;
  }

  /** The message, behind s, is a multiple of the generator plus the remainder. */
  lemma {:induction false} RemainderRemains(s: Word, message: Bits) returns (q: Bits)
    ensures |q| == |message|
    ensures s + message == Xor(TimesGenerator(q), Zeros(|message|) + Remainder(s, message))
  {
    hide TimesGenerator, BringDown, Xor, Zeros;
    if message == [] {
      q := [];
      NothingDivided(s);
    } else {
      var init, bit := message[..|message| - 1], message[|message| - 1];
      q := RemainderRemains(s, init);
      var c := Remainder(s, init);
      DivisionStep(q, c, bit);
      RemainderStep(s, message);
      q := q + [c[0]];
    }
  }

  lemma RemainderStep(s: Word, message: Bits)
    requires message != []
    ensures var init, bit := message[..|message| - 1], message[|message| - 1];
            s + message == (s + init) + [bit] && Remainder(s, message) == BringDown(Remainder(s, init), bit)
  {
    hide BringDown;
  }

  lemma TimesOneMore(q: Bits, bit: bool)
    ensures TimesGenerator(q + [bit])
         == Xor(TimesGenerator(q) + [false], Zeros(|q|) + if bit then [true] + Poly() else Zeros(33))
  {
    hide Xor, Poly, Zeros;
    var more := q + [bit];
    assert more[..|more| - 1] == q && more[|more| - 1] == bit;
  }

  lemma XorBits(n: nat, bit: bool)
    ensures Xor(Zeros(n), Zeros(n)) == Zeros(n) && Xor([false], [bit]) == [bit]
  {
  }

  lemma BroughtDown(product: Bits, c: Word, n: nat, bit: bool, subtracted: Bits, down: Bits)
    requires |product| == n + 32 && |subtracted| == |down| == 33 && c + [bit] == Xor(subtracted, down)
    ensures Xor(product, Zeros(n) + c) + [bit] == Xor(Xor(product + [false], Zeros(n) + subtracted), Zeros(n) + down)
  {
    hide Xor;
    XorBits(n, bit);
    XorInParts(product, [false], Zeros(n) + c, [bit]);
    assert (Zeros(n) + c) + [bit] == Zeros(n) + Xor(subtracted, down);
    XorInParts(Zeros(n), subtracted, Zeros(n), down);
    XorRegroup(product + [false], Zeros(n) + subtracted, Zeros(n) + down);
  }

  // Feeding bits at the top keeps the register 32 shifts ahead of long division.
  lemma {:induction false} FeedIsRemainder(s: Word, message: Bits)
    ensures Feed(Shift(s, 32), message) == Remainder(s, message + Zeros(32))
  {
    RemainderZeros(s, message, 32);
    if message != [] {
      var init, bit := message[..|message| - 1], message[|message| - 1];
      FeedIsRemainder(s, init);
      RemainderZeros(s, init, 32);
      BringDownAhead(Remainder(s, init), bit);
    }
  }

  lemma BringDownAhead(r: Word, bit: bool)
    ensures Shift(BringDown(r, bit), 32) == FeedBit(Shift(r, 32), bit)
  {
    var low: Word, top: Word := Zeros(31) + [bit], [bit] + Zeros(31);
    assert BringDown(r, bit) == Xor(ShiftOnce(r), low);
    ShiftLinear(ShiftOnce(r), low, 32);
    ShiftFirst(r, 32);
    ShiftZeros(31, [bit]);
    assert Shift(low, 32) == ShiftOnce(top);
    ShiftOnceLinear(Shift(r, 32), top);
  }

  // ---------- The table ----------

  /** What the table must hold for a byte: the byte at the top of the register, shifted eight times. */
  function Entry(b: Byte): Word {
    Shift(AtTop(b), 8)
  }

  /** One step of the table-driven loop. */
  function TableStep(crc: Word, b: Byte): Word {
    Xor(crc[8..] + Zeros(8), Entry(Xor(crc[..8], b)))
  }

  // Looking up eight bits at once is feeding them one at a time.
  lemma TableStepIsFeed(crc: Word, b: Byte)
    ensures TableStep(crc, b) == Feed(crc, b)
  {
    var top := Xor(crc[..8], b);
    FeedIsShift(crc, b);
    assert Xor(crc, AtTop(b)) == Xor(AtTop(top), Zeros(8) + crc[8..]);
    ShiftLinear(AtTop(top), Zeros(8) + crc[8..], 8);
    ShiftZeros(8, crc[8..]);
  }

  function Flat(buf: seq<Byte>): Bits {
    if buf == [] then [] else Flat(buf[..|buf| - 1]) + buf[|buf| - 1]
  }

  /** The checksum, by dividing bit by bit: preload with ones, complement, reverse the bytes. */
  function Checksum(buf: seq<Byte>): Word {
    SwapBytes(Not(Feed(Ones(32), Flat(buf))))
  }

  /**
   * The checksum is the complemented, byte-reversed remainder of the message times x^32, divided by the
   * generator polynomial after a fixed 32-bit prefix that leaves the preload, all ones, as its own remainder.
   */
  lemma ChecksumIsRemainder() returns (prefix: Word)
    ensures Remainder(prefix, Zeros(32)) == Ones(32)
    ensures forall buf: seq<Byte> :: Checksum(buf) == SwapBytes(Not(Remainder(prefix, Flat(buf) + Zeros(32))))
    ensures forall buf: seq<Byte>, i: nat :: i < 32 ==>
              Checksum(buf)[i] == !Remainder(prefix, Flat(buf) + Zeros(32))[8 * (3 - i / 8) + i % 8]
  {
    hide SwapBytes, Not, Remainder, Feed, Flat;
    prefix := ShiftSurjective(Ones(32), 32);
    PrefixRemains(prefix);
    forall buf: seq<Byte> ensures Checksum(buf) == SwapBytes(Not(Remainder(prefix, Flat(buf) + Zeros(32)))) {
      FeedIsRemainder(prefix, Flat(buf));
    }
    forall buf: seq<Byte>, i: nat | i < 32
      ensures Checksum(buf)[i] == !Remainder(prefix, Flat(buf) + Zeros(32))[8 * (3 - i / 8) + i % 8]
    {
      SwappedBytes(Remainder(prefix, Flat(buf) + Zeros(32)), i);
    }
  }

  lemma PrefixRemains(prefix: Word)
    ensures Remainder(prefix, Zeros(32)) == Shift(prefix, 32)
  {
    RemainderZeros(prefix, [], 32);
    assert [] + Zeros(32) == Zeros(32);
  }

  // Byte i of the output is byte 3 - i of the register, complemented.
  lemma SwappedBytes(w: Word, i: nat)
    requires i < 32
    ensures SwapBytes(Not(w))[i] == !w[8 * (3 - i / 8) + i % 8]
  {
  }

  // The message is fed byte after byte, each from its most significant bit.
  lemma {:induction false} FlatAt(buf: seq<Byte>, i: nat, j: nat)
    requires i < |buf| && j < 8
    ensures |Flat(buf)| == 8 * |buf| && Flat(buf)[8 * i + j] == buf[i][j]
    decreases |buf|
  {
    var last := |buf| - 1;
    if last > 0 {
      FlatAt(buf[..last], if i < last then i else last - 1, j);
    } else {
      assert Flat(buf[..0]) == [];
    }
  }

  method ComputeEntry(i: Byte) returns (c: Word)
    ensures c == Entry(i)
  {
    hide Shift, Poly, Xor;
    c := AtTop(i);
    NoShift(c);
    for j := 0 to 8
      invariant c == Shift(AtTop(i), j)
    {
      LastShift(AtTop(i), j);
      c := if c[0] then Xor(c[1..] + [false], Poly()) else c[1..] + [false];
    }
  }

  /** The process-wide table, filled on first use. */
  class CrcTable {
    const entries: array<Word>

    constructor ()
      ensures Valid() && fresh(entries) && AllZero()
    {
      entries := new Word[256](_ => Zeros(32));
    }

    ghost predicate AllZero()
      reads this, entries
    {
      entries.Length == 256 && forall i :: 0 <= i < 256 ==> entries[i] == Zeros(32)
    }

    ghost predicate Complete()
      reads this, entries
    {
      entries.Length == 256 && forall i :: 0 <= i < 256 ==> entries[i] == Entry(BitsOf(i, 8))
    }

    /** Between calls the table is all zero or completely correct. */
    ghost predicate Valid()
      reads this, entries
    {
      AllZero() || Complete()
    }

    method ComputeFddiTable()
      requires entries.Length == 256
      modifies entries
      ensures Complete()
    {
      hide Entry, BitsOf;
      for i := 0 to 256
        invariant forall k :: 0 <= k < i ==> entries[k] == Entry(BitsOf(k, 8))
      {
        entries[i] := ComputeEntry(BitsOf(i, 8));
      }
    }

    method CRCFddi(buf: seq<Byte>) returns (result: Word)
      requires Valid()
      modifies entries
      ensures Complete()
      ensures result == Checksum(buf)
    {
      hide Feed, Flat, Entry, Value, BitsOf;
      EntryOneNotZero();
      if entries[1] == Zeros(32) {
        ComputeFddiTable();
      }
      var crc: Word := Ones(32);
      NothingFed();
      assert buf[..0] == [];
      for i := 0 to |buf|
        invariant Complete()
        invariant crc == Feed(Ones(32), Flat(buf[..i]))
      {
        var index: Byte := Xor(crc[..8], buf[i]);
        ByteValue(index);
        BitsOfValue(index);
        FeedByte(buf, i, crc);
        crc := Xor(crc[8..] + Zeros(8), entries[Value(index)]);
      }
      assert buf[..|buf|] == buf;
      result := SwapBytes(Not(crc));
    }
  }

  lemma FeedByte(buf: seq<Byte>, i: nat, crc: Word)
    requires i < |buf| && crc == Feed(Ones(32), Flat(buf[..i]))
    ensures TableStep(crc, buf[i]) == Feed(Ones(32), Flat(buf[..i + 1]))
  {
    TableStepIsFeed(crc, buf[i]);
    assert buf[..i + 1][..i] == buf[..i];
    FeedAppend(Ones(32), Flat(buf[..i]), buf[i]);
  }

  lemma NothingFed()
    ensures Feed(Ones(32), Flat([])) == Ones(32)
  {
  }

  lemma OneIsOdd()
    ensures BitsOf(1, 8)[7]
  {
  }

  // A correct table is never mistaken for an empty one: the entry for 1 is not zero.
  lemma EntryOneNotZero()
    ensures Entry(BitsOf(1, 8)) != Zeros(32)
  {
    hide Shift, BitsOf;
    ShiftZeros(8, Zeros(24));
    assert Zeros(8) + Zeros(24) == Zeros(32) == Zeros(24) + Zeros(8);
    OneIsOdd();
    assert AtTop(BitsOf(1, 8))[7] && !Zeros(32)[7];
    ShiftInjective(AtTop(BitsOf(1, 8)), Zeros(32), 8);
  }

  // ---------- Bursts ----------

  lemma {:induction false} FeedInjective(a: Word, b: Word, message: Bits)
    ensures Feed(a, message) == Feed(b, message) <==> a == b
  {
    if message != [] {
      var init, bit := message[..|message| - 1], message[|message| - 1];
      var top: Word := [bit] + Zeros(31);
      FeedInjective(a, b, init);
      var x, y := Feed(a, init), Feed(b, init);
      ShiftInjective(Xor(x, top), Xor(y, top), 1);
      if Xor(x, top) == Xor(y, top) {
        assert x == Xor(Xor(x, top), top) && y == Xor(Xor(y, top), top);
      }
    }
  }

  // Different windows of up to 32 bits leave the register different.
  lemma WindowDetected(c: Word, a: Bits, b: Bits)
    requires |a| == |b| <= 32
    ensures Feed(c, a) == Feed(c, b) <==> a == b
  {
    var pad := Zeros(32 - |a|);
    FeedIsShift(c, a);
    FeedIsShift(c, b);
    ShiftInjective(Xor(c, a + pad), Xor(c, b + pad), |a|);
    if Xor(c, a + pad) == Xor(c, b + pad) {
      assert a + pad == Xor(Xor(c, a + pad), c) && b + pad == Xor(Xor(c, b + pad), c);
      assert a == (a + pad)[..|a|] && b == (b + pad)[..|a|];
    }
  }

  /** Two buffers that differ at most in 32 consecutive bits have the same checksum only if equal. */
  lemma BurstDetected(x: seq<Byte>, y: seq<Byte>, head: Bits, a: Bits, b: Bits, tail: Bits)
    requires |a| == |b| <= 32 && Flat(x) == head + a + tail && Flat(y) == head + b + tail
    ensures Checksum(x) == Checksum(y) <==> a == b
  {
    hide Feed, Flat, SwapBytes, Not;
    var start := Feed(Ones(32), head);
    FedInParts(head, a, tail);
    FedInParts(head, b, tail);
    WindowDetected(start, a, b);
    FeedInjective(Feed(start, a), Feed(start, b), tail);
    OutputInjective(Feed(Ones(32), Flat(x)), Feed(Ones(32), Flat(y)));
  }

  lemma FedInParts(head: Bits, window: Bits, tail: Bits)
    ensures Feed(Ones(32), head + window + tail) == Feed(Feed(Feed(Ones(32), head), window), tail)
  {
    FeedAppend(Ones(32), head + window, tail);
    FeedAppend(Ones(32), head, window);
  }

  lemma NotTwice(x: Word)
    ensures Not(Not(x)) == x
  {
  }

  lemma SwapTwice(x: Word)
    ensures SwapBytes(SwapBytes(x)) == x
  {
    var s := SwapBytes(x);
    assert s[..8] == x[24..] && s[8..16] == x[16..24] && s[16..24] == x[8..16] && s[24..] == x[..8];
    assert x == x[..8] + x[8..16] + x[16..24] + x[24..];
  }

  lemma OutputInjective(x: Word, y: Word)
    ensures SwapBytes(Not(x)) == SwapBytes(Not(y)) <==> x == y
  {
    hide SwapBytes, Not;
    NotTwice(x);
    NotTwice(y);
    SwapTwice(Not(x));
    SwapTwice(Not(y));
  }
}
