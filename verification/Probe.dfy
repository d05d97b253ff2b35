/** The one frame whose bytes the program spells out: the hardware version probe. Its
    checksum fixes the polynomial, the initial value, the final inversion and the order of
    bits and bytes. The division is redone on numbers, a bit at a time. */
module Probe {
  import opened Bytes
  import opened Crc16
  import opened Framing

  /** A number with one binary digit turned over. */
  function Flip(n: nat, j: nat): nat
    decreases j
  {
    if j == 0 then if n % 2 == 1 then n - 1 else n + 1 else 2 * Flip(n / 2, j - 1) + n % 2
  }

  lemma FlipHalf(n: nat, j: nat)
    ensures Flip(n, j) / 2 == if j == 0 then n / 2 else Flip(n / 2, j - 1)
    ensures Flip(n, j) % 2 == if j == 0 then 1 - n % 2 else n % 2
  {}

  lemma {:induction false} FlipBit(n: nat, j: nat, i: nat)
    ensures Bit(Flip(n, j), i) <==> (i == j) != Bit(n, i)
    decreases j
  {
    hide Flip;
    FlipHalf(n, j);
    if j > 0 && i > 0 {
      FlipBit(n / 2, j - 1, i - 1);
    }
  }

  /** The low sixteen binary digits of a number. */
  function WordOf(n: nat): Word {
    Digits(n, 16)
  }

  lemma {:induction false} DigitAt(n: nat, i: nat)
    requires i < 16
    ensures WordOf(n)[i] == Bit(n, 15 - i)
  {}

  lemma {:induction false} FlipWord(n: nat, j: nat)
    requires j < 16
    ensures WordOf(Flip(n, j)) == WordOf(n)[15 - j := !WordOf(n)[15 - j]]
  {
    forall i | 0 <= i < 16 ensures WordOf(Flip(n, j))[i] == ((i == 15 - j) != WordOf(n)[i]) {
      FlipBit(n, j, 15 - i);
    }
  }

  /** The number after one step of the division. */
  function Step(n: nat): nat {
    if Bit(n, 15) then Flip(Flip(Flip(2 * Flip(n, 15), 12), 5), 0) else 2 * n
  }

  lemma DoubleWord(n: nat)
    ensures WordOf(2 * n) == WordOf(n)[1..] + [false]
  {
    DigitsSplit(2 * n, 16);
    forall i | 0 <= i < 15 ensures WordOf(2 * n)[i] == WordOf(n)[i + 1] {
      assert Bit(2 * n, 15 - i) == Bit(n, 14 - i);
    }
  }

  lemma ShiftWord(n: nat)
    ensures Shift(WordOf(n)) == WordOf(Step(n))
  {
    hide Flip, Bit, Digits;
    DigitAt(n, 0);
    if Bit(n, 15) {
      var low := Flip(n, 15);
      FlipWord(n, 15);
      DoubleWord(low);
      assert WordOf(low)[1..] == WordOf(n)[1..];
      FlipWord(2 * low, 12);
      FlipWord(Flip(2 * low, 12), 5);
      FlipWord(Flip(Flip(2 * low, 12), 5), 0);
    } else {
      DoubleWord(n);
    }
  }

  lemma {:induction false} TopWord(n: nat)
    ensures Xor(WordOf(n), Top(true)) == WordOf(Flip(n, 15)) && Xor(WordOf(n), Top(false)) == WordOf(n)
  {
    hide Flip, Bit;
    FlipWord(n, 15);
    assert Xor(WordOf(n), Top(true)) == WordOf(n)[0 := !WordOf(n)[0]];
  }

  lemma {:induction false} FlipNumber(n: nat, j: nat)
    ensures Flip(n, j) == if Bit(n, j) then n - Pow2(j) else n + Pow2(j)
    decreases j
  {
    if j > 0 {
      FlipNumber(n / 2, j - 1);
    }
  }

  lemma HalfOfParts(n: nat, high: nat, low: nat, k: nat)
    requires n == high * Pow2(k) + low && low < Pow2(k) && k > 0
    ensures n / 2 == high * Pow2(k - 1) + low / 2 && low / 2 < Pow2(k - 1) && n % 2 == low % 2
  {
    var q := Pow2(k - 1);
    assert high * (2 * q) == 2 * (high * q);
  }

  lemma {:induction false} DigitValue(n: nat, j: nat, high: nat, low: nat)
    requires n == high * Pow2(j) + low && low < Pow2(j)
    ensures Bit(n, j) <==> high % 2 == 1
    decreases j
  {
    if j > 0 {
      HalfOfParts(n, high, low, j);
      DigitValue(n / 2, j - 1, high, low / 2);
    }
  }

  lemma Powers()
    ensures Pow2(0) == 1 && Pow2(5) == 0x20 && Pow2(12) == 0x1000 && Pow2(15) == 0x8000
  {}

  lemma {:induction false} DigitValues(n: nat)
    ensures Bit(n, 0) <==> n % 2 == 1
    ensures Bit(n, 5) <==> n / 0x20 % 2 == 1
    ensures Bit(n, 12) <==> n / 0x1000 % 2 == 1
    ensures Bit(n, 15) <==> n / 0x8000 % 2 == 1
  {
    hide Bit, Pow2;
    Powers();
    DigitValue(n, 0, n, 0);
    DigitValue(n, 5, n / 0x20, n % 0x20);
    DigitValue(n, 12, n / 0x1000, n % 0x1000);
    DigitValue(n, 15, n / 0x8000, n % 0x8000);
  }

  /** Turning over the digit worth p. */
  function Turned(n: int, p: nat): int
    requires p > 0
  {
    if n / p % 2 == 1 then n - p else n + p
  }

  lemma {:induction false} TurnedFlip(n: nat)
    ensures Flip(n, 0) == Turned(n, 1) && Flip(n, 5) == Turned(n, 0x20)
    ensures Flip(n, 12) == Turned(n, 0x1000) && Flip(n, 15) == Turned(n, 0x8000)
  {
    hide Flip, Bit, Pow2;
    Powers();
    DigitValues(n);
    FlipNumber(n, 0);
    FlipNumber(n, 5);
    FlipNumber(n, 12);
    FlipNumber(n, 15);
  }

  /** One step of the division, in numbers. */
  function Divided(n: int): int {
    if n / 0x8000 % 2 == 1 then Turned(Turned(Turned(2 * Turned(n, 0x8000), 0x1000), 0x20), 1) else 2 * n
  }

  lemma DividedStep(n: nat)
    ensures Step(n) == Divided(n)
  {
    hide Flip, Bit, Turned;
    DigitValues(n);
    TurnedFlip(n);
    if n / 0x8000 % 2 == 1 {
      var low := 2 * Flip(n, 15);
      TurnedFlip(low);
      TurnedFlip(Flip(low, 12));
      TurnedFlip(Flip(Flip(low, 12), 5));
    }
  }

  /** The number after one digit of the message. */
  function Fed(n: int, digit: bool): int {
    Divided(if digit then Turned(n, 0x8000) else n)
  }

  function Number(n: int, digits: seq<bool>): int
    decreases |digits|
  {
    if digits == [] then n else Number(Fed(n, digits[0]), digits[1..])
  }

  lemma {:induction false} NumberRegister(n: nat, digits: seq<bool>)
    ensures Number(n, digits) >= 0 && Register(WordOf(n), digits) == WordOf(Number(n, digits))
    decreases |digits|
  {
    hide Flip, Step, Divided, Turned, Bit;
    if digits != [] {
      var fed := if digits[0] then Flip(n, 15) else n;
      TurnedFlip(n);
      TopWord(n);
      ShiftWord(fed);
      DividedStep(fed);
      NumberRegister(Divided(fed), digits[1..]);
    }
  }

  lemma {:induction false} Nibble(n: int, digits: seq<bool>, steps: seq<int>)
    requires |digits| == |steps| == 4
    requires Fed(n, digits[0]) == steps[0] && Fed(steps[0], digits[1]) == steps[1]
    requires Fed(steps[1], digits[2]) == steps[2] && Fed(steps[2], digits[3]) == steps[3]
    ensures Number(n, digits) == steps[3]
  {
    hide Fed;
    var rest := digits[1..];
    assert Number(n, digits) == Number(steps[0], rest) == Number(steps[1], rest[1..])
        == Number(steps[2], rest[1..][1..]);
    assert rest[1..][1..][1..] == [] && Number(steps[3], []) == steps[3];
  }

  lemma LengthNumbers()
    ensures Number(0xFFFF, [false, false, false, false]) == 0x0E1F
    ensures Number(0x0E1F, [false, false, false, false]) == 0xE1F0
    ensures Number(0xE1F0, [false, false, false, false]) == 0xFECE
    ensures Number(0xFECE, [false, true, false, true]) == 0x4DAA
  {
    hide Number;
    Nibble(0xFFFF, [false, false, false, false], [0xEFDF, 0xCF9F, 0x8F1F, 0x0E1F]);
    Nibble(0x0E1F, [false, false, false, false], [0x1C3E, 0x387C, 0x70F8, 0xE1F0]);
    Nibble(0xE1F0, [false, false, false, false], [0xD3C1, 0xB7A3, 0x7F67, 0xFECE]);
    Nibble(0xFECE, [false, true, false, true], [0xEDBD, 0xDB7A, 0xA6D5, 0x4DAA]);
  }

  lemma PayloadNumbers()
    ensures Number(0x4DAA, [false, false, false, false]) == 0x9A24
    ensures Number(0x9A24, [false, true, false, false]) == 0x73ED
    ensures Number(0x73ED, [false, false, false, false]) == 0x4E37
    ensures Number(0x4E37, [false, false, false, false]) == 0xA3F4
    ensures Number(0xA3F4, [false, false, false, true]) == 0x8E2B
    ensures Number(0x8E2B, [false, false, false, true]) == 0x7399
  {
    hide Number;
    Nibble(0x4DAA, [false, false, false, false], [0x9B54, 0x2689, 0x4D12, 0x9A24]);
    Nibble(0x9A24, [false, true, false, false], [0x2469, 0x58F3, 0xB1E6, 0x73ED]);
    Nibble(0x73ED, [false, false, false, false], [0xE7DA, 0xDF95, 0xAF0B, 0x4E37]);
    Nibble(0x4E37, [false, false, false, false], [0x9C6E, 0x28FD, 0x51FA, 0xA3F4]);
    Nibble(0xA3F4, [false, false, false, true], [0x57C9, 0xAF92, 0x4F05, 0x8E2B]);
    Nibble(0x8E2B, [false, false, false, true], [0x0C77, 0x18EE, 0x31DC, 0x7399]);
  }

  lemma PowersOfByte()
    ensures Pow2(1) == 2 && Pow2(2) == 4 && Pow2(3) == 8 && Pow2(4) == 16 && Pow2(6) == 64 && Pow2(7) == 128
  {}

  lemma {:induction false} ByteDigitValues(b: Byte)
    ensures (Bit(b, 7) <==> b / 128 == 1) && (Bit(b, 6) <==> b / 64 % 2 == 1)
    ensures (Bit(b, 5) <==> b / 32 % 2 == 1) && (Bit(b, 4) <==> b / 16 % 2 == 1)
    ensures (Bit(b, 3) <==> b / 8 % 2 == 1) && (Bit(b, 2) <==> b / 4 % 2 == 1)
    ensures (Bit(b, 1) <==> b / 2 % 2 == 1) && (Bit(b, 0) <==> b % 2 == 1)
  {
    hide Bit, Pow2;
    Powers();
    PowersOfByte();
    DigitValue(b, 0, b, 0);
    DigitValue(b, 1, b / 2, b % 2);
    DigitValue(b, 2, b / 4, b % 4);
    DigitValue(b, 3, b / 8, b % 8);
    DigitValue(b, 4, b / 16, b % 16);
    DigitValue(b, 5, b / 32, b % 32);
    DigitValue(b, 6, b / 64, b % 64);
    DigitValue(b, 7, b / 128, b % 128);
  }

  lemma ByteDigits(b: Byte)
    ensures BitsOfByte(b) == [b / 128 == 1, b / 64 % 2 == 1, b / 32 % 2 == 1, b / 16 % 2 == 1]
                           + [b / 8 % 2 == 1, b / 4 % 2 == 1, b / 2 % 2 == 1, b % 2 == 1]
  {
    hide Bit, Pow2;
    ByteDigitValues(b);
  }

  /** A byte fed to the register, half by half. */
  lemma {:induction false} ByteFed(n: nat, b: Byte, high: seq<bool>, low: seq<bool>, half: nat, end: nat)
    requires BitsOfByte(b) == high + low && Number(n, high) == half && Number(half, low) == end
    ensures Register(WordOf(n), BitsOfByte(b)) == WordOf(end)
  {
    hide Number, Register, Digits;
    RegisterAppend(WordOf(n), high, low);
    NumberRegister(n, high);
    NumberRegister(half, low);
  }

  /** One more byte of a message fed to the register. */
  lemma {:induction false} OneMoreFed(data: seq<Byte>, all: seq<Byte>, n: nat, high: seq<bool>, low: seq<bool>,
                                      half: nat, end: nat)
    requires |all| == |data| + 1 && all[..|data|] == data
    requires Register(WordOf(0xFFFF), Bits(data)) == WordOf(n)
    requires BitsOfByte(all[|data|]) == high + low && Number(n, high) == half && Number(half, low) == end
    ensures Register(WordOf(0xFFFF), Bits(all)) == WordOf(end)
  {
    hide Number, Register, Digits, Bits;
    var b := all[|data|];
    assert all == data + [b];
    BitsAppend(data, [b]);
    BitsOne(b);
    RegisterAppend(WordOf(0xFFFF), Bits(data), BitsOfByte(b));
    ByteFed(n, b, high, low, half, end);
  }

  lemma NothingFed()
    ensures Register(WordOf(0xFFFF), Bits([])) == WordOf(0xFFFF)
  {}

  lemma LengthFed()
    ensures Register(WordOf(0xFFFF), Bits([0x00, 0x05])) == WordOf(0x4DAA)
  {
    hide Number, Register, Digits, Bits, WordOf, BitsOfByte;
    var n := [false, false, false, false];
    LengthNumbers();
    ByteDigits(0x00);
    ByteDigits(0x05);
    NothingFed();
    OneMoreFed([], [0x00], 0xFFFF, n, n, 0x0E1F, 0xE1F0);
    OneMoreFed([0x00], [0x00, 0x05], 0xE1F0, n, [false, true, false, true], 0xFECE, 0x4DAA);
  }

  lemma MessageFed()
    ensures Register(WordOf(0xFFFF), Bits([0x00, 0x05, 0x04, 0x00, 0x11])) == WordOf(0x7399)
  {
    hide Number, Register, Digits, Bits, WordOf, BitsOfByte;
    var n, t := [false, false, false, false], [false, false, false, true];
    PayloadNumbers();
    ByteDigits(0x04);
    ByteDigits(0x00);
    ByteDigits(0x11);
    LengthFed();
    OneMoreFed([0x00, 0x05], [0x00, 0x05, 0x04], 0x4DAA, n, [false, true, false, false], 0x9A24, 0x73ED);
    OneMoreFed([0x00, 0x05, 0x04], [0x00, 0x05, 0x04, 0x00], 0x73ED, n, n, 0x4E37, 0xA3F4);
    OneMoreFed([0x00, 0x05, 0x04, 0x00], [0x00, 0x05, 0x04, 0x00, 0x11], 0xA3F4, t, t, 0x8E2B, 0x7399);
  }

  lemma {:induction false} BitOfParts(n: nat, high: nat, low: nat, k: nat, i: nat)
    requires n == high * Pow2(k) + low && low < Pow2(k)
    ensures Bit(n, i) == if i < k then Bit(low, i) else Bit(high, i - k)
    decreases i
  {
    if k > 0 {
      HalfOfParts(n, high, low, k);
      if i > 0 {
        BitOfParts(n / 2, high, low / 2, k - 1, i - 1);
      }
    }
  }

  lemma WordParts(high: Byte, low: Byte)
    ensures WordOf(256 * high + low) == BitsOfByte(high) + BitsOfByte(low)
  {
    hide Bit;
    assert Pow2(8) == 256;
    var parts := BitsOfByte(high) + BitsOfByte(low);
    forall i | 0 <= i < 16 ensures WordOf(256 * high + low)[i] == parts[i] {
      BitOfParts(256 * high + low, high, low, 8, 15 - i);
    }
  }

  lemma OnesWord()
    ensures WordOf(0xFFFF) == ONES
  {
    hide WordOf, BitsOfByte;
    WordParts(0xFF, 0xFF);
    ByteDigits(0xFF);
  }

  lemma HalfInverted(n: nat, p: nat)
    requires n < 2 * p
    ensures (2 * p - 1 - n) / 2 == p - 1 - n / 2 && (2 * p - 1 - n) % 2 == 1 - n % 2
  {}

  lemma {:induction false} BitInverted(n: nat, k: nat, i: nat)
    requires n < Pow2(k) && i < k
    ensures Bit(Pow2(k) - 1 - n, i) == !Bit(n, i)
    decreases i
  {
    HalfInverted(n, Pow2(k - 1));
    if i > 0 {
      BitInverted(n / 2, k - 1, i - 1);
    }
  }

  lemma WordInverted(n: nat)
    requires n < 0x1_0000
    ensures Xor(WordOf(n), ONES) == WordOf(0xFFFF - n)
  {
    hide Bit;
    Powers();
    assert Pow2(16) == 0x1_0000;
    forall i | 0 <= i < 16 ensures WordOf(0xFFFF - n)[i] == !WordOf(n)[i] {
      BitInverted(n, 16, 15 - i);
    }
  }

  lemma InvertedWord()
    ensures Xor(WordOf(0x7399), ONES) == Bits([0x8C, 0x66])
  {
    hide WordOf, BitsOfByte, Bits;
    WordInverted(0x7399);
    WordParts(0x8C, 0x66);
    BitsTwo([0x8C, 0x66]);
  }

  /** The checksum of the probe is 8C66. */
  lemma {:induction false} ProbeChecksum()
    ensures WordBytes(Checksum([0x00, 0x05, 0x04, 0x00, 0x11])) == [0x8C, 0x66]
  {
    hide Register, Bits, WordOf, WordBytes;
    MessageFed();
    OnesWord();
    InvertedWord();
    WordBytesBits(Xor(WordOf(0x7399), ONES), [0x8C, 0x66]);
  }

  const PROBE: seq<Byte> := [0xD5, 0x00, 0x05, 0x04, 0x00, 0x11, 0x8C, 0x66]

  /** The probe as the program spells it out is a well-formed frame. */
  lemma {:induction false} ProbeUnframes()
    ensures Unframe(PROBE) == (Ok([0x04, 0x00, 0x11]), [])
  {
    hide Checksum, WordBytes, Unframe;
    var body: seq<Byte> := [0x04, 0x00, 0x11, 0x8C, 0x66];
    ProbeChecksum();
    assert LengthBytes(5) == [0x00, 0x05];
    assert LengthBytes(5) + body[..3] == [0x00, 0x05, 0x04, 0x00, 0x11];
    assert body[..3] == [0x04, 0x00, 0x11] && body[3..] == [0x8C, 0x66];
    assert Accepts(LengthBytes(5), body);
    UnframeParts(0xD5, 5, body, []);
    assert [0xD5] + LengthBytes(5) + body + [] == PROBE;
  }

  /** It goes out as it is; made of its payload like any other command it would differ in
      the prefix only. */
  lemma {:induction false} ProbeFrame()
    ensures Frame(PROBE) == PROBE
    ensures Frame([0x04, 0x00, 0x11]) == [0xD6] + PROBE[1..]
  {
    hide Checksum, WordBytes;
    var payload: seq<Byte> := [0x04, 0x00, 0x11];
    ProbeChecksum();
    assert LengthBytes(|payload| + 2) == [0x00, 0x05];
    assert [0x00, 0x05] + payload == [0x00, 0x05, 0x04, 0x00, 0x11];
    FrameParts(payload, [0x00, 0x05], [0x8C, 0x66]);
    var framed := [FRAME_PREFIX] + [0x00, 0x05] + (payload + [0x8C, 0x66]);
    assert framed == [0xD6, 0x00, 0x05, 0x04, 0x00, 0x11, 0x8C, 0x66];
    assert [0xD6] + PROBE[1..] == framed;
  }
}
