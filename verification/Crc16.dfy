/** The reader's checksum: a CRC-16 with polynomial 0x1021, initial value 0xFFFF and
    final inversion. The program computes it a byte at a time from a table of 256
    remainders; the reference below divides one bit at a time. A machine word is the
    sequence of its bits, most significant first. */
module Crc16 {
  import opened Bytes

  /** A 16-bit word. */
  type Word = w: seq<bool> | |w| == 16 
    witness [false, false, false, false, false, false, false, false,
             false, false, false, false, false, false, false, false]

  function Zeros(n: nat): (z: seq<bool>)
    ensures |z| == n && forall i :: 0 <= i < n ==> !z[i]
  {
    seq(n, _ => false)
  }

  /** 0x1021 */
  const POLYNOMIAL: Word :=
    [false, false, false, true, false, false, false, false,
     false, false, true, false, false, false, false, true]

  /** 0xFFFF */
  const ONES: Word :=
    [true, true, true, true, true, true, true, true,
     true, true, true, true, true, true, true, true]

  function Xor(x: seq<bool>, y: seq<bool>): (z: seq<bool>)
    requires |x| == |y|
    ensures |z| == |x| && forall i :: 0 <= i < |z| ==> z[i] == (x[i] != y[i])
  {
    seq(|x|, i requires 0 <= i < |x| => x[i] != y[i])
  }

  // ---------------------------------------------------------------- bytes and bits

  function Pow2(k: nat): nat {
    if k == 0 then 1 else 2 * Pow2(k - 1)
  }

  /** Binary digit j of n, counted from the right. */
  predicate Bit(n: nat, j: nat)
    decreases j
  {
    if j == 0 then n % 2 == 1 else Bit(n / 2, j - 1)
  }

  /** The low k binary digits of n, most significant first. */
  function Digits(n: nat, k: nat): (bits: seq<bool>)
    ensures |bits| == k
  {
    seq(k, i requires 0 <= i < k => Bit(n, k - 1 - i))
  }

  function Value(bits: seq<bool>): (n: nat)
    ensures n < Pow2(|bits|)
  {
    if bits == [] then 0
    else 2 * Value(bits[..|bits| - 1]) + if bits[|bits| - 1] then 1 else 0
  }

  lemma DigitsSplit(n: nat, k: nat)
    requires k > 0
    ensures Digits(n, k)[..k - 1] == Digits(n / 2, k - 1) && Digits(n, k)[k - 1] == (n % 2 == 1)
  {
    forall i | 0 <= i < k - 1 ensures Digits(n, k)[i] == Digits(n / 2, k - 1)[i] {
      assert Bit(n, k - 1 - i) == Bit(n / 2, k - 2 - i);
    }
    assert Digits(n, k)[k - 1] == Bit(n, 0);
  }

  lemma {:induction false} ValueOfDigits(n: nat, k: nat)
    requires n < Pow2(k)
    ensures Value(Digits(n, k)) == n
    decreases k
  {
    if k == 0 {
      assert Digits(n, k) == [];
    } else {
      DigitsSplit(n, k);
      ValueOfDigits(n / 2, k - 1);
    }
  }

  lemma {:induction false} DigitsOfValue(bits: seq<bool>)
    ensures Digits(Value(bits), |bits|) == bits
  {
    if bits != [] {
      var n := |bits| - 1;
      DigitsOfValue(bits[..n]);
      assert Value(bits) / 2 == Value(bits[..n]);
      DigitsSplit(Value(bits), n + 1);
    }
  }

  function BitsOfByte(b: Byte): (bits: seq<bool>)
    ensures |bits| == 8
  {
    Digits(b, 8)
  }

  function ByteOfBits(bits: seq<bool>): Byte
    requires |bits| == 8
  {
    assert Pow2(8) == 256;
    Value(bits)
  }

  lemma ByteBitsRoundTrip(b: Byte)
    ensures ByteOfBits(BitsOfByte(b)) == b
  {
    assert Pow2(8) == 256;
    ValueOfDigits(b, 8);
  }

  lemma BitsByteRoundTrip(bits: seq<bool>)
    requires |bits| == 8
    ensures BitsOfByte(ByteOfBits(bits)) == bits
  {
    DigitsOfValue(bits);
  }

  function Bits(data: seq<Byte>): (bits: seq<bool>)
    ensures |bits| == 8 * |data|
  {
    if data == [] then [] else BitsOfByte(data[0]) + Bits(data[1..])
  }

  /** A word as two bytes, big-endian. */
  function WordBytes(w: Word): seq<Byte> {
    [ByteOfBits(w[..8]), ByteOfBits(w[8..])]
  }

  // ---------------------------------------------------------------- the reference

  /** One step of the division: shift left, subtract the polynomial when a one falls out. */
  function Shift(r: Word): Word {
    var s := r[1..] + [false];
    if r[0] then Xor(s, POLYNOMIAL) else s
  }

  function Top(bit: bool): Word {
    [bit] + Zeros(15)
  }

  /** The register after some more message bits. */
  function Register(r: Word, bits: seq<bool>): Word
    decreases |bits|
  {
    if bits == [] then r else Register(Shift(Xor(r, Top(bits[0]))), bits[1..])
  }

  /** Shifting n times is feeding n zeros. */
  function Shifts(r: Word, n: nat): Word {
    Register(r, Zeros(n))
  }

  /** The checksum of a message, bit by bit. */
  function Checksum(data: seq<Byte>): Word {
    Xor(Register(ONES, Bits(data)), ONES)
  }

  /** At most sixteen bits, left aligned in a word. */
  function Pad(bits: seq<bool>): Word
    requires |bits| <= 16
  {
    bits + Zeros(16 - |bits|)
  }

  // ---------------------------------------------------------------- linearity

  lemma ShiftLinear(x: Word, y: Word)
    ensures Shift(Xor(x, y)) == Xor(Shift(x), Shift(y))
  {}

  /** The register is linear in its start value and in the message. */
  lemma {:induction false} RegisterLinear(r: Word, s: Word, x: seq<bool>, y: seq<bool>)
    requires |x| == |y|
    ensures Register(Xor(r, s), Xor(x, y)) == Xor(Register(r, x), Register(s, y))
    decreases |x|
  {
    if x != [] {
      var r', s' := Xor(r, Top(x[0])), Xor(s, Top(y[0]));
      assert Xor(Xor(r, s), Top(Xor(x, y)[0])) == Xor(r', s');
      ShiftLinear(r', s');
      assert Xor(x, y)[1..] == Xor(x[1..], y[1..]);
      RegisterLinear(Shift(r'), Shift(s'), x[1..], y[1..]);
    }
  }

  lemma ShiftsLinear(x: Word, y: Word, n: nat)
    ensures Shifts(Xor(x, y), n) == Xor(Shifts(x, n), Shifts(y, n))
  {
    RegisterLinear(x, y, Zeros(n), Zeros(n));
    assert Xor(Zeros(n), Zeros(n)) == Zeros(n);
  }

  lemma ShiftsFromFront(r: Word, n: nat)
    ensures Shifts(r, n + 1) == Shifts(Shift(r), n)
  {
    assert Xor(r, Top(false)) == r;
    assert Zeros(n + 1)[1..] == Zeros(n);
  }

  lemma {:induction false} RegisterAppend(r: Word, x: seq<bool>, y: seq<bool>)
    ensures Register(r, x + y) == Register(Register(r, x), y)
    decreases |x|
  {
    if x == [] {
      assert x + y == y;
    } else {
      assert (x + y)[1..] == x[1..] + y;
      RegisterAppend(Shift(Xor(r, Top(x[0]))), x[1..], y);
    }
  }

  lemma ShiftsOneMore(r: Word, n: nat)
    ensures Shifts(r, n + 1) == Shift(Shifts(r, n))
  {
    assert Zeros(n + 1) == Zeros(n) + [false];
    RegisterAppend(r, Zeros(n), [false]);
    ShiftsFromFront(Shifts(r, n), 0);
    assert Zeros(1) == [false] && Zeros(0) == [];
  }

  /** While only zeros fall out, shifting is just shifting. */
  lemma {:induction false} ShiftsLow(r: Word, n: nat)
    requires n <= 16 && forall i :: 0 <= i < n ==> !r[i]
    ensures Shifts(r, n) == r[n..] + Zeros(n)
  {
    if n == 0 {
      assert Zeros(0) == [];
    } else {
      ShiftsLow(r, n - 1);
      ShiftsOneMore(r, n - 1);
      assert r[n..] + Zeros(n) == (r[n - 1..] + Zeros(n - 1))[1..] + [false];
    }
  }

  lemma {:induction false} BitsAppend(x: seq<Byte>, y: seq<Byte>)
    ensures Bits(x + y) == Bits(x) + Bits(y)
  {
    if x == [] {
      assert x + y == y;
    } else {
      assert (x + y)[1..] == x[1..] + y;
      calc {
        Bits(x + y);
        BitsOfByte(x[0]) + Bits(x[1..] + y);
        { BitsAppend(x[1..], y); }
        BitsOfByte(x[0]) + (Bits(x[1..]) + Bits(y));
        (BitsOfByte(x[0]) + Bits(x[1..])) + Bits(y);
      }
    }
  }

  // ---------------------------------------------------------------- invertibility

  /** The polynomial has constant term one, so only zero is shifted to zero. */
  lemma ShiftInvertible(r: Word)
    ensures Shift(r) == Zeros(16) ==> r == Zeros(16)
  {
    assert r[0] ==> Shift(r)[15];
    assert !r[0] ==> forall i :: 0 < i < 16 ==> r[i] == Shift(r)[i - 1];
  }

  lemma {:induction false} FeedZeros(bits: seq<bool>)
    requires forall i :: 0 <= i < |bits| ==> !bits[i]
    ensures Register(Zeros(16), bits) == Zeros(16)
  {
    if bits != [] {
      assert Shift(Xor(Zeros(16), Top(bits[0]))) == Zeros(16);
      FeedZeros(bits[1..]);
    }
  }

  lemma {:induction false} FeedNonzero(r: Word, bits: seq<bool>)
    requires r != Zeros(16) && forall i :: 0 <= i < |bits| ==> !bits[i]
    ensures Register(r, bits) != Zeros(16)
    decreases |bits|
  {
    if bits != [] {
      assert Xor(r, Top(bits[0])) == r;
      ShiftInvertible(r);
      FeedNonzero(Shift(r), bits[1..]);
    }
  }

  lemma ShiftsZero(r: Word, n: nat)
    ensures Shifts(r, n) == Zeros(16) <==> r == Zeros(16)
  {
    if r == Zeros(16) {
      FeedZeros(Zeros(n));
    } else {
      FeedNonzero(r, Zeros(n));
    }
  }

  lemma FirstAndRest(r: Word, bits: seq<bool>)
    requires 0 < |bits| <= 16
    ensures Xor(r, Pad(bits)) == Xor(Xor(r, Top(bits[0])), [false] + bits[1..] + Zeros(16 - |bits|))
  {}

  lemma ShiftedRest(bits: seq<bool>)
    requires |bits| <= 15
    ensures Shift([false] + bits + Zeros(15 - |bits|)) == Pad(bits)
  {
    assert Zeros(15 - |bits|) + [false] == Zeros(16 - |bits|);
  }

  /** Feeding up to sixteen bits adds them to the register and shifts that often. */
  lemma {:induction false} Feed(r: Word, bits: seq<bool>)
    requires |bits| <= 16
    ensures Register(r, bits) == Shifts(Xor(r, Pad(bits)), |bits|)
    decreases |bits|
  {
    if bits == [] {
      assert Xor(r, Pad(bits)) == r;
    } else {
      var t, w := Top(bits[0]), bits[1..];
      FirstAndRest(r, bits);
      ShiftedRest(w);
      ShiftLinear(Xor(r, t), [false] + w + Zeros(15 - |w|));
      Feed(Shift(Xor(r, t)), w);
      ShiftsFromFront(Xor(r, Pad(bits)), |w|);
    }
  }

  // ---------------------------------------------------------------- the table

  /** What eight bits at the top of the register are worth when they have left it. */
  function Entry(bits: seq<bool>): Word
    requires |bits| <= 16
  {
    Shifts(Pad(bits), |bits|)
  }

  predicate FilledUpTo(table: seq<Word>, n: nat)
    requires n <= |table| <= 256
  {
    forall i :: 0 <= i < n ==> table[i] == Entry(BitsOfByte(i))
  }

  predicate IsTable(table: seq<Word>) {
    |table| == 256 && FilledUpTo(table, 256)
  }

  /** The inner loop of the table's construction. */
  method ManySteps(bits: seq<bool>) returns (crc: Word)
    requires |bits| <= 16
    ensures crc == Entry(bits)
  {
    crc := Pad(bits);
    for j := 0 to |bits|
      invariant crc == Shifts(Pad(bits), j)
    {
      ShiftsOneMore(Pad(bits), j);
      if crc[0] {
        crc := Xor(crc[1..] + [false], POLYNOMIAL);
      } else {
        crc := crc[1..] + [false];
      }
    }
  }

  method BuildTable() returns (table: seq<Word>)
    ensures IsTable(table)
  {
    var t := new Word[256](_ => ONES);
    for i: int := 0 to 256
      invariant FilledUpTo(t[..], i)
    {
      var crc := ManySteps(BitsOfByte(i));
      ghost var before := t[..];
      t[i] := crc;
      assert t[..] == before[i := crc];
    }
    table := t[..];
  }

  lemma BitsOne(b: Byte)
    ensures Bits([b]) == BitsOfByte(b)
  {
    assert [b][1..] == [];
  }

  lemma RegisterOneMore(data: seq<Byte>, k: nat)
    requires k < |data|
    ensures Register(ONES, Bits(data[..k + 1]))
         == Register(Register(ONES, Bits(data[..k])), BitsOfByte(data[k]))
  {
    assert data[..k + 1] == data[..k] + [data[k]];
    BitsAppend(data[..k], [data[k]]);
    BitsOne(data[k]);
    RegisterAppend(ONES, Bits(data[..k]), BitsOfByte(data[k]));
  }

  lemma HighAndLow(r: Word, bits: seq<bool>)
    requires |bits| == 8
    ensures Xor(r, Pad(bits)) == Xor(Zeros(8) + r[8..], Pad(Xor(r[..8], bits)))
  {}

  lemma ShiftedParts(low: Word, high: Word, n: nat)
    requires n <= 16 && forall i :: 0 <= i < n ==> !low[i]
    ensures Shifts(Xor(low, high), n) == Xor(low[n..] + Zeros(n), Shifts(high, n))
  {
    ShiftsLinear(low, high, n);
    ShiftsLow(low, n);
  }

  /** One table look-up does the work of eight division steps. */
  lemma {:induction false} TableStep(table: seq<Word>, r: Word, b: Byte)
    requires IsTable(table)
    ensures Register(r, BitsOfByte(b))
         == Xor(r[8..] + Zeros(8), table[ByteOfBits(Xor(r[..8], BitsOfByte(b)))])
  {
    var index := Xor(r[..8], BitsOfByte(b));
    BitsByteRoundTrip(index);
    Feed(r, BitsOfByte(b));
    HighAndLow(r, BitsOfByte(b));
    ShiftedParts(Zeros(8) + r[8..], Pad(index), |index|);
    assert (Zeros(8) + r[8..])[8..] == r[8..];
  }

  /** The table-driven checksum is the bit-at-a-time one. */
  method Compute(table: seq<Word>, data: seq<Byte>) returns (crc: Word)
    requires IsTable(table)
    ensures crc == Checksum(data)
  {
    crc := ONES;
    for k := 0 to |data|
      invariant crc == Register(ONES, Bits(data[..k]))
    {
      RegisterOneMore(data, k);
      TableStep(table, crc, data[k]);
      var index := ByteOfBits(Xor(crc[..8], BitsOfByte(data[k])));
      crc := Xor(crc[8..] + Zeros(8), table[index]);
    }
    assert data[..|data|] == data;
    crc := Xor(crc, ONES);
  }

  // ---------------------------------------------------------------- error detection

  /** What readResponse tests: body is a payload followed by its checksum. */
  predicate Accepts(header: seq<Byte>, body: seq<Byte>)
    requires |body| >= 2
  {
    WordBytes(Checksum(header + body[..|body| - 2])) == body[|body| - 2..]
  }

  /** Where the register ends over any message followed by its own checksum. */
  const RESIDUE: Word := Shifts(ONES, |ONES|)

  lemma {:induction false} BitsTwo(trailer: seq<Byte>)
    requires |trailer| == 2
    ensures Bits(trailer) == BitsOfByte(trailer[0]) + BitsOfByte(trailer[1])
  {
    assert trailer == [trailer[0]] + [trailer[1]];
    BitsAppend([trailer[0]], [trailer[1]]);
    BitsOne(trailer[0]);
    BitsOne(trailer[1]);
  }

  lemma {:induction false} WordBytesBits(w: Word, trailer: seq<Byte>)
    requires |trailer| == 2
    ensures WordBytes(w) == trailer <==> w == Bits(trailer)
  {
    BitsTwo(trailer);
    BitsByteRoundTrip(w[..8]);
    BitsByteRoundTrip(w[8..]);
    ByteBitsRoundTrip(trailer[0]);
    ByteBitsRoundTrip(trailer[1]);
    assert w == w[..8] + w[8..];
  }

  /** The register over a message and two more bytes. */
  lemma {:induction false} RegisterOfTrailer(message: seq<Byte>, trailer: seq<Byte>)
    ensures Register(ONES, Bits(message + trailer)) == Register(Register(ONES, Bits(message)), Bits(trailer))
  {
    BitsAppend(message, trailer);
    RegisterAppend(ONES, Bits(message), Bits(trailer));
  }

  lemma XorZero(x: Word, y: Word)
    ensures Xor(x, y) == y <==> x == Zeros(16)
  {
    forall i | 0 <= i < 16 && x[i] ensures Xor(x, y)[i] != y[i] {}
  }

  lemma XorEqual(x: Word, y: Word)
    ensures Xor(x, y) == Zeros(16) <==> x == y
  {
    forall i | 0 <= i < 16 && x[i] != y[i] ensures Xor(x, y)[i] {}
  }

  lemma {:induction false} ResidueOfWord(r: Word, t: Word)
    ensures Register(r, t) == RESIDUE <==> Xor(r, ONES) == t
  {
    var d := Xor(Xor(r, ONES), t);
    Feed(r, t);
    assert Pad(t) == t;
    assert Xor(r, t) == Xor(d, ONES);
    ShiftsLinear(d, ONES, |t|);
    XorZero(Shifts(d, |t|), RESIDUE);
    ShiftsZero(d, |t|);
    XorEqual(Xor(r, ONES), t);
  }

  /** A message passes exactly when the register, run over message and trailer, ends at
      the one constant. */
  lemma {:induction false} Residue(header: seq<Byte>, body: seq<Byte>)
    requires |body| >= 2
    ensures Accepts(header, body) <==> Register(ONES, Bits(header + body)) == RESIDUE
  {
    var message, trailer := header + body[..|body| - 2], body[|body| - 2..];
    assert header + body == message + trailer;
    RegisterOfTrailer(message, trailer);
    var r := Register(ONES, Bits(message));
    ResidueOfWord(r, Bits(trailer));
    WordBytesBits(Xor(r, ONES), trailer);
  }

  /** The bits in which two messages differ lie in sixteen consecutive positions. */
  predicate Burst(sent: seq<bool>, received: seq<bool>, k: nat) {
    |sent| == |received|
    && forall i :: 0 <= i < |sent| && sent[i] != received[i] ==> k <= i < k + 16
  }

  predicate Clear(bits: seq<bool>) {
    forall i :: 0 <= i < |bits| ==> !bits[i]
  }

  /** An error pattern within sixteen consecutive bits leaves the register at zero only
      if it is no error at all. */
  lemma {:induction false} BurstRegister(a: seq<bool>, w: seq<bool>, z: seq<bool>)
    requires Clear(a) && |w| == 16 && Clear(z)
    ensures Register(Zeros(16), a + (w + z)) == Zeros(16) <==> Clear(w)
  {
    hide Register, Shift;
    RegisterAppend(Zeros(16), a, w + z);
    FeedZeros(a);
    RegisterAppend(Zeros(16), w, z);
    Feed(Zeros(16), w);
    assert Xor(Zeros(16), Pad(w)) == w;
    ShiftsZero(w, 16);
    if Clear(w) {
      assert w == Zeros(16);
      FeedZeros(z);
    } else {
      assert w != Zeros(16);
      FeedNonzero(Register(Zeros(16), w), z);
    }
  }

  lemma BurstSplit(e: seq<bool>, k: nat) returns (a: seq<bool>, w: seq<bool>, z: seq<bool>)
    requires |e| >= 16
    requires forall i :: 0 <= i < |e| && e[i] ==> k <= i < k + 16
    ensures e == a + (w + z) && Clear(a) && |w| == 16 && Clear(z)
    ensures Clear(w) ==> Clear(e)
  {
    var k := if k + 16 <= |e| then k else |e| - 16;
    a, w, z := e[..k], e[k..k + 16], e[k + 16..];
    assert e == a + (w + z);
    forall i | 0 <= i < |e| && e[i] ensures w[i - k] {}
  }

  lemma {:induction false} RegisterOfFrame(header: seq<Byte>, body: seq<Byte>)
    requires |body| >= 2
    ensures Accepts(header, body) <==> Register(Register(ONES, Bits(header)), Bits(body)) == RESIDUE
  {
    Residue(header, body);
    BitsAppend(header, body);
    RegisterAppend(ONES, Bits(header), Bits(body));
  }

  lemma {:induction false} EqualRegisters(r: Word, x: seq<bool>, y: seq<bool>, k: nat)
    requires |x| >= 16 && Burst(x, y, k)
    requires Register(r, x) == Register(r, y)
    ensures x == y
  {
    var e := Xor(x, y);
    RegisterLinear(r, r, x, y);
    assert Xor(r, r) == Zeros(16);
    XorEqual(Register(r, x), Register(r, y));
    var a, w, z := BurstSplit(e, k);
    BurstRegister(a, w, z);
    forall i | 0 <= i < |x| ensures x[i] == y[i] { assert !e[i]; }
  }

  lemma {:induction false} BitsInjective(x: seq<Byte>, y: seq<Byte>)
    requires |x| == |y| && Bits(x) == Bits(y)
    ensures x == y
  {
    if x != [] {
      assert BitsOfByte(x[0]) == Bits(x)[..8] == Bits(y)[..8] == BitsOfByte(y[0]);
      ByteBitsRoundTrip(x[0]);
      ByteBitsRoundTrip(y[0]);
      assert Bits(x[1..]) == Bits(x)[8..] == Bits(y)[8..] == Bits(y[1..]);
      BitsInjective(x[1..], y[1..]);
    }
  }

  /** Any change confined to sixteen consecutive bits of payload and trailer, however
      the window straddles the two, is noticed. */
  lemma {:induction false} BurstDetected(header: seq<Byte>, sent: seq<Byte>, received: seq<Byte>, k: nat)
    requires |sent| == |received| >= 2 && Accepts(header, sent)
    requires Burst(Bits(sent), Bits(received), k)
    ensures Accepts(header, received) <==> received == sent
  {
    var x, y := Bits(sent), Bits(received);
    var r := Register(ONES, Bits(header));
    RegisterOfFrame(header, sent);
    RegisterOfFrame(header, received);
    if Register(r, y) == RESIDUE {
      EqualRegisters(r, x, y, k);
      BitsInjective(sent, received);
    }
  }
}
