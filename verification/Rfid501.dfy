/** The layout of a library tag, eight blocks of four bytes:
    marker 04, set and total nibbles, reserved 00, item type; sixteen bytes of
    NUL-padded barcode; branch (12 bits) and library (20 bits); a signed custom number;
    zero. */
module Rfid501 {
  import opened Bytes
  import Hex

  type Int32 = x: int | -0x8000_0000 <= x < 0x8000_0000

  datatype Tag501 = Tag501(
    u1: Byte, set_: int, total: int, u2: Byte, kind: Byte,
    content: seq<Byte>, branch: int, library: int, custom: Int32)

  const ITEM_OTHER: Byte := 0
  const ITEM_BOOK: Byte := 1

  /** "130", the prefix of a book's barcode. */
  const BOOK_PREFIX: seq<Byte> := [0x31, 0x33, 0x30]

  predicate IsBook(content: seq<Byte>) {
    BOOK_PREFIX <= content
  }

  function NoBytes(n: nat): (z: seq<Byte>)
    ensures |z| == n && forall i :: 0 <= i < n ==> z[i] == 0
  {
    seq(n, _ => 0)
  }

  /** Byte j of a number, counted from its low end. */
  function ByteAt(n: nat, j: nat): Byte
    decreases j
  {
    if j == 0 then n % 256 else ByteAt(n / 256, j - 1)
  }

  /** The low k bytes of a number, big-endian. */
  function BigEndian(n: nat, k: nat): (b: seq<Byte>)
    ensures |b| == k
  {
    seq(k, i requires 0 <= i < k => ByteAt(n, k - 1 - i))
  }

  function FromBigEndian(b: seq<Byte>): nat {
    if b == [] then 0 else FromBigEndian(b[..|b| - 1]) * 256 + b[|b| - 1]
  }

  /** A 32-bit number as four bytes. */
  function Big32(n: nat): (b: seq<Byte>)
    ensures |b| == 4
  {
    BigEndian(n, 4)
  }

  /** A 32-bit number read as two's complement. */
  function Signed(n: nat): Int32 {
    var m := n % 0x1_0000_0000;
    if m < 0x8000_0000 then m else m - 0x1_0000_0000
  }

  function Unsigned(x: Int32): nat {
    x % 0x1_0000_0000
  }

  /** The part of a text before its first NUL. */
  function UpToNul(text: seq<Byte>): (r: seq<Byte>)
    ensures r <= text && 0 !in r
    ensures |r| < |text| ==> text[|r|] == 0
  {
    if text == [] || text[0] == 0 then [] else [text[0]] + UpToNul(text[1..])
  }

  function First16(content: seq<Byte>): seq<Byte> {
    if |content| > 16 then content[..16] else content
  }

  // ---------------------------------------------------------------- encoding

  function Head(tag: Tag501): seq<Byte> {
    [4, (tag.set_ * 16 + tag.total % 16) % 256, 0, tag.kind]
  }

  function Text(content: seq<Byte>): (text: seq<Byte>)
    ensures |text| == 16
  {
    First16(content) + NoBytes(16 - |First16(content)|)
  }

  function Place(branch: int, library: int): nat {
    branch * 0x10_0000 % 0x1_0000_0000 + library % 0x10_0000
  }

  function Assemble(head: seq<Byte>, text: seq<Byte>, place: nat, custom: nat): (data: seq<Byte>)
    requires |head| == 4 && |text| == 16
    ensures |data| == 32
  {
    head + text + Big32(place) + Big32(custom) + NoBytes(4)
  }

  /** The 32 bytes of a tag; numbers too large for their field lose their high bits. */
  function Layout(tag: Tag501): (data: seq<Byte>)
    ensures |data| == 32
  {
    Assemble(Head(tag), Text(tag.content), Place(tag.branch, tag.library), Unsigned(tag.custom))
  }

  lemma Parts(data: seq<Byte>, head: seq<Byte>, text: seq<Byte>, place: nat, custom: nat)
    requires |data| == 32 && |head| == 4 && |text| == 16
    ensures data == Assemble(head, text, place, custom) <==>
              data[..4] == head && data[4..20] == text && data[20..24] == Big32(place)
              && data[24..28] == Big32(custom) && data[28..] == NoBytes(4)
  {
    assert data == data[..4] + data[4..20] + data[20..24] + data[24..28] + data[28..];
    var all := Assemble(head, text, place, custom);
    assert all[..4] == head && all[4..20] == text && all[20..24] == Big32(place)
        && all[24..28] == Big32(custom) && all[28..] == NoBytes(4);
  }

  /** The blocks of some data, as hexadecimal text. */
  function BlocksOf(data: seq<Byte>): seq<string> {
    seq(|data| / 4, i requires 0 <= i < |data| / 4 => Hex.Encode(data[4 * i..4 * i + 4]))
  }

  /** Copy some bytes into a buffer. */
  method Put(data: array<Byte>, at: nat, bytes: seq<Byte>)
    requires at + |bytes| <= data.Length
    modifies data
    ensures forall k :: at <= k < at + |bytes| ==> data[k] == bytes[k - at]
    ensures forall k :: 0 <= k < data.Length && !(at <= k < at + |bytes|) ==> data[k] == old(data[k])
  {
    for i := 0 to |bytes|
      invariant forall k :: at <= k < at + i ==> data[k] == bytes[k - at]
      invariant forall k :: 0 <= k < data.Length && !(at <= k < at + i) ==> data[k] == old(data[k])
    {
      data[at + i] := bytes[i];
    }
  }

  /** The buffer of an encoded tag, zero where nothing is put. */
  method Fill(head: seq<Byte>, text: seq<Byte>, place: nat, custom: nat)
    returns (data: array<Byte>)
    requires |head| == 4 && |text| <= 16
    ensures fresh(data) && data.Length == 32
    ensures data[..] == Assemble(head, text + NoBytes(16 - |text|), place, custom)
  {
    data := new Byte[32](_ => 0);
    Put(data, 0, head);
    Put(data, 4, text);
    Put(data, 20, Big32(place));
    Put(data, 24, Big32(custom));
    Parts(data[..], head, text + NoBytes(16 - |text|), place, custom);
  }

  method Split(data: array<Byte>) returns (blocks: seq<string>)
    requires data.Length == 32
    ensures blocks == BlocksOf(data[..])
  {
    blocks := [];
    for i := 0 to 8
      invariant |blocks| == i
      invariant forall k :: 0 <= k < i ==> blocks[k] == Hex.Encode(data[..][4 * k..4 * k + 4])
    {
      assert data[4 * i..4 * i + 4] == data[..][4 * i..4 * i + 4];
      blocks := blocks + [Hex.Encode(data[4 * i..4 * i + 4])];
    }
  }

  method Encode(tag: Tag501) returns (blocks: seq<string>)
    ensures blocks == BlocksOf(Layout(tag))
  {
    var head := Head(tag);
    var data := Fill(head, First16(tag.content),
                     Place(tag.branch, tag.library), Unsigned(tag.custom));
    blocks := Split(data);
  }

  function TagFor(content: seq<Byte>): Tag501 {
    Tag501(4, 1, 1, 0, if IsBook(content) then ITEM_BOOK else ITEM_OTHER, content, 0, 0, 0)
  }

  method JoinBlocks(blocks: seq<string>, ghost data: seq<Byte>) returns (text: string)
    requires |data| % 4 == 0 && blocks == BlocksOf(data)
    ensures text == Hex.Encode(data)
  {
    text := "";
    for i := 0 to |blocks|
      invariant text == Hex.Encode(data[..4 * i])
    {
      assert data[..4 * (i + 1)] == data[..4 * i] + data[4 * i..4 * i + 4];
      Hex.EncodeAppend(data[..4 * i], data[4 * i..4 * i + 4]);
      text := text + blocks[i];
    }
    assert data[..4 * |blocks|] == data;
  }

  /** Three zero blocks. */
  const BLANK: seq<Byte> := [0, 0, 0, 0, 0, 0, 0, 0, 0, 0, 0, 0]

  method Blank() returns (text: string)
    ensures text == Hex.Encode(BLANK)
  {
    text := "";
    for i := 0 to 3
      invariant text == Hex.Encode(NoBytes(4 * i))
    {
      assert NoBytes(4 * (i + 1)) == NoBytes(4 * i) + [0, 0, 0, 0];
      Hex.EncodeAppend(NoBytes(4 * i), [0, 0, 0, 0]);
      assert Hex.Encode([0, 0, 0, 0]) == "00000000";
      text := text + "00000000";
    }
    assert NoBytes(12) == BLANK;
  }

  // ---------------------------------------------------------------- decoding

  /** What 32 bytes say. */
  function Fields(data: seq<Byte>): Tag501
    requires |data| == 32
  {
    var place := FromBigEndian(data[20..24]);
    Tag501(data[0], data[1] / 16, data[1] % 16, data[2], data[3], UpToNul(data[4..20]),
           place / 0x10_0000, place % 0x10_0000,
           Signed(FromBigEndian(data[24..28])))
  }

  /** At least six blocks are needed; missing ones count as zero, extra ones are ignored. */
  function DecodeBytes(data: seq<Byte>): Option<Tag501> {
    if |data| < 24 then None
    else if |data| > 32 then Some(Fields(data[..32]))
    else Some(Fields(data + NoBytes(32 - |data|)))
  }

  /** The bytes of hexadecimal blocks, if every one of them is four bytes. */
  function BlockBytes(blocks: seq<string>): Option<seq<Byte>> {
    if blocks == [] then Some([])
    else
      var last := |blocks| - 1;
      match (BlockBytes(blocks[..last]), Hex.Decode(blocks[last]))
      case (Some(front), Some(b)) => if |b| == 4 then Some(front + b) else None
      case _ => None
  }

  function DecodeBlocks(blocks: seq<string>): Option<Tag501> {
    match BlockBytes(blocks)
    case Some(data) => DecodeBytes(data)
    case None => None
  }

  lemma {:induction false} BlockBytesPrefix(blocks: seq<string>, n: nat)
    requires n <= |blocks| && BlockBytes(blocks[..n]).None?
    ensures BlockBytes(blocks).None?
    decreases |blocks| - n
  {
    if n < |blocks| {
      assert blocks[..n + 1][..n] == blocks[..n];
      BlockBytesPrefix(blocks, n + 1);
    } else {
      assert blocks[..n] == blocks;
    }
  }

  lemma {:induction false} UpToNulIs(text: seq<Byte>, n: nat)
    requires n <= |text| && 0 !in text[..n] && (n < |text| ==> text[n] == 0)
    ensures UpToNul(text) == text[..n]
  {
    if n > 0 {
      assert text[0] == text[..n][0];
      assert text[1..][..n - 1] == text[..n][1..];
      UpToNulIs(text[1..], n - 1);
      assert [text[0]] + text[1..][..n - 1] == text[..n];
    }
  }

  method Trim(text: seq<Byte>) returns (content: seq<Byte>)
    ensures content == UpToNul(text)
  {
    var nul := |text|;
    for i := 0 to |text|
      invariant nul == |text| && 0 !in text[..i]
    {
      if text[i] == 0 {
        nul := i;
        break;
      }
    }
    UpToNulIs(text, nul);
    content := text[..nul];
  }

  method Decode(blocks: seq<string>) returns (tag: Option<Tag501>)
    ensures tag == DecodeBlocks(blocks)
  {
    hide Hex.Decode, UpToNul, FromBigEndian, Signed;
    var data: seq<Byte> := [];
    for i := 0 to |blocks|
      invariant BlockBytes(blocks[..i]) == Some(data)
    {
      assert blocks[..i + 1][..i] == blocks[..i];
      var b := Hex.Decode(blocks[i]);
      if b.None? || |b.value| != 4 {
        BlockBytesPrefix(blocks, i + 1);
        return None;
      }
      data := data + b.value;
    }
    assert blocks[..|blocks|] == blocks;
    if |data| < 24 {
      return None;
    }
    assert |data| == 32 ==> data + NoBytes(0) == data;
    if |data| > 32 {
      data := data[..32];
    }
    if |data| < 32 {
      data := data + NoBytes(32 - |data|);
    }
    var content := Trim(data[4..20]);
    var place := FromBigEndian(data[20..24]);
    var custom := Signed(FromBigEndian(data[24..28]));
    tag := Some(Tag501(data[0], data[1] / 16, data[1] % 16, data[2], data[3], content,
                       place / 0x10_0000, place % 0x10_0000, custom));
  }

  // ---------------------------------------------------------------- round trips

  lemma BigEndianSplit(n: nat, k: nat)
    requires k > 0
    ensures BigEndian(n, k)[..k - 1] == BigEndian(n / 256, k - 1) && BigEndian(n, k)[k - 1] == n % 256
  {
    forall i | 0 <= i < k - 1 ensures BigEndian(n, k)[i] == BigEndian(n / 256, k - 1)[i] {
      assert ByteAt(n, k - 1 - i) == ByteAt(n / 256, k - 2 - i);
    }
    assert BigEndian(n, k)[k - 1] == ByteAt(n, 0);
  }

  lemma {:induction false} BigEndianRoundTrip(b: seq<Byte>)
    ensures BigEndian(FromBigEndian(b), |b|) == b
  {
    if b != [] {
      var n := |b| - 1;
      BigEndianRoundTrip(b[..n]);
      BigEndianSplit(FromBigEndian(b), n + 1);
      assert FromBigEndian(b) / 256 == FromBigEndian(b[..n]);
    }
  }

  function Pow256(k: nat): nat {
    if k == 0 then 1 else 256 * Pow256(k - 1)
  }

  lemma {:induction false} FromBigEndianRoundTrip(n: nat, k: nat)
    requires n < Pow256(k)
    ensures FromBigEndian(BigEndian(n, k)) == n
    decreases k
  {
    if k == 0 {
      assert BigEndian(n, k) == [];
    } else {
      BigEndianSplit(n, k);
      FromBigEndianRoundTrip(n / 256, k - 1);
    }
  }

  lemma {:induction false} FromBigEndianBound(b: seq<Byte>)
    ensures FromBigEndian(b) < Pow256(|b|)
  {
    if b != [] {
      FromBigEndianBound(b[..|b| - 1]);
    }
  }

  lemma Big32RoundTrip(n: nat)
    requires n < 0x1_0000_0000
    ensures FromBigEndian(Big32(n)) == n
  {
    assert Pow256(4) == 0x1_0000_0000;
    FromBigEndianRoundTrip(n, 4);
  }

  lemma {:induction false} Big32OfBytes(b: seq<Byte>)
    requires |b| == 4
    ensures FromBigEndian(b) < 0x1_0000_0000 && Big32(FromBigEndian(b)) == b
  {
    assert Pow256(4) == 0x1_0000_0000;
    FromBigEndianBound(b);
    BigEndianRoundTrip(b);
  }

  lemma PlaceFields(branch: int, library: int)
    ensures var place := Place(branch, library);
            0 <= place < 0x1_0000_0000
            && place / 0x10_0000 == branch % 4096 && place % 0x10_0000 == library % 0x10_0000
  {
    assert branch * 0x10_0000 % 0x1_0000_0000 == (branch % 4096) * 0x10_0000;
  }

  lemma SignedRoundTrip(x: Int32)
    ensures Unsigned(x) < 0x1_0000_0000 && Signed(Unsigned(x)) == x
  {}

  lemma UnsignedSurvives(n: nat)
    requires n < 0x1_0000_0000
    ensures Unsigned(Signed(n)) == n
  {}

  lemma NibblesRoundTrip(set_: int, total: int)
    ensures var b := (set_ * 16 + total % 16) % 256; b / 16 == set_ % 16 && b % 16 == total % 16
  {}

  lemma {:induction false} UpToNulPadded(text: seq<Byte>, n: nat)
    ensures UpToNul(text + NoBytes(n)) == UpToNul(text)
  {
    if text == [] {
      assert text + NoBytes(n) == NoBytes(n);
    } else {
      assert (text + NoBytes(n))[1..] == text[1..] + NoBytes(n);
      UpToNulPadded(text[1..], n);
    }
  }

  lemma {:induction false} LastBlock(front: seq<Byte>, block: seq<Byte>)
    requires |front| % 4 == 0 && |block| == 4
    ensures BlocksOf(front + block) == BlocksOf(front) + [Hex.Encode(block)]
  {
    hide Hex.Encode;
    var data, n := front + block, |front| / 4;
    var blocks := BlocksOf(data);
    forall i | 0 <= i < n ensures blocks[i] == BlocksOf(front)[i] {
      assert data[4 * i..4 * i + 4] == front[4 * i..4 * i + 4];
    }
    assert blocks[n] == Hex.Encode(block) by {
      assert data[4 * n..4 * n + 4] == block;
    }
    assert |blocks| == n + 1;
  }

  lemma NoBlocks()
    ensures BlocksOf([]) == []
  {}

  /** Whole blocks as hexadecimal text are read back as they were. */
  lemma {:induction false} BlocksRoundTrip(data: seq<Byte>)
    requires |data| % 4 == 0
    ensures BlockBytes(BlocksOf(data)) == Some(data)
  {
    hide Hex.Encode, BlocksOf;
    if data == [] {
      NoBlocks();
    } else {
      var front, block := data[..|data| - 4], data[|data| - 4..];
      assert data == front + block;
      BlocksRoundTrip(front);
      LastBlock(front, block);
      Hex.DecodeEncode(block);
      assert (BlocksOf(front) + [Hex.Encode(block)])[..|BlocksOf(front)|] == BlocksOf(front);
    }
  }

  lemma LayoutFields(tag: Tag501)
    ensures DecodeBytes(Layout(tag)) == Some(Tag501(
              4, tag.set_ % 16, tag.total % 16, 0, tag.kind, UpToNul(First16(tag.content)),
              tag.branch % 4096, tag.library % 0x10_0000, tag.custom))
  {
    hide FromBigEndian, BigEndian, Place, Signed, Unsigned;
    var data := Layout(tag);
    var text := First16(tag.content);
    var place := Place(tag.branch, tag.library);
    assert data + NoBytes(0) == data;
    Parts(data, Head(tag), Text(tag.content), place, Unsigned(tag.custom));
    UpToNulPadded(text, 16 - |text|);
    PlaceFields(tag.branch, tag.library);
    Big32RoundTrip(place);
    SignedRoundTrip(tag.custom);
    Big32RoundTrip(Unsigned(tag.custom));
    NibblesRoundTrip(tag.set_, tag.total);
  }

  /** What a tag says after it was written: every field cut to its width, none leaking
      into another. */
  lemma NormalForm(tag: Tag501)
    ensures DecodeBlocks(BlocksOf(Layout(tag))) == Some(Tag501(
              4, tag.set_ % 16, tag.total % 16, 0, tag.kind, UpToNul(First16(tag.content)),
              tag.branch % 4096, tag.library % 0x10_0000, tag.custom))
  {
    BlocksRoundTrip(Layout(tag));
    LayoutFields(tag);
  }

  predicate Padded(text: seq<Byte>) {
    forall i, j :: 0 <= i <= j < |text| && text[i] == 0 ==> text[j] == 0
  }

  /** Data that the encoder could have written. */
  predicate Canonical(data: seq<Byte>)
    requires |data| == 32
  {
    data[0] == 4 && data[2] == 0 && Padded(data[4..20]) && data[28..] == NoBytes(4)
  }

  lemma HeadSurvives(data: seq<Byte>)
    requires |data| == 32
    ensures Head(Fields(data)) == data[..4] <==> data[0] == 4 && data[2] == 0
  {
    var head := Head(Fields(data));
    assert data[..4] == [data[0], data[1], data[2], data[3]];
    assert head[1] == data[1] && head[3] == data[3];
  }

  lemma PlaceSurvives(place: nat)
    requires place < 0x1_0000_0000
    ensures Place(place / 0x10_0000, place % 0x10_0000) == place
  {}

  lemma {:induction false} PaddedText(text: seq<Byte>)
    requires |text| == 16
    ensures Text(UpToNul(text)) == text <==> Padded(text)
  {
    var kept := UpToNul(text);
    var again := Text(kept);
    if Padded(text) {
      forall i | 0 <= i < 16 ensures again[i] == text[i] {
        if |kept| <= i { assert text[|kept|] == 0; }
      }
      assert again == text;
    }
    assert forall i :: 0 <= i < 16 && again[i] == 0 ==> i >= |kept|;
  }

  lemma FieldsExact(data: seq<Byte>)
    requires |data| == 32
    ensures DecodeBytes(data).Some?
    ensures Layout(DecodeBytes(data).value) == data <==> Canonical(data)
  {
    assert data + NoBytes(0) == data;
    var place, custom := FromBigEndian(data[20..24]), FromBigEndian(data[24..28]);
    Big32OfBytes(data[20..24]);
    Big32OfBytes(data[24..28]);
    Parts(data, Head(Fields(data)), Text(UpToNul(data[4..20])), place, custom);
    PlaceSurvives(place);
    UnsignedSurvives(custom);
    PaddedText(data[4..20]);
    HeadSurvives(data);
  }

  /** Reading eight blocks and writing them back changes nothing exactly when they were
      in canonical form. */
  lemma EncodeDecodeExact(data: seq<Byte>)
    requires |data| == 32
    ensures DecodeBlocks(BlocksOf(data)).Some?
    ensures BlocksOf(Layout(DecodeBlocks(BlocksOf(data)).value)) == BlocksOf(data) <==> Canonical(data)
  {
    BlocksRoundTrip(data);
    BlocksRoundTrip(Layout(DecodeBytes(data).value));
    FieldsExact(data);
  }

  // ---------------------------------------------------------------- barcodes

  /** A text cut into the eight digits of each block. */
  function Pieces(text: string): seq<string> {
    seq(|text| / 8, i requires 0 <= i < |text| / 8 => text[8 * i..8 * i + 8])
  }

  lemma {:induction false} EncodeSlice(data: seq<Byte>, from: nat, to: nat)
    requires from <= to <= |data|
    ensures Hex.Encode(data)[2 * from..2 * to] == Hex.Encode(data[from..to])
  {
    hide Hex.Encode;
    var x, y, z := data[..from], data[from..to], data[to..];
    assert data == x + (y + z);
    Hex.EncodeAppend(x, y + z);
    Hex.EncodeAppend(y, z);
  }

  lemma {:induction false} PiecesOfText(data: seq<Byte>)
    requires |data| % 4 == 0
    ensures Pieces(Hex.Encode(data)) == BlocksOf(data)
  {
    hide Hex.Encode;
    forall i | 0 <= i < |data| / 4 ensures Hex.Encode(data)[8 * i..8 * i + 8] == Hex.Encode(data[4 * i..4 * i + 4]) {
      EncodeSlice(data, 4 * i, 4 * i + 4);
    }
  }

  /** The type of a barcode's item: a book if it starts with "130". */
  predicate Starts130(content: seq<Byte>) {
    |content| >= 3 && content[0] == 0x31 && content[1] == 0x33 && content[2] == 0x30
  }

  lemma LayoutHead(tag: Tag501)
    ensures Layout(tag)[..4] == Head(tag)
  {}

  lemma StartsWith(content: seq<Byte>)
    ensures IsBook(content) <==> Starts130(content)
  {
    if Starts130(content) {
      assert content[..3] == BOOK_PREFIX;
    }
  }

  /** A barcode is encoded as number 1 of a set of 1, without branch, library and custom
      number, as a book exactly if it starts with "130". */
  lemma {:induction false} ContentDecodes(content: seq<Byte>)
    ensures DecodeBlocks(BlocksOf(Layout(TagFor(content)))) == Some(Tag501(
              4, 1, 1, 0, if Starts130(content) then 1 else 0, UpToNul(First16(content)), 0, 0, 0))
    ensures Layout(TagFor(content))[..4] == [0x04, 0x11, 0x00, if Starts130(content) then 0x01 else 0x00]
  {
    hide DecodeBlocks, BlocksOf, UpToNul, Layout, IsBook, Starts130, First16;
    NormalForm(TagFor(content));
    StartsWith(content);
    LayoutHead(TagFor(content));
  }

  /** A barcode encoded for writing, in one piece. */
  method EncodeContent(content: seq<Byte>) returns (text: string)
    ensures text == Hex.Encode(Layout(TagFor(content)))
    ensures DecodeBlocks(Pieces(text)) == Some(Tag501(
              4, 1, 1, 0, if Starts130(content) then 1 else 0, UpToNul(First16(content)), 0, 0, 0))
  {
    var kind: Byte := ITEM_BOOK;
    if |content| >= 3 && content[..3] == BOOK_PREFIX {
      kind := ITEM_BOOK;
    } else {
      kind := ITEM_OTHER;
    }
    var blocks := Encode(Tag501(4, 1, 1, 0, kind, content, 0, 0, 0));
    text := JoinBlocks(blocks, Layout(TagFor(content)));
    PiecesOfText(Layout(TagFor(content)));
    ContentDecodes(content);
  }

  /** Blocks decode exactly if they are at least six of four bytes each; missing ones count as
      zero and those beyond the eighth do not matter. */
  lemma {:induction false} DecodesFromSix(data: seq<Byte>)
    requires |data| % 4 == 0
    ensures DecodeBlocks(BlocksOf(data)).Some? <==> |data| >= 24
    ensures |data| >= 24 ==>
              DecodeBlocks(BlocksOf(data))
              == DecodeBlocks(BlocksOf(if |data| > 32 then data[..32] else data + NoBytes(32 - |data|)))
  {
    hide BlockBytes, BlocksOf, Fields;
    var full := if |data| > 32 then data[..32] else data + NoBytes(32 - |data|);
    BlocksRoundTrip(data);
    if |data| >= 24 {
      BlocksRoundTrip(full);
      assert full + NoBytes(0) == full;
    }
  }
}
