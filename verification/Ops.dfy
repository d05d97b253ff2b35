/** The operations shared by the server and the command-line tools: scanning the pad,
    programming tags, setting their AFI byte. Each runs under the reader's mutex. */
module Ops {
  import opened Bytes
  import opened Device
  import opened Reader
  import opened Rfid501
  import opened ResetCounter
  import Hex

  const AFI_SECURE: Byte := 0xDA    // checked in
  const AFI_UNSECURE: Byte := 0xD7  // checked out

  /** "blank", as a content that asks for the tag to be cleared. */
  const BLANK_WORD: seq<Byte> := [0x62, 0x6C, 0x61, 0x6E, 0x6B]

  datatype TagInfo = TagInfo(sid: string, content: seq<Byte>, security: string)

  datatype ProgramOp = ProgramOp(sid: string, content: seq<Byte>, custom: Option<Tag501>)

  datatype ProgramError = TooLong(tag: string) | BlocksNotWritten(tag: string) | AfiNotWritten(tag: string)

  datatype ProgramResult = ProgramResult(ok: int, errors: seq<ProgramError>)

  datatype SecureOp = SecureOp(sid: string, afiHex: string)

  /** The Kelvin sign in UTF-8, the one letter beyond ASCII whose lower case is a letter of
      "blank". */
  const KELVIN: seq<Byte> := [0xE2, 0x84, 0xAA]

  /** Lower case, as far as it matters for the word. */
  function ToLower(text: seq<Byte>): seq<Byte> {
    if text == [] then []
    else if KELVIN <= text then [0x6B] + ToLower(text[3..])
    else [if 0x41 <= text[0] <= 0x5A then text[0] + 0x20 else text[0]] + ToLower(text[1..])
  }

  function AfiText(afi: Byte): string {
    Hex.Upper(Hex.Encode([afi]))
  }

  // ---------------------------------------------------------------- reading a tag

  /** What a tag holds as its barcode: blocks 1 to 4 up to the first NUL. */
  function Barcode(blocks: seq<seq<Byte>>): seq<Byte>
    requires |blocks| >= 5
  {
    UpToNul(blocks[1] + blocks[2] + blocks[3] + blocks[4])
  }

  /** What a complete read of a tag reports: a tag of fewer than six blocks is not in the
      library layout and shows its first block as it is. */
  function ContentOf(blocks: seq<seq<Byte>>): seq<Byte> {
    if |blocks| >= 6 then Barcode(blocks) else if |blocks| > 0 then blocks[0] else []
  }

  function BlockHexes(blocks: map<int, string>): (out: seq<string>)
    ensures |out| == |blocks|
  {
    seq(|blocks|, i => if i in blocks then blocks[i] else "")
  }

  method MakeBlockHexes(blocks: map<int, string>) returns (out: seq<string>)
    ensures out == BlockHexes(blocks)
  {
    var a := new string[|blocks|](_ => "");
    for i := 0 to |blocks|
      invariant forall k :: 0 <= k < i ==> a[k] == BlockHexes(blocks)[k]
      invariant forall k :: i <= k < |blocks| ==> a[k] == ""
    {
      if i in blocks {
        a[i] := blocks[i];
      }
    }
    out := a[..];
  }

  lemma {:induction false} BlockBytesLength(blocks: seq<string>)
    requires BlockBytes(blocks).Some?
    ensures |BlockBytes(blocks).value| == 4 * |blocks|
  {
    if blocks != [] {
      BlockBytesLength(blocks[..|blocks| - 1]);
    }
  }

  lemma {:induction false} BlockBytesAt(blocks: seq<string>, i: nat)
    requires BlockBytes(blocks).Some? && i < |blocks|
    ensures var data := BlockBytes(blocks).value;
            |data| == 4 * |blocks| && Hex.Decode(blocks[i]) == Some(data[4 * i..4 * i + 4])
  {
    var last := |blocks| - 1;
    BlockBytesLength(blocks);
    BlockBytesLength(blocks[..last]);
    var data, front := BlockBytes(blocks).value, BlockBytes(blocks[..last]).value;
    assert data == front + Hex.Decode(blocks[last]).value;
    if i < last {
      BlockBytesAt(blocks[..last], i);
      assert data[4 * i..4 * i + 4] == front[4 * i..4 * i + 4];
    } else {
      assert data[4 * i..4 * i + 4] == Hex.Decode(blocks[last]).value;
    }
  }

  /** The numbers below k. */
  function Below(k: nat): (s: set<int>)
    ensures |s| == k && forall i :: i in s <==> 0 <= i < k
  {
    if k == 0 then {} else Below(k - 1) + {k - 1}
  }

  /** A partial read never yields a shifted barcode: if the blocks decode at all, they are
      numbered 0, 1, 2, ... without a gap, and there are at least six. */
  lemma NoShift(blocks: map<int, string>)
    requires DecodeBlocks(BlockHexes(blocks)).Some?
    ensures |blocks| >= 6 && forall i :: i in blocks <==> 0 <= i < |blocks|
  {
    var hexes := BlockHexes(blocks);
    var k := |blocks|;
    BlockBytesLength(hexes);
    forall i | 0 <= i < k ensures i in blocks {
      BlockBytesAt(hexes, i);
    }
    var first := Below(k);
    assert first <= blocks.Keys;
    assert |blocks.Keys - first| == |blocks.Keys| - |first|;
  }

  lemma ContentBytes(data: seq<Byte>, blocks: seq<seq<Byte>>)
    requires |data| >= 24 && |blocks| >= 6
    requires forall i :: 1 <= i < 5 ==> data[4 * i..4 * i + 4] == blocks[i]
    ensures DecodeBytes(data).value.content == Barcode(blocks)
  {
    var full := if |data| > 32 then data[..32] else data + NoBytes(32 - |data|);
    assert full[4..20] == data[4..8] + data[8..12] + data[12..16] + data[16..20];
    assert data[4 * 1..4 * 1 + 4] == blocks[1] && data[4 * 2..4 * 2 + 4] == blocks[2]
        && data[4 * 3..4 * 3 + 4] == blocks[3] && data[4 * 4..4 * 4 + 4] == blocks[4];
  }

  /** Whatever blocks a read delivered, as long as they are the tag's own, decoding gives
      the tag's barcode or nothing. */
  lemma PartialRead(found: map<int, string>, blocks: seq<seq<Byte>>)
    requires forall i :: 0 <= i < |blocks| ==> |blocks[i]| == 4
    requires forall k :: k in found ==> 0 <= k < |blocks| && k < 8 && found[k] == Hex.Encode(blocks[k])
    requires DecodeBlocks(BlockHexes(found)).Some?
    ensures |blocks| >= 6 && DecodeBlocks(BlockHexes(found)).value.content == Barcode(blocks)
  {
    hide BlockBytes, Barcode, Hex.Decode;
    NoShift(found);
    var hexes := BlockHexes(found);
    var data := BlockBytes(hexes).value;
    BlockBytesLength(hexes);
    assert 5 in found;
    forall i | 0 <= i < 6 ensures data[4 * i..4 * i + 4] == blocks[i] {
      assert i in found;
      BlockBytesAt(hexes, i);
      Hex.DecodeEncode(blocks[i]);
    }
    ContentBytes(data, blocks);
  }

  lemma KeyCount(found: map<int, string>, k: nat)
    requires forall i :: i in found <==> 0 <= i < k
    ensures |found| == k
  {
    assert found.Keys == Below(k);
  }

  lemma {:induction false} AllDecode(hexes: seq<string>)
    requires forall i :: 0 <= i < |hexes| ==> Hex.Decode(hexes[i]).Some? && |Hex.Decode(hexes[i]).value| == 4
    ensures BlockBytes(hexes).Some? && (DecodeBlocks(hexes).Some? <==> |hexes| >= 6)
  {
    if hexes != [] {
      AllDecode(hexes[..|hexes| - 1]);
    }
    BlockBytesLength(hexes);
  }

  /** A complete read reports the content of the tag. */
  lemma CompleteRead(found: map<int, string>, blocks: seq<seq<Byte>>)
    requires forall i :: 0 <= i < |blocks| ==> |blocks[i]| == 4
    requires forall k :: k in found <==> 0 <= k < |blocks| && k < 8
    requires forall k :: k in found ==> found[k] == Hex.Encode(blocks[k])
    ensures DecodeBlocks(BlockHexes(found)).Some? <==> |blocks| >= 6
    ensures |found| == if |blocks| < 8 then |blocks| else 8
  {
    KeyCount(found, if |blocks| < 8 then |blocks| else 8);
    var hexes := BlockHexes(found);
    forall i | 0 <= i < |hexes| ensures Hex.Decode(hexes[i]) == Some(blocks[i]) {
      Hex.DecodeEncode(blocks[i]);
    }
    AllDecode(hexes);
  }

  /** The security text after reading the AFI byte: the byte, or nothing after a fault. */
  predicate SecurityRead(security: string, memory: Memory, fault: Fault) {
    security == AfiText(memory.afi) || (security == "" && !fault.Delivered?)
  }

  /** The content after reading the blocks: the barcode; after a fault possibly nothing, or
      the first block of data that do not decode. */
  predicate ContentRead(content: seq<Byte>, blocks: seq<seq<Byte>>, fault: Fault) {
    content == ContentOf(blocks)
    || (fault != FAITHFUL && (content == [] || (|blocks| > 0 && content == blocks[0])))
  }

  /** A report is exact in each part that was read without a fault. */
  predicate Reported(info: TagInfo, memory: Memory, afiFault: Fault, blocksFault: Fault) {
    SecurityRead(info.security, memory, afiFault) && ContentRead(info.content, memory.blocks, blocksFault)
  }

  /** The i-th report is about the i-th tag of the pad. */
  predicate ReportedAt(info: TagInfo, pad: Pad, i: nat, afiFault: Fault, blocksFault: Fault) {
    i < |pad.order| && pad.order[i] in pad.tags && info.sid == Hex.Encode(pad.order[i])
    && Reported(info, pad.tags[pad.order[i]], afiFault, blocksFault)
  }

  /** The security text of a scan. */
  function SecurityIn(read: Result<Byte>): string {
    match read case Ok(afi) => AfiText(afi) case Err => ""
  }

  /** The content that a scan makes of the blocks read: the barcode if they decode, else the
      first block as it is. */
  function ContentIn(read: Result<map<int, string>>): seq<Byte> {
    match read
    case Err => []
    case Ok(found) =>
      if |found| == 0 then []
      else match DecodeBlocks(BlockHexes(found))
        case Some(tag) => tag.content
        case None =>
          if 0 in found && Hex.Decode(found[0]).Some? then Hex.Decode(found[0]).value else []
  }

  function ScanTagRun(env: Environment, line: Line, tag: string): (Line, TagInfo) {
    var (one, afi) := ReadAfiRun(env, line, IdOf(tag));
    var (two, read) := ReadBlocksRun(env, one, IdOf(tag), 0, 8);
    (two, TagInfo(tag, ContentIn(read), SecurityIn(afi)))
  }

  /** Scanning some tags after others whose reports are there already. */
  function ScanTagsRun(env: Environment, line: Line, tags: seq<string>, infos: seq<TagInfo>)
    : (Line, seq<TagInfo>)
    decreases |tags|
  {
    if tags == [] then (line, infos)
    else
      var (after, info) := ScanTagRun(env, line, tags[0]);
      ScanTagsRun(env, after, tags[1..], infos + [info])
  }

  /** A scan, given the number of failed inventories in a row; the second result is that
      number afterwards. */
  function ScanRun(env: Environment, line: Line, failures: nat): (Line, nat, Result<seq<TagInfo>>) {
    var (after, left, tags) := InventoryWithResetRun(env, line, failures);
    match tags
    case Err => (after, left, Err)
    case Ok(tags) => var (end, infos) := ScanTagsRun(env, after, tags, []); (end, left, Ok(infos))
  }

  /** Blocks numbered 0, 1, 2, ... without a gap. */
  ghost predicate GapFree(found: map<int, string>) {
    forall i :: i in found <==> 0 <= i < |found|
  }

  lemma GapFreeDecodes(found: map<int, string>, blocks: seq<seq<Byte>>)
    requires forall i :: 0 <= i < |blocks| ==> |blocks[i]| == 4
    requires forall k :: k in found ==> 0 <= k < |blocks| && found[k] == Hex.Encode(blocks[k])
    requires |found| >= 6 && GapFree(found)
    ensures DecodeBlocks(BlockHexes(found)).Some?
  {
    hide DecodeBlocks;
    var hexes := BlockHexes(found);
    forall i | 0 <= i < |hexes| ensures Hex.Decode(hexes[i]) == Some(blocks[i]) {
      Hex.DecodeEncode(blocks[i]);
    }
    AllDecode(hexes);
  }

  /** What a scan makes of some of a tag's own blocks: the barcode exactly if they are without
      a gap and at least six, else the first block if it is there. */
  lemma ContentExact(found: map<int, string>, blocks: seq<seq<Byte>>)
    requires forall i :: 0 <= i < |blocks| ==> |blocks[i]| == 4
    requires forall k :: k in found ==> 0 <= k < |blocks| && k < 8 && found[k] == Hex.Encode(blocks[k])
    ensures |found| >= 6 && GapFree(found) ==> |blocks| >= 6 && ContentIn(Ok(found)) == Barcode(blocks)
    ensures !(|found| >= 6 && GapFree(found)) ==> ContentIn(Ok(found)) == if 0 in found then blocks[0] else []
  {
    hide BlockHexes, DecodeBlocks, Barcode, Hex.Decode;
    if DecodeBlocks(BlockHexes(found)).Some? {
      NoShift(found);
      PartialRead(found, blocks);
    } else if 0 in found {
      Hex.DecodeEncode(blocks[0]);
    }
    if |found| >= 6 && GapFree(found) {
      GapFreeDecodes(found, blocks);
    }
  }

  /** A read is complete if it has every block that the tag has and a scan asks for. */
  ghost predicate Whole(found: map<int, string>, blocks: nat) {
    forall k :: k in found <==> 0 <= k < blocks && k < 8
  }

  lemma WholeGapFree(found: map<int, string>, blocks: nat)
    requires Whole(found, blocks)
    ensures GapFree(found) && (|found| >= 6 <==> blocks >= 6) && (0 in found <==> blocks > 0)
  {
    KeyCount(found, if blocks < 8 then blocks else 8);
  }

  lemma ContentReported(found: map<int, string>, blocks: seq<seq<Byte>>)
    requires forall i :: 0 <= i < |blocks| ==> |blocks[i]| == 4
    requires forall k :: k in found ==> 0 <= k < |blocks| && k < 8 && found[k] == Hex.Encode(blocks[k])
    ensures var content := ContentIn(Ok(found));
            (content == [] || content == ContentOf(blocks) || (|blocks| > 0 && content == blocks[0]))
            && (Whole(found, |blocks|) ==> content == ContentOf(blocks))
  {
    hide ContentIn, DecodeBlocks, Barcode, GapFree, Whole;
    ContentExact(found, blocks);
    if Whole(found, |blocks|) {
      WholeGapFree(found, |blocks|);
    }
  }

  lemma NothingRead()
    ensures ContentIn(Err) == []
  {}

  lemma ContentReads(env: Environment, line: Line, id: Id)
    requires |id| == 8 && id in line.pad.tags && line.open
    ensures ContentRead(ContentIn(ReadBlocksRun(env, line, Some(id), 0, 8).1), line.pad.tags[id].blocks,
                        env.faults(line.turn))
  {
    hide ReadBlocksRun, ContentOf, ContentIn;
    ReadBlocksReads(env, line, Some(id), 0, 8);
    var read := ReadBlocksRun(env, line, Some(id), 0, 8).1;
    if read.Ok? {
      ContentReported(read.value, line.pad.tags[id].blocks);
    } else {
      assert ContentIn(Err) == [] by { NothingRead(); }
    }
  }

  lemma NamesKnown(pad: Pad, i: nat)
    requires pad.Valid() && i < |pad.order|
    ensures Known(Names(pad)[i], pad) && IdOf(Names(pad)[i]) == Some(pad.order[i])
  {
    Hex.DecodeEncode(pad.order[i]);
  }

  /** The report of the i-th tag is exact in each part read without a fault. */
  lemma ScanTagReads(env: Environment, line: Line, i: nat)
    requires i < |line.pad.order| && line.open
    ensures var (after, info) := ScanTagRun(env, line, Names(line.pad)[i]);
            OnlyRead(line, after) && after.turn == line.turn + 2
            && ReportedAt(info, line.pad, i, env.faults(line.turn), env.faults(line.turn + 1))
  {
    hide ContentIn, ReadBlocksRun, ReadAfiRun, ContentRead, AfiText, Hex.Encode, Hex.Decode;
    var tag := Names(line.pad)[i];
    NamesKnown(line.pad, i);
    ReadAfiReads(env, line, IdOf(tag));
    var one := ReadAfiRun(env, line, IdOf(tag)).0;
    ReadBlocksReads(env, one, IdOf(tag), 0, 8);
    ContentReads(env, one, line.pad.order[i]);
  }

  /** The two reads of the i-th tag are commands base + 2i and base + 2i + 1. */
  ghost predicate Accurate(infos: seq<TagInfo>, pad: Pad, faults: nat -> Fault, base: nat) {
    forall i :: 0 <= i < |infos| ==>
      ReportedAt(infos[i], pad, i, faults(base + 2 * i), faults(base + 2 * i + 1))
  }

  lemma AccurateOneMore(infos: seq<TagInfo>, info: TagInfo, pad: Pad, faults: nat -> Fault, base: nat)
    requires Accurate(infos, pad, faults, base)
    requires ReportedAt(info, pad, |infos|, faults(base + 2 * |infos|), faults(base + 2 * |infos| + 1))
    ensures Accurate(infos + [info], pad, faults, base)
  {
    var all := infos + [info];
    forall i | 0 <= i < |all|
      ensures ReportedAt(all[i], pad, i, faults(base + 2 * i), faults(base + 2 * i + 1))
    {
      assert i < |infos| ==> all[i] == infos[i];
    }
  }

  lemma NothingReported(pad: Pad, faults: nat -> Fault, base: nat)
    ensures Accurate([], pad, faults, base)
  {}

  lemma {:induction false} ScanTagsRead(env: Environment, line: Line, infos: seq<TagInfo>, base: nat)
    requires |infos| <= |line.pad.order| && line.open && line.turn == base + 2 * |infos|
    requires Accurate(infos, line.pad, env.faults, base)
    ensures var (after, all) := ScanTagsRun(env, line, Names(line.pad)[|infos|..], infos);
            OnlyRead(line, after) && |all| == |line.pad.order| && Accurate(all, line.pad, env.faults, base)
    decreases |line.pad.order| - |infos|
  {
    hide ScanTagRun, Accurate, ReportedAt;
    var tags := Names(line.pad);
    if |infos| < |tags| {
      var (after, info) := ScanTagRun(env, line, tags[|infos|]);
      ScanTagReads(env, line, |infos|);
      AccurateOneMore(infos, info, line.pad, env.faults, base);
      ScanTagsRead(env, after, infos + [info], base);
      assert tags[|infos|..][1..] == tags[|infos| + 1..];
    }
  }

  /** The number of the command that reads the first tag of a scan. */
  function ScanBase(env: Environment, line: Line, failures: nat): nat {
    InventoryWithResetRun(env, line, failures).0.turn
  }

  /** A scan changes no tag; when it succeeds it reports every tag on the pad in order, exact
      in each part read without a fault. */
  ghost predicate ScanPromise(env: Environment, before: Line, failures: nat, after: Line, r: Result<seq<TagInfo>>) {
    after.pad == before.pad
    && (r.Ok? ==> |r.value| == |before.pad.order|
                  && Accurate(r.value, before.pad, env.faults, ScanBase(env, before, failures)))
    && (Clean(env, before) ==> r.Ok? && ScanBase(env, before, failures) == before.turn + 1)
  }

  lemma ScanKeepsPromise(env: Environment, line: Line, failures: nat)
    ensures var (after, left, r) := ScanRun(env, line, failures); ScanPromise(env, line, failures, after, r)
  {
    hide InventoryWithResetRun, ScanTagsRun;
    InventoryWithResetReads(env, line, failures);
    var (after, left, tags) := InventoryWithResetRun(env, line, failures);
    if tags.Ok? {
      assert Names(after.pad)[0..] == tags.value;
      ScanTagsRead(env, after, [], after.turn);
    }
  }

  /** After its inventory a scan does not touch the port. */
  lemma ScanKeepsPort(env: Environment, line: Line, failures: nat)
    ensures var (after, _, _) := ScanRun(env, line, failures);
            OnlyRead(InventoryWithResetRun(env, line, failures).0, after)
  {
    hide InventoryWithResetRun, ScanTagsRun, Accurate;
    InventoryWithResetReads(env, line, failures);
    var (after, left, tags) := InventoryWithResetRun(env, line, failures);
    if tags.Ok? {
      assert Names(after.pad)[0..] == tags.value;
      NothingReported(after.pad, env.faults, after.turn);
      ScanTagsRead(env, after, [], after.turn);
    }
  }

  method ReadSecurity(reader: Reader, tag: string) returns (security: string)
    requires reader.Valid()
    modifies reader`line, reader`sent, reader.port
    ensures reader.Valid()
    ensures var (after, afi) := ReadAfiRun(reader.env, old(reader.line), IdOf(tag));
            reader.line == after && security == SecurityIn(afi)
  {
    hide ReadAfiRun, AfiRead;
    security := "";
    var afi := reader.ReadAfi(tag);
    if afi.Ok? {
      security := AfiText(afi.value);
    }
  }

  method ContentFrom(found: map<int, string>) returns (content: seq<Byte>)
    ensures content == ContentIn(Ok(found))
  {
    content := [];
    if |found| > 0 {
      var hexes := MakeBlockHexes(found);
      var decoded := Decode(hexes);
      if decoded.Some? {
        content := decoded.value.content;
      } else if 0 in found {
        var bytes := Hex.Decode(found[0]);
        if bytes.Some? {
          content := bytes.value;
        }
      }
    }
  }

  method ReadContent(reader: Reader, tag: string) returns (content: seq<Byte>)
    requires reader.Valid()
    modifies reader`line, reader`sent, reader.port
    ensures reader.Valid()
    ensures var (after, read) := ReadBlocksRun(reader.env, old(reader.line), IdOf(tag), 0, 8);
            reader.line == after && content == ContentIn(read)
  {
    hide ReadBlocksRun, BlocksRead;
    content := [];
    var read := reader.ReadBlocks(tag, 0, 8);
    if read.Ok? {
      content := ContentFrom(read.value);
    }
  }

  method ScanTag(reader: Reader, tag: string) returns (info: TagInfo)
    requires reader.Valid()
    modifies reader`line, reader`sent, reader.port
    ensures reader.Valid() && (reader.line, info) == ScanTagRun(reader.env, old(reader.line), tag)
  {
    hide ReadAfiRun, ReadBlocksRun;
    var security := ReadSecurity(reader, tag);
    var content := ReadContent(reader, tag);
    info := TagInfo(tag, content, security);
  }

  method ScanAll(reader: Reader, tags: seq<string>) returns (infos: seq<TagInfo>)
    requires reader.Valid()
    modifies reader`line, reader`sent, reader.port
    ensures reader.Valid() && (reader.line, infos) == ScanTagsRun(reader.env, old(reader.line), tags, [])
  {
    hide ScanTagRun;
    infos := [];
    for i := 0 to |tags|
      invariant reader.Valid()
      invariant ScanTagsRun(reader.env, old(reader.line), tags, [])
             == ScanTagsRun(reader.env, reader.line, tags[i..], infos)
    {
      var info := ScanTag(reader, tags[i]);
      infos := infos + [info];
      assert tags[i..][1..] == tags[i + 1..];
    }
  }

  /** One pass over the pad. */
  method Scan(reader: Reader) returns (r: Result<seq<TagInfo>>, ghost attempt: Attempt)
    requires reader.Valid() && !reader.locked
    modifies reader, reader.port
    ensures reader.Valid() && !reader.locked
    ensures (reader.line, reader.counters.failures, r)
         == ScanRun(reader.env, old(reader.line), old(reader.counters.failures))
    ensures ScanPromise(reader.env, old(reader.line), old(reader.counters.failures), reader.line, r)
    ensures (reader.counters, r.Ok?) == Count(old(reader.counters), attempt)
    ensures attempt == AttemptOf(reader.env, old(reader.line))
    ensures attempt.reopen == reader.env.reopens(old(reader.counters.tried))
    ensures Clean(reader.env, old(reader.line)) ==> attempt.first
  {
    hide InventoryWithResetRun, ScanTagsRun, ScanPromise, InventoryRun;
    ScanKeepsPromise(reader.env, reader.line, reader.counters.failures);
    InventoryReads(reader.env, reader.line);
    reader.Lock();
    var tags: Result<seq<string>>;
    tags, attempt := reader.InventoryWithReset();
    if tags.Err? {
      reader.Unlock();
      return Err, attempt;
    }
    var infos := ScanAll(reader, tags.value);
    r := Ok(infos);
    reader.Unlock();
  }

  // ---------------------------------------------------------------- programming

  predicate IsBlank(content: seq<Byte>) {
    ToLower(content) == BLANK_WORD
  }

  predicate Letter(b: Byte, lower: Byte) {
    b == lower || b == lower - 0x20
  }

  lemma {:induction false} LowerFirst(text: seq<Byte>, c: Byte, rest: seq<Byte>)
    requires 0x61 <= c <= 0x7A && c != 0x6B
    ensures ToLower(text) == [c] + rest <==> text != [] && Letter(text[0], c) && ToLower(text[1..]) == rest
  {
    var lower := ToLower(text);
    assert lower == [c] + rest <==> lower != [] && lower[0] == c && lower[1..] == rest;
  }

  lemma {:induction false} LowerLast(text: seq<Byte>)
    ensures ToLower(text) == [0x6B] <==> text == KELVIN || (|text| == 1 && Letter(text[0], 0x6B))
  {
    var lower := ToLower(text);
    assert lower == [0x6B] <==> lower != [] && lower[0] == 0x6B && lower[1..] == [];
    assert ToLower([]) == [];
    if KELVIN <= text {
      assert ToLower(text[3..]) == [] <==> text[3..] == [];
      assert text == KELVIN + text[3..];
    } else if text != [] {
      assert ToLower(text[1..]) == [] <==> text[1..] == [];
    }
  }

  /** A content asks for a blank exactly if it is the word in any mixture of cases, the k
      perhaps a Kelvin sign. */
  lemma {:induction false} BlankExact(content: seq<Byte>)
    ensures IsBlank(content) <==>
              |content| >= 5 && Letter(content[0], 0x62) && Letter(content[1], 0x6C) && Letter(content[2], 0x61)
              && Letter(content[3], 0x6E)
              && (content[4..] == [0xE2, 0x84, 0xAA] || (|content| == 5 && Letter(content[4], 0x6B)))
  {
    hide ToLower, Letter;
    LowerFirst(content, 0x62, [0x6C, 0x61, 0x6E, 0x6B]);
    if content != [] {
      LowerFirst(content[1..], 0x6C, [0x61, 0x6E, 0x6B]);
      if |content| > 1 {
        LowerFirst(content[2..], 0x61, [0x6E, 0x6B]);
        if |content| > 2 {
          LowerFirst(content[3..], 0x6E, [0x6B]);
          if |content| > 3 {
            LowerLast(content[4..]);
          }
        }
      }
    }
  }

  /** The tag that an operation with some content describes. */
  function TagOf(op: ProgramOp): Tag501 {
    if op.custom.Some? then op.custom.value else TagFor(op.content)
  }

  /** What is to be stored for an operation. */
  function DataFor(op: ProgramOp): (data: seq<Byte>)
    ensures |data| <= 32 && |data| % 4 == 0
  {
    if IsBlank(op.content) then BLANK else Layout(TagOf(op))
  }

  function AfiFor(op: ProgramOp): Byte {
    if !IsBlank(op.content) && IsBook(op.content) then AFI_SECURE else AFI_UNSECURE
  }

  /** A tag is known, holds the data in its first blocks and has the AFI byte. */
  predicate Contains(pad: Pad, sid: string, data: seq<Byte>, afi: Byte)
    requires |data| % 4 == 0
  {
    Known(sid, pad)
    && Holds(pad.tags[IdOf(sid).value].blocks, data) && pad.tags[IdOf(sid).value].afi == afi
  }

  predicate Programmed(pad: Pad, op: ProgramOp) {
    Contains(pad, op.sid, DataFor(op), AfiFor(op))
  }

  /** Apart from one tag nothing changed. */
  ghost predicate OnlyTag(before: Pad, after: Pad, id: Option<Id>) {
    after.order == before.order && after.tags.Keys == before.tags.Keys
    && forall k :: k in before.tags && Some(k) != id ==> after.tags[k] == before.tags[k]
  }

  lemma UpperNames(tag: string)
    ensures IdOf(Hex.Upper(tag)) == IdOf(tag)
  {
    Hex.DecodeUpper(tag);
  }

  /** The encoded content of an operation and the AFI byte that goes with it. */
  method Prepare(op: ProgramOp) returns (text: string, afi: Byte, ghost data: seq<Byte>)
    ensures data == DataFor(op) && afi == AfiFor(op)
    ensures Hex.Decode(text) == Some(data) && |text| <= 64
  {
    data := DataFor(op);
    Hex.DecodeEncode(data);
    if ToLower(op.content) == BLANK_WORD {
      text := Blank();
      return text, AFI_UNSECURE, data;
    }
    if op.custom.Some? {
      var encoded := Encode(op.custom.value);
      text := JoinBlocks(encoded, Layout(op.custom.value));
    } else {
      text := EncodeContent(op.content);
    }
    afi := AFI_UNSECURE;
    if BOOK_PREFIX <= op.content {
      afi := AFI_SECURE;
    }
  }

  lemma BothWritten(before: Pad, after: Pad, sid: string, data: seq<Byte>, afi: Byte)
    requires Known(sid, before) && before.Fits(IdOf(sid).value, data)
    requires after == before.WithBlocks(IdOf(sid).value, data, {}).WithAfi(IdOf(sid).value, afi)
    ensures Contains(after, sid, data, afi)
  {
    var id := IdOf(sid).value;
    assert after.tags[id].blocks == Stored(before.tags[id].blocks, data, {});
  }

  /** Write the blocks of a tag, then its AFI byte. */
  function WriteTagRun(env: Environment, line: Line, sid: string, data: seq<Byte>, afi: Byte)
    : (Line, seq<ProgramError>)
    requires |data| / 4 < 0x1_0000
  {
    var (one, written) := WriteBlocksRun(env, line, IdOf(sid), data);
    if !written then (one, [BlocksNotWritten(Hex.Upper(sid))])
    else
      var (two, secured) := WriteAfiRun(env, one, IdOf(sid), afi, 100);
      (two, if secured then [] else [AfiNotWritten(Hex.Upper(sid))])
  }

  function ProgramOneRun(env: Environment, line: Line, op: ProgramOp): (Line, seq<ProgramError>) {
    if |op.content| > 16 then (line, [TooLong(Hex.Upper(op.sid))])
    else WriteTagRun(env, line, op.sid, DataFor(op), AfiFor(op))
  }

  function WithErrors(res: ProgramResult, errors: seq<ProgramError>): ProgramResult {
    if errors != [] then ProgramResult(0, res.errors + errors) else res
  }

  /** Programming some tags after others, with the result so far. */
  function ProgramRun(env: Environment, line: Line, ops: seq<ProgramOp>, res: ProgramResult)
    : (Line, ProgramResult)
    decreases |ops|
  {
    if ops == [] then (line, res)
    else
      var (after, errors) := ProgramOneRun(env, line, ops[0]);
      ProgramRun(env, after, ops[1..], WithErrors(res, errors))
  }

  /** The tag that an operation may change: none if its content is too long. */
  function Target(op: ProgramOp): Option<Id> {
    if |op.content| > 16 then None else IdOf(op.sid)
  }

  lemma WroteOnly(before: Pad, after: Pad, id: Option<Id>, data: seq<Byte>)
    requires after == before || (id.Some? && Wrote(before, after, id.value, data))
    ensures OnlyTag(before, after, id)
  {}

  lemma OnlyTagTwice(a: Pad, b: Pad, c: Pad, id: Option<Id>)
    requires OnlyTag(a, b, id) && OnlyTag(b, c, id)
    ensures OnlyTag(a, c, id)
  {}

  lemma AfiOnly(before: Line, after: Line, id: Option<Id>, afi: Byte, ok: bool)
    requires AfiWritten(before, after, id, afi, ok)
    ensures OnlyTag(before.pad, after.pad, id)
  {}

  /** No error means that the tag holds the data and the AFI byte. */
  lemma WriteTagWrites(env: Environment, line: Line, sid: string, data: seq<Byte>, afi: Byte)
    requires |data| % 4 == 0 && |data| / 4 < 0x1_0000
    ensures var (after, errors) := WriteTagRun(env, line, sid, data, afi);
            OnlyTag(line.pad, after.pad, IdOf(sid)) && (errors == [] ==> Contains(after.pad, sid, data, afi))
  {
    hide WriteBlocksRun, WriteAfiRun, Contains, OnlyTag, Wrote;
    var id := IdOf(sid);
    WriteBlocksWrites(env, line, id, data);
    var (one, written) := WriteBlocksRun(env, line, id, data);
    WroteOnly(line.pad, one.pad, id, data);
    WriteAfiWrites(env, one, id, afi, 100);
    var (two, secured) := WriteAfiRun(env, one, id, afi, 100);
    AfiOnly(one, two, id, afi, secured);
    OnlyTagTwice(line.pad, one.pad, two.pad, id);
    if written && secured {
      BothWritten(line.pad, two.pad, sid, data, afi);
    }
  }

  /** What a request leaves of the tags, by the error that it has: without one its blocks and
      its AFI byte; if the blocks were not written, at most some of them and no AFI byte; if
      the AFI byte was not, the blocks and the old or the requested byte. */
  ghost predicate RequestDone(before: Pad, after: Pad, op: ProgramOp, errors: seq<ProgramError>) {
    var id, data, tag := IdOf(op.sid), DataFor(op), Hex.Upper(op.sid);
    if |op.content| > 16 then errors == [TooLong(tag)] && after == before
    else if errors == [BlocksNotWritten(tag)] then
      after == before || (id.Some? && Wrote(before, after, id.value, data))
    else
      Known(op.sid, before) && before.Fits(id.value, data)
      && var stored := before.WithBlocks(id.value, data, {});
         if errors == [] then after == stored.WithAfi(id.value, AfiFor(op))
         else errors == [AfiNotWritten(tag)] && (after == stored || after == stored.WithAfi(id.value, AfiFor(op)))
  }

  lemma ProgramOneDone(env: Environment, line: Line, op: ProgramOp)
    ensures var (after, errors) := ProgramOneRun(env, line, op); RequestDone(line.pad, after.pad, op, errors)
  {
    hide WriteBlocksRun, WriteAfiRun, DataFor, AfiFor, Wrote;
    if |op.content| <= 16 {
      var id, data := IdOf(op.sid), DataFor(op);
      WriteBlocksWrites(env, line, id, data);
      WriteAfiWrites(env, WriteBlocksRun(env, line, id, data).0, id, AfiFor(op), 100);
    }
  }

  /** No error means that the tag is programmed; content over 16 bytes is an error and
      changes nothing. */
  lemma ProgramOnePrograms(env: Environment, line: Line, op: ProgramOp)
    ensures var (after, errors) := ProgramOneRun(env, line, op);
            OnlyTag(line.pad, after.pad, Target(op))
            && (errors == [] ==> |op.content| <= 16 && Programmed(after.pad, op))
            && (|op.content| > 16 ==> errors == [TooLong(Hex.Upper(op.sid))])
  {
    hide WriteTagRun, Contains, DataFor, AfiFor;
    if |op.content| <= 16 {
      WriteTagWrites(env, line, op.sid, DataFor(op), AfiFor(op));
    }
  }

  /** Write blocks to the tag of a request, its number put in upper case. */
  method PutBlocks(reader: Reader, sid: string, text: string, ghost data: seq<Byte>) returns (ok: bool)
    requires reader.Valid() && Hex.Decode(text) == Some(data) && |text| <= 64 && |data| % 4 == 0
    modifies reader`line, reader`sent, reader.port
    ensures reader.Valid()
    ensures (reader.line, ok) == WriteBlocksRun(reader.env, old(reader.line), IdOf(sid), data)
  {
    hide WriteBlocksRun, BlocksWritten;
    UpperNames(sid);
    assert WholeBlocks(data) == data;
    ok := reader.WriteBlocks(Hex.Upper(sid), text);
  }

  /** Set the AFI byte of the tag of a request, its number put in upper case. */
  method PutAfi(reader: Reader, sid: string, afi: Byte) returns (ok: bool)
    requires reader.Valid()
    modifies reader`line, reader`sent, reader.port
    ensures reader.Valid()
    ensures (reader.line, ok) == WriteAfiRun(reader.env, old(reader.line), IdOf(sid), afi, 100)
  {
    hide WriteAfiRun, AfiWritten;
    UpperNames(sid);
    ok := reader.WriteAfi(Hex.Upper(sid), afi);
  }

  method WriteTag(reader: Reader, sid: string, text: string, afi: Byte, ghost data: seq<Byte>)
    returns (errors: seq<ProgramError>)
    requires reader.Valid() && Hex.Decode(text) == Some(data) && |text| <= 64 && |data| % 4 == 0
    modifies reader`line, reader`sent, reader.port
    ensures reader.Valid()
    ensures (reader.line, errors) == WriteTagRun(reader.env, old(reader.line), sid, data, afi)
  {
    hide WriteBlocksRun, WriteAfiRun;
    var written := PutBlocks(reader, sid, text, data);
    if !written {
      return [BlocksNotWritten(Hex.Upper(sid))];
    }
    var secured := PutAfi(reader, sid, afi);
    if !secured {
      return [AfiNotWritten(Hex.Upper(sid))];
    }
    errors := [];
  }

  method ProgramOne(reader: Reader, op: ProgramOp) returns (errors: seq<ProgramError>)
    requires reader.Valid()
    modifies reader`line, reader`sent, reader.port
    ensures reader.Valid() && (reader.line, errors) == ProgramOneRun(reader.env, old(reader.line), op)
  {
    hide WriteTagRun;
    if |op.content| > 16 {
      return [TooLong(Hex.Upper(op.sid))];
    }
    var text, afi, data := Prepare(op);
    errors := WriteTag(reader, op.sid, text, afi, data);
  }

  /** No later operation is on the same tag. */
  predicate LastFor(ops: seq<ProgramOp>, i: nat)
    requires i < |ops|
  {
    forall j :: i < j < |ops| ==> IdOf(ops[j].sid) != IdOf(ops[i].sid)
  }

  /** Every tag holds what the last operation on it asked for. */
  ghost predicate AllProgrammed(pad: Pad, ops: seq<ProgramOp>) {
    forall i :: 0 <= i < |ops| && LastFor(ops, i) ==>
      |ops[i].content| <= 16 && Programmed(pad, ops[i])
  }

  /** Tags that no operation names are as before. */
  ghost predicate OthersKept(before: Pad, after: Pad, ops: seq<ProgramOp>) {
    after.order == before.order && after.tags.Keys == before.tags.Keys
    && forall id :: id in before.tags && (forall j :: 0 <= j < |ops| ==> Target(ops[j]) != Some(id))
         ==> after.tags[id] == before.tags[id]
  }

  /** Every content over 16 bytes is reported. */
  predicate LongReported(ops: seq<ProgramOp>, errors: seq<ProgramError>) {
    forall i :: 0 <= i < |ops| && |ops[i].content| > 16 ==> TooLong(Hex.Upper(ops[i].sid)) in errors
  }

  /** What programming has achieved after some operations. */
  ghost predicate Progress(start: Pad, pad: Pad, ops: seq<ProgramOp>, res: ProgramResult) {
    res.ok == (if res.errors == [] then 1 else 0)
    && OthersKept(start, pad, ops) && LongReported(ops, res.errors)
    && (res.ok == 1 ==> AllProgrammed(pad, ops))
  }

  lemma ProgrammedOneMore(before: Pad, after: Pad, ops: seq<ProgramOp>, op: ProgramOp)
    requires AllProgrammed(before, ops) && OnlyTag(before, after, Target(op))
    requires |op.content| <= 16 && Programmed(after, op)
    ensures AllProgrammed(after, ops + [op])
  {
    var all := ops + [op];
    forall i | 0 <= i < |all| && LastFor(all, i)
      ensures |all[i].content| <= 16 && Programmed(after, all[i])
    {
      if i < |ops| {
        assert all[|ops|] == op;
        assert forall j :: i < j < |ops| ==> all[j] == ops[j];
        assert LastFor(ops, i);
      }
    }
  }

  lemma OthersKeptOneMore(start: Pad, before: Pad, after: Pad, ops: seq<ProgramOp>, op: ProgramOp)
    requires OthersKept(start, before, ops) && OnlyTag(before, after, Target(op))
    ensures OthersKept(start, after, ops + [op])
  {
    var all := ops + [op];
    forall id | id in start.tags && (forall j :: 0 <= j < |all| ==> Target(all[j]) != Some(id))
      ensures after.tags[id] == start.tags[id]
    {
      assert all[|ops|] == op;
      assert forall j :: 0 <= j < |ops| ==> all[j] == ops[j];
    }
  }

  lemma ProgressOneMore(start: Pad, before: Pad, after: Pad, ops: seq<ProgramOp>, res: ProgramResult,
                        op: ProgramOp, errors: seq<ProgramError>)
    requires Progress(start, before, ops, res) && OnlyTag(before, after, Target(op))
    requires errors == [] ==> |op.content| <= 16 && Programmed(after, op)
    requires |op.content| > 16 ==> errors == [TooLong(Hex.Upper(op.sid))]
    ensures Progress(start, after, ops + [op], WithErrors(res, errors))
  {
    OthersKeptOneMore(start, before, after, ops, op);
    if errors == [] && res.ok == 1 {
      ProgrammedOneMore(before, after, ops, op);
    }
  }

  lemma {:induction false} ProgramPrograms(env: Environment, start: Pad, line: Line, done: seq<ProgramOp>,
                                           ops: seq<ProgramOp>, res: ProgramResult)
    requires Progress(start, line.pad, done, res)
    ensures var (after, end) := ProgramRun(env, line, ops, res); Progress(start, after.pad, done + ops, end)
    decreases |ops|
  {
    hide ProgramOneRun, Progress, Programmed, OnlyTag;
    if ops == [] {
      assert done + ops == done;
    } else {
      var (after, errors) := ProgramOneRun(env, line, ops[0]);
      ProgramOnePrograms(env, line, ops[0]);
      ProgressOneMore(start, line.pad, after.pad, done, res, ops[0], errors);
      ProgramPrograms(env, start, after, done + [ops[0]], ops[1..], WithErrors(res, errors));
      assert done + [ops[0]] + ops[1..] == done + ops;
    }
  }

  const NO_ERRORS := ProgramResult(1, [])

  function AllErrors(errs: seq<seq<ProgramError>>): seq<ProgramError> {
    if errs == [] then [] else errs[0] + AllErrors(errs[1..])
  }

  /** Requests done one after the other, with the tags before, between and after them and
      the errors of each. */
  ghost predicate Steps(pads: seq<Pad>, errs: seq<seq<ProgramError>>, ops: seq<ProgramOp>) {
    |pads| == |ops| + 1 && |errs| == |ops|
    && forall i :: 0 <= i < |ops| ==> RequestDone(pads[i], pads[i + 1], ops[i], errs[i])
  }

  lemma {:induction false} ProgramSteps(env: Environment, line: Line, ops: seq<ProgramOp>, res: ProgramResult)
    returns (pads: seq<Pad>, errs: seq<seq<ProgramError>>)
    ensures var (after, end) := ProgramRun(env, line, ops, res);
            Steps(pads, errs, ops) && pads[0] == line.pad && pads[|ops|] == after.pad
            && end.errors == res.errors + AllErrors(errs)
    decreases |ops|
  {
    hide ProgramOneRun, RequestDone;
    if ops == [] {
      pads, errs := [line.pad], [];
    } else {
      var (after, errors) := ProgramOneRun(env, line, ops[0]);
      ProgramOneDone(env, line, ops[0]);
      var morePads, moreErrs := ProgramSteps(env, after, ops[1..], WithErrors(res, errors));
      pads, errs := [line.pad] + morePads, [errors] + moreErrs;
      forall i | 0 <= i < |ops| ensures RequestDone(pads[i], pads[i + 1], ops[i], errs[i]) {
        if i > 0 {
          assert RequestDone(morePads[i - 1], morePads[i], ops[1..][i - 1], moreErrs[i - 1]);
        }
      }
      assert errs[1..] == moreErrs;
      assert res.errors + (errors + AllErrors(moreErrs)) == res.errors + errors + AllErrors(moreErrs);
    }
  }

  /** The blocks of the request were written: it has no error or only that of its AFI byte. */
  predicate BlocksDone(errors: seq<ProgramError>) {
    errors == [] || (|errors| == 1 && errors[0].AfiNotWritten?)
  }

  lemma RequestAfi(before: Pad, after: Pad, op: ProgramOp, errors: seq<ProgramError>, id: Id)
    requires RequestDone(before, after, op, errors) && id in before.tags
    ensures id in after.tags
    ensures after.tags[id].afi != before.tags[id].afi ==>
              IdOf(op.sid) == Some(id) && BlocksDone(errors) && after.tags[id].afi == AfiFor(op)
  {
    hide DataFor, AfiFor;
  }

  /** A tag's AFI byte changes only with a request on it whose blocks were written, and then
      it is the byte of that request. */
  lemma {:induction false} AfiIsEarned(pads: seq<Pad>, errs: seq<seq<ProgramError>>, ops: seq<ProgramOp>, id: Id,
                                       n: nat) returns (j: nat)
    requires Steps(pads, errs, ops) && n <= |ops| && id in pads[0].tags
    ensures id in pads[n].tags
    ensures pads[n].tags[id].afi != pads[0].tags[id].afi ==>
              j < n && IdOf(ops[j].sid) == Some(id) && BlocksDone(errs[j]) && pads[n].tags[id].afi == AfiFor(ops[j])
    decreases n
  {
    hide RequestDone, AfiFor;
    j := 0;
    if n > 0 {
      j := AfiIsEarned(pads, errs, ops, id, n - 1);
      assert RequestDone(pads[n - 1], pads[n], ops[n - 1], errs[n - 1]);
      RequestAfi(pads[n - 1], pads[n], ops[n - 1], errs[n - 1], id);
      if pads[n].tags[id].afi != pads[n - 1].tags[id].afi {
        j := n - 1;
      }
    }
  }

  lemma RequestProgrammed(before: Pad, after: Pad, op: ProgramOp)
    requires RequestDone(before, after, op, [])
    ensures |op.content| <= 16 && Programmed(after, op)
  {
    hide DataFor, AfiFor;
    BothWritten(before, after, op.sid, DataFor(op), AfiFor(op));
  }

  lemma RequestKeeps(before: Pad, after: Pad, op: ProgramOp, errors: seq<ProgramError>, other: ProgramOp)
    requires RequestDone(before, after, op, errors) && Programmed(before, other) && IdOf(op.sid) != IdOf(other.sid)
    ensures Programmed(after, other)
  {
    hide DataFor, AfiFor, Holds;
  }

  /** A request without an error of its own, the last on its tag, is programmed in the end,
      even if others failed. */
  lemma {:induction false} ErrorFreeProgrammed(pads: seq<Pad>, errs: seq<seq<ProgramError>>, ops: seq<ProgramOp>,
                                               i: nat, n: nat)
    requires Steps(pads, errs, ops) && i < n <= |ops| && errs[i] == [] && LastFor(ops, i)
    ensures |ops[i].content| <= 16 && Programmed(pads[n], ops[i])
    decreases n
  {
    hide RequestDone, Programmed;
    assert RequestDone(pads[n - 1], pads[n], ops[n - 1], errs[n - 1]);
    if i == n - 1 {
      RequestProgrammed(pads[i], pads[n], ops[i]);
    } else {
      ErrorFreeProgrammed(pads, errs, ops, i, n - 1);
      RequestKeeps(pads[n - 1], pads[n], ops[n - 1], errs[n - 1], ops[i]);
    }
  }

  /** What programming promises: success exactly without errors, and then every tag as its
      last request wants it; in any case each request done as its own error says. */
  ghost predicate ProgramPromise(before: Pad, after: Pad, ops: seq<ProgramOp>, res: ProgramResult) {
    Progress(before, after, ops, res)
    && exists pads, errs :: Steps(pads, errs, ops) && pads[0] == before && pads[|ops|] == after
                            && res.errors == AllErrors(errs)
  }

  lemma {:induction false} ProgramFromStart(env: Environment, line: Line, ops: seq<ProgramOp>)
    ensures var (after, res) := ProgramRun(env, line, ops, NO_ERRORS); Progress(line.pad, after.pad, ops, res)
  {
    ProgramPrograms(env, line.pad, line, [], ops, NO_ERRORS);
    assert [] + ops == ops;
  }

  lemma {:induction false} ProgramKeepsPromise(env: Environment, line: Line, ops: seq<ProgramOp>)
    ensures var (after, res) := ProgramRun(env, line, ops, NO_ERRORS); ProgramPromise(line.pad, after.pad, ops, res)
  {
    hide ProgramRun, Progress;
    ProgramFromStart(env, line, ops);
    var pads, errs := ProgramSteps(env, line, ops, NO_ERRORS);
    assert NO_ERRORS.errors + AllErrors(errs) == AllErrors(errs);
  }

  /** Programming does not reopen the port. */
  lemma {:induction false} ProgramKeepsPort(env: Environment, line: Line, ops: seq<ProgramOp>, res: ProgramResult)
    ensures var (after, _) := ProgramRun(env, line, ops, res); after == line.(pad := after.pad, turn := after.turn)
    decreases |ops|
  {
    hide WriteBlocksRun, WriteAfiRun, DataFor, AfiFor;
    if ops != [] {
      var op, id := ops[0], IdOf(ops[0].sid);
      WriteBlocksWrites(env, line, id, DataFor(op));
      WriteAfiWrites(env, WriteBlocksRun(env, line, id, DataFor(op)).0, id, AfiFor(op), 100);
      var (next, errors) := ProgramOneRun(env, line, op);
      ProgramKeepsPort(env, next, ops[1..], WithErrors(res, errors));
    }
  }

  method Program(reader: Reader, ops: seq<ProgramOp>) returns (res: ProgramResult)
    requires reader.Valid() && !reader.locked
    modifies reader`line, reader`sent, reader`locked, reader.port
    ensures reader.Valid() && !reader.locked
    ensures (reader.line, res) == ProgramRun(reader.env, old(reader.line), ops, NO_ERRORS)
    ensures ProgramPromise(old(reader.line.pad), reader.line.pad, ops, res)
  {
    hide ProgramOneRun, ProgramPromise;
    ProgramKeepsPromise(reader.env, reader.line, ops);
    reader.Lock();
    res := ProgramResult(1, []);
    for i := 0 to |ops|
      invariant reader.Valid() && reader.locked
      invariant ProgramRun(reader.env, old(reader.line), ops, NO_ERRORS)
             == ProgramRun(reader.env, reader.line, ops[i..], res)
    {
      var errors := ProgramOne(reader, ops[i]);
      assert ops[i..][1..] == ops[i + 1..];
      if errors != [] {
        res := ProgramResult(0, res.errors + errors);
      }
    }
    reader.Unlock();
  }

  // ---------------------------------------------------------------- setting AFI bytes

  /** The one byte a request names, if it is one. */
  function AfiOf(op: SecureOp): Option<Byte> {
    match Hex.Decode(op.afiHex)
    case Some(bytes) => if |bytes| == 1 then Some(bytes[0]) else None
    case None => None
  }

  predicate Asked(ops: seq<SecureOp>, id: Id, afi: Byte) {
    exists j :: 0 <= j < |ops| && IdOf(ops[j].sid) == Some(id) && AfiOf(ops[j]) == Some(afi)
  }

  /** Only AFI bytes changed, and each to a value that some request names. */
  ghost predicate OnlyAfi(before: Pad, after: Pad, ops: seq<SecureOp>) {
    after.order == before.order && after.tags.Keys == before.tags.Keys
    && forall id :: id in before.tags ==>
         after.tags[id].blocks == before.tags[id].blocks
         && (after.tags[id].afi == before.tags[id].afi || Asked(ops, id, after.tags[id].afi))
  }

  /** Every tag has the AFI byte that the last request for it names. */
  ghost predicate AllSecured(pad: Pad, ops: seq<SecureOp>) {
    forall i :: 0 <= i < |ops| && (forall j :: i < j < |ops| ==> IdOf(ops[j].sid) != IdOf(ops[i].sid)) ==>
      Known(ops[i].sid, pad) && AfiOf(ops[i]) == Some(pad.tags[IdOf(ops[i].sid).value].afi)
  }

  lemma SecuredOneMore(before: Pad, after: Pad, ops: seq<SecureOp>, op: SecureOp)
    requires AllSecured(before, ops)
    requires Known(op.sid, before) && AfiOf(op).Some?
    requires after == before.WithAfi(IdOf(op.sid).value, AfiOf(op).value)
    ensures AllSecured(after, ops + [op])
  {
    var all := ops + [op];
    assert all[|ops|] == op;
    assert forall j :: 0 <= j < |ops| ==> all[j] == ops[j];
    forall i | 0 <= i < |all| && (forall j :: i < j < |all| ==> IdOf(all[j].sid) != IdOf(all[i].sid))
      ensures Known(all[i].sid, after) && AfiOf(all[i]) == Some(after.tags[IdOf(all[i].sid).value].afi)
    {
      if i < |ops| {
        assert forall j :: i < j < |ops| ==> IdOf(ops[j].sid) != IdOf(ops[i].sid);
      }
    }
  }

  lemma AskedMore(ops: seq<SecureOp>, op: SecureOp)
    ensures forall id, afi :: Asked(ops, id, afi) ==> Asked(ops + [op], id, afi)
    ensures IdOf(op.sid).Some? && AfiOf(op).Some? ==>
              Asked(ops + [op], IdOf(op.sid).value, AfiOf(op).value)
  {
    var all := ops + [op];
    assert all[|ops|] == op;
    assert forall j :: 0 <= j < |ops| ==> all[j] == ops[j];
  }

  lemma OnlyAfiOneMore(start: Pad, before: Pad, after: Pad, ops: seq<SecureOp>, op: SecureOp)
    requires OnlyAfi(start, before, ops)
    requires after == before
             || (Known(op.sid, before) && AfiOf(op).Some?
                 && after == before.WithAfi(IdOf(op.sid).value, AfiOf(op).value))
    ensures OnlyAfi(start, after, ops + [op])
  {
    AskedMore(ops, op);
  }

  lemma AskedPrefix(ops: seq<SecureOp>, n: nat)
    requires n <= |ops|
    ensures forall id, afi :: Asked(ops[..n], id, afi) ==> Asked(ops, id, afi)
  {}

  lemma OnlyAfiPrefix(start: Pad, after: Pad, ops: seq<SecureOp>, n: nat)
    requires n <= |ops| && OnlyAfi(start, after, ops[..n])
    ensures OnlyAfi(start, after, ops)
  {
    AskedPrefix(ops, n);
  }

  /** AFI bytes are set one after the other, up to the first that cannot be set. */
  function SecureRun(env: Environment, line: Line, ops: seq<SecureOp>): (Line, bool)
    decreases |ops|
  {
    if ops == [] then (line, true)
    else match AfiOf(ops[0])
      case None => (line, false)
      case Some(afi) =>
        var (after, ok) := WriteAfiRun(env, line, IdOf(ops[0].sid), afi, 100);
        if ok then SecureRun(env, after, ops[1..]) else (after, false)
  }

  /** What a request to set a byte leaves of the tags. */
  ghost predicate ByteSet(before: Pad, after: Pad, op: SecureOp, ok: bool) {
    if AfiOf(op).None? then !ok && after == before
    else (ok ==> Known(op.sid, before))
         && ((!ok && after == before)
             || (Known(op.sid, before) && after == before.WithAfi(IdOf(op.sid).value, AfiOf(op).value)))
  }

  /** Requests done one after the other up to the first that fails; those after it are not
      begun. */
  ghost predicate SetSteps(pads: seq<Pad>, ops: seq<SecureOp>, ok: bool) {
    1 <= |pads| <= |ops| + 1 && (ok ==> |pads| == |ops| + 1) && (!ok ==> |pads| >= 2)
    && forall i :: 0 <= i < |pads| - 1 ==> ByteSet(pads[i], pads[i + 1], ops[i], ok || i < |pads| - 2)
  }

  /** Success means that every tag has the byte of its last request; in any case only AFI
      bytes change, and only to bytes asked for, request by request up to the first that
      fails. */
  ghost predicate SecurePromise(before: Pad, after: Pad, ops: seq<SecureOp>, ok: bool) {
    OnlyAfi(before, after, ops) && (ok ==> AllSecured(after, ops))
    && exists pads :: SetSteps(pads, ops, ok) && pads[0] == before && pads[|pads| - 1] == after
  }

  lemma SetStepsMore(before: Pad, op: SecureOp, more: seq<Pad>, ops: seq<SecureOp>, ok: bool)
    requires SetSteps(more, ops, ok) && ByteSet(before, more[0], op, true)
    ensures SetSteps([before] + more, [op] + ops, ok)
  {
    hide ByteSet;
    var pads := [before] + more;
    forall i | 0 <= i < |pads| - 1 ensures ByteSet(pads[i], pads[i + 1], ([op] + ops)[i], ok || i < |pads| - 2) {
      if i > 0 {
        assert ByteSet(more[i - 1], more[i], ops[i - 1], ok || i - 1 < |more| - 2);
      }
    }
  }

  lemma {:induction false} SecureSteps(env: Environment, line: Line, ops: seq<SecureOp>) returns (pads: seq<Pad>)
    ensures var (after, ok) := SecureRun(env, line, ops);
            SetSteps(pads, ops, ok) && pads[0] == line.pad && pads[|pads| - 1] == after.pad
    decreases |ops|
  {
    hide WriteAfiRun, AfiOf;
    pads := [line.pad];
    if ops != [] {
      var op := ops[0];
      if AfiOf(op).None? {
        pads := [line.pad, line.pad];
      } else {
        var (after, ok) := WriteAfiRun(env, line, IdOf(op.sid), AfiOf(op).value, 100);
        WriteAfiWrites(env, line, IdOf(op.sid), AfiOf(op).value, 100);
        pads := [line.pad, after.pad];
        if ok {
          var more := SecureSteps(env, after, ops[1..]);
          pads := [line.pad] + more;
          SetStepsMore(line.pad, op, more, ops[1..], SecureRun(env, after, ops[1..]).1);
          assert [op] + ops[1..] == ops;
        }
      }
    }
  }

  /** Without faults on an open line setting bytes succeeds exactly if every request names a
      byte and a tag in range. */
  lemma {:induction false} FaultFreeSecureExact(env: Environment, line: Line, ops: seq<SecureOp>)
    requires FaultFree(env) && line.open
    ensures SecureRun(env, line, ops).1 <==>
              forall i :: 0 <= i < |ops| ==> Known(ops[i].sid, line.pad) && AfiOf(ops[i]).Some?
    decreases |ops|
  {
    hide WriteAfiRun, AfiOf;
    if ops != [] && AfiOf(ops[0]).Some? {
      var id, afi := IdOf(ops[0].sid), AfiOf(ops[0]).value;
      WriteAfiWrites(env, line, id, afi, 100);
      var after := WriteAfiRun(env, line, id, afi, 100).0;
      FaultFreeSecureExact(env, after, ops[1..]);
      assert forall i :: 0 <= i < |ops[1..]| ==> ops[1..][i] == ops[i + 1];
      if forall i :: 0 <= i < |ops| ==> Known(ops[i].sid, line.pad) && AfiOf(ops[i]).Some? {
        assert Known(ops[0].sid, line.pad);
      }
      if SecureRun(env, line, ops).1 {
        forall i | 0 <= i < |ops| ensures Known(ops[i].sid, line.pad) && AfiOf(ops[i]).Some? {
          if i > 0 {
            assert Known(ops[1..][i - 1].sid, after.pad) && AfiOf(ops[1..][i - 1]).Some?;
          }
        }
      }
    }
  }

  lemma {:induction false} SecureSecures(env: Environment, start: Pad, line: Line, done: seq<SecureOp>,
                                         ops: seq<SecureOp>)
    requires OnlyAfi(start, line.pad, done) && AllSecured(line.pad, done)
    ensures var (after, ok) := SecureRun(env, line, ops);
            OnlyAfi(start, after.pad, done + ops) && (ok ==> AllSecured(after.pad, done + ops))
    decreases |ops|
  {
    hide WriteAfiRun, OnlyAfi, AllSecured, AfiOf;
    if ops == [] {
      assert done + ops == done;
    } else {
      var all, op := done + ops, ops[0];
      assert all[..|done|] == done && all[..|done| + 1] == done + [op];
      if AfiOf(op).None? {
        OnlyAfiPrefix(start, line.pad, all, |done|);
      } else {
        var (after, ok) := WriteAfiRun(env, line, IdOf(op.sid), AfiOf(op).value, 100);
        WriteAfiWrites(env, line, IdOf(op.sid), AfiOf(op).value, 100);
        OnlyAfiOneMore(start, line.pad, after.pad, done, op);
        if ok {
          SecuredOneMore(line.pad, after.pad, done, op);
          SecureSecures(env, start, after, done + [op], ops[1..]);
          assert done + [op] + ops[1..] == all;
        } else {
          OnlyAfiPrefix(start, after.pad, all, |done| + 1);
        }
      }
    }
  }

  lemma NothingSecured(pad: Pad)
    ensures OnlyAfi(pad, pad, []) && AllSecured(pad, [])
  {}

  lemma {:induction false} SecureKeepsPromise(env: Environment, line: Line, ops: seq<SecureOp>)
    ensures var (after, ok) := SecureRun(env, line, ops); SecurePromise(line.pad, after.pad, ops, ok)
  {
    hide SecureRun, OnlyAfi, AllSecured, SetSteps;
    NothingSecured(line.pad);
    SecureSecures(env, line.pad, line, [], ops);
    assert [] + ops == ops;
    var pads := SecureSteps(env, line, ops);
  }

  /** Setting AFI bytes does not reopen the port. */
  lemma {:induction false} SecureKeepsPort(env: Environment, line: Line, ops: seq<SecureOp>)
    ensures var (after, _) := SecureRun(env, line, ops); after == line.(pad := after.pad, turn := after.turn)
    decreases |ops|
  {
    hide WriteAfiRun, AfiOf;
    if ops != [] && AfiOf(ops[0]).Some? {
      var id, afi := IdOf(ops[0].sid), AfiOf(ops[0]).value;
      WriteAfiWrites(env, line, id, afi, 100);
      SecureKeepsPort(env, WriteAfiRun(env, line, id, afi, 100).0, ops[1..]);
    }
  }

  method Secure(reader: Reader, ops: seq<SecureOp>) returns (ok: bool)
    requires reader.Valid() && !reader.locked
    modifies reader`line, reader`sent, reader`locked, reader.port
    ensures reader.Valid() && !reader.locked
    ensures (reader.line, ok) == SecureRun(reader.env, old(reader.line), ops)
    ensures SecurePromise(old(reader.line.pad), reader.line.pad, ops, ok)
  {
    hide WriteAfiRun, SecurePromise;
    SecureKeepsPromise(reader.env, reader.line, ops);
    reader.Lock();
    ok := true;
    for i := 0 to |ops|
      invariant reader.Valid() && reader.locked && ok
      invariant SecureRun(reader.env, old(reader.line), ops) == SecureRun(reader.env, reader.line, ops[i..])
    {
      assert ops[i..][1..] == ops[i + 1..];
      var bytes := Hex.Decode(ops[i].afiHex);
      if bytes.None? || |bytes.value| != 1 {
        reader.Unlock();
        return false;
      }
      var written := PutAfi(reader, ops[i].sid, bytes.value[0]);
      if !written {
        reader.Unlock();
        return false;
      }
    }
    reader.Unlock();
  }
}
