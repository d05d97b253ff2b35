/** Programming a tag and scanning it again, through the codec, the frames on the line and
    the tag's memory. */
module RoundTrip {
  import opened Bytes
  import opened Device
  import opened Reader
  import opened Rfid501
  import opened Ops
  import opened ResetCounter
  import Hex

  lemma SecurityTexts()
    ensures AfiText(AFI_SECURE) == "DA" && AfiText(AFI_UNSECURE) == "D7"
  {
    assert Hex.Encode([AFI_SECURE]) == "da";
    assert Hex.Encode([AFI_UNSECURE]) == "d7";
  }

  lemma BarcodeOfData(blocks: seq<seq<Byte>>, data: seq<Byte>)
    requires |data| == 32 && Holds(blocks, data)
    ensures |blocks| >= 8 && ContentOf(blocks) == UpToNul(data[4..20])
  {
    assert blocks[1] == data[4 * 1..4 * 1 + 4] && blocks[2] == data[4 * 2..4 * 2 + 4]
        && blocks[3] == data[4 * 3..4 * 3 + 4] && blocks[4] == data[4 * 4..4 * 4 + 4];
    assert data[4..20] == data[4..8] + data[8..12] + data[12..16] + data[16..20];
  }

  lemma LayoutText(tag: Tag501)
    ensures UpToNul(Layout(tag)[4..20]) == UpToNul(First16(tag.content))
  {
    var text := First16(tag.content);
    Parts(Layout(tag), Head(tag), Text(tag.content), Place(tag.branch, tag.library), Unsigned(tag.custom));
    UpToNulPadded(text, 16 - |text|);
  }

  /** What a complete read of a tag reports after an operation: its content up to the first
      NUL; nothing after clearing, or the zero bytes of the first block if the tag has not
      the six blocks that make a library tag. */
  function Expected(op: ProgramOp, blocks: nat): seq<Byte> {
    if IsBlank(op.content) then if blocks >= 6 then [] else [0, 0, 0, 0]
    else if op.custom.Some? then UpToNul(First16(op.custom.value.content))
    else UpToNul(op.content)
  }

  function ExpectedSecurity(op: ProgramOp): string {
    if IsBook(op.content) then "DA" else "D7"
  }

  /** "blank" is no book. */
  lemma BlankIsNoBook(content: seq<Byte>)
    ensures !(IsBlank(content) && IsBook(content))
  {
    if IsBlank(content) {
      assert ToLower(content)[0] == 0x62;
    }
  }

  lemma BlankReads(blocks: seq<seq<Byte>>)
    requires Holds(blocks, BLANK)
    ensures ContentOf(blocks) == if |blocks| >= 6 then [] else [0, 0, 0, 0]
  {
    assert blocks[0] == BLANK[4 * 0..4 * 0 + 4];
    assert blocks[1] == BLANK[4 * 1..4 * 1 + 4];
    if |blocks| >= 6 {
      assert (blocks[1] + blocks[2] + blocks[3] + blocks[4])[0] == 0;
    }
  }

  /** A programmed, custom or cleared tag reports what was asked for, whatever its other
      blocks held before. */
  lemma ProgrammedReads(pad: Pad, op: ProgramOp)
    requires pad.Valid() && Programmed(pad, op) && |op.content| <= 16
    ensures var memory := pad.tags[IdOf(op.sid).value];
            AfiText(memory.afi) == ExpectedSecurity(op)
            && ContentOf(memory.blocks) == Expected(op, |memory.blocks|)
  {
    SecurityTexts();
    BlankIsNoBook(op.content);
    var blocks := pad.tags[IdOf(op.sid).value].blocks;
    if IsBlank(op.content) {
      BlankReads(blocks);
    } else {
      BarcodeOfData(blocks, Layout(TagOf(op)));
      LayoutText(TagOf(op));
    }
  }

  // ---------------------------------------------------------------- the blocks

  /** The first eight blocks of a tag, as hexadecimal text. */
  function FirstEight(blocks: seq<seq<Byte>>): seq<string>
    requires |blocks| >= 8
  {
    seq(8, i requires 0 <= i < 8 => Hex.Encode(blocks[i]))
  }

  lemma HeldBlocks(blocks: seq<seq<Byte>>, data: seq<Byte>)
    requires |data| == 32 && Holds(blocks, data)
    ensures |blocks| >= 8 && FirstEight(blocks) == BlocksOf(data) && blocks[0] == data[..4]
  {
    hide Hex.Encode;
    assert forall i :: 0 <= i < 8 ==> blocks[i] == data[4 * i..4 * i + 4];
    assert blocks[0] == data[4 * 0..4 * 0 + 4];
  }

  /** A tag programmed with a barcode says so: number 1 of a set of 1, a book exactly if the
      barcode starts with "130", nothing else. */
  ghost predicate SaysBarcode(blocks: seq<seq<Byte>>, content: seq<Byte>) {
    |blocks| >= 8 && blocks[0] == [0x04, 0x11, 0x00, if Starts130(content) then 0x01 else 0x00]
    && DecodeBlocks(FirstEight(blocks))
       == Some(Tag501(4, 1, 1, 0, if Starts130(content) then 1 else 0, UpToNul(content), 0, 0, 0))
  }

  /** A tag programmed with given fields has them, each cut to its width. */
  ghost predicate SaysFields(blocks: seq<seq<Byte>>, tag: Tag501) {
    |blocks| >= 8
    && DecodeBlocks(FirstEight(blocks))
       == Some(Tag501(4, tag.set_ % 16, tag.total % 16, 0, tag.kind, UpToNul(First16(tag.content)),
                      tag.branch % 4096, tag.library % 0x10_0000, tag.custom))
  }

  /** What the blocks of a programmed tag say to whoever decodes them. */
  ghost predicate BlocksSay(blocks: seq<seq<Byte>>, op: ProgramOp) {
    if IsBlank(op.content) then |blocks| >= 3 && blocks[0] == blocks[1] == blocks[2] == [0x00, 0x00, 0x00, 0x00]
    else if op.custom.Some? then SaysFields(blocks, op.custom.value)
    else SaysBarcode(blocks, op.content)
  }

  lemma ProgrammedBlocks(pad: Pad, op: ProgramOp)
    requires Programmed(pad, op) && |op.content| <= 16
    ensures BlocksSay(pad.tags[IdOf(op.sid).value].blocks, op)
  {
    hide DecodeBlocks, Layout, Starts130, UpToNul, FirstEight, IsBlank, BlocksOf;
    var blocks := pad.tags[IdOf(op.sid).value].blocks;
    if IsBlank(op.content) {
      assert blocks[0] == BLANK[4 * 0..4 * 0 + 4] && blocks[1] == BLANK[4 * 1..4 * 1 + 4]
          && blocks[2] == BLANK[4 * 2..4 * 2 + 4];
    } else {
      HeldBlocks(blocks, Layout(TagOf(op)));
      NormalForm(TagOf(op));
      ContentDecodes(op.content);
    }
  }

  // ---------------------------------------------------------------- the report

  /** What the report of a programmed tag says, in each part that was read cleanly. */
  predicate Says(info: TagInfo, op: ProgramOp, blocks: nat, afiFault: Fault, blocksFault: Fault) {
    (afiFault.Delivered? ==> info.security == ExpectedSecurity(op))
    && (blocksFault == FAITHFUL ==> info.content == Expected(op, blocks))
  }

  /** All reports of the tag say so, and there is one if the tag is on the pad. */
  ghost predicate TagSays(infos: seq<TagInfo>, op: ProgramOp, pad: Pad, faults: nat -> Fault, base: nat)
    requires Known(op.sid, pad)
  {
    var id := IdOf(op.sid).value;
    (forall i :: 0 <= i < |infos| && IdOf(infos[i].sid) == Some(id) ==>
       Says(infos[i], op, |pad.tags[id].blocks|, faults(base + 2 * i), faults(base + 2 * i + 1)))
    && (id in pad.order ==>
          exists i :: 0 <= i < |infos| && infos[i].sid == Hex.Encode(id) && IdOf(infos[i].sid) == Some(id))
  }

  lemma ReportSays(pad: Pad, op: ProgramOp, info: TagInfo, i: nat, afiFault: Fault, blocksFault: Fault)
    requires pad.Valid() && Programmed(pad, op) && |op.content| <= 16
    requires ReportedAt(info, pad, i, afiFault, blocksFault)
    requires IdOf(info.sid) == IdOf(op.sid)
    ensures Says(info, op, |pad.tags[IdOf(op.sid).value].blocks|, afiFault, blocksFault)
  {
    hide ContentOf, Expected, ExpectedSecurity, DataFor, AfiFor, AfiText, Holds;
    NamesKnown(pad, i);
    ProgrammedReads(pad, op);
  }

  lemma ReportsSay(pad: Pad, op: ProgramOp, infos: seq<TagInfo>, faults: nat -> Fault, base: nat)
    requires pad.Valid() && Programmed(pad, op) && |op.content| <= 16
    requires |infos| == |pad.order| && Accurate(infos, pad, faults, base)
    ensures TagSays(infos, op, pad, faults, base)
  {
    hide Reported, Says, Holds, DataFor;
    var id := IdOf(op.sid).value;
    forall i | 0 <= i < |infos| && IdOf(infos[i].sid) == Some(id)
      ensures Says(infos[i], op, |pad.tags[id].blocks|, faults(base + 2 * i), faults(base + 2 * i + 1))
    {
      ReportSays(pad, op, infos[i], i, faults(base + 2 * i), faults(base + 2 * i + 1));
    }
    if id in pad.order {
      var i :| 0 <= i < |pad.order| && pad.order[i] == id;
      NamesKnown(pad, i);
      assert ReportedAt(infos[i], pad, i, faults(base + 2 * i), faults(base + 2 * i + 1));
      assert infos[i].sid == Hex.Encode(id);
    }
  }

  lemma OneOperation(start: Pad, pad: Pad, op: ProgramOp, res: ProgramResult)
    requires Progress(start, pad, [op], res)
    ensures |op.content| > 16 ==> res.ok == 0 && pad == start
    ensures res.ok == 1 ==> |op.content| <= 16 && Programmed(pad, op) && Known(op.sid, pad)
    ensures res.ok == 1 ==> BlocksSay(pad.tags[IdOf(op.sid).value].blocks, op)
  {
    hide BlocksSay, IsBlank, Holds;
    assert [op][0] == op && LastFor([op], 0);
    if |op.content| > 16 {
      assert TooLong(Hex.Upper([op][0].sid)) in res.errors;
      assert forall j :: 0 <= j < |[op]| ==> Target([op][j]) == None;
      assert pad.tags == start.tags;
    }
    if res.ok == 1 {
      ProgrammedBlocks(pad, op);
    }
  }

  // ---------------------------------------------------------------- without faults

  /** The tag of an operation is in range and has room for what is to be stored. */
  predicate HasRoom(pad: Pad, op: ProgramOp) {
    |op.content| <= 16 && Known(op.sid, pad) && pad.Fits(IdOf(op.sid).value, DataFor(op))
  }

  /** Without faults programming succeeds exactly on a tag that has room. */
  lemma {:induction false} FaultFreeProgramExact(env: Environment, line: Line, op: ProgramOp)
    requires FaultFree(env) && line.open
    ensures ProgramRun(env, line, [op], NO_ERRORS).1.ok == 1 <==> HasRoom(line.pad, op)
  {
    hide WriteBlocksRun, WriteAfiRun, DataFor, AfiFor;
    var id, data := IdOf(op.sid), DataFor(op);
    var (one, written) := WriteBlocksRun(env, line, id, data);
    WriteBlocksWrites(env, line, id, data);
    WriteAfiWrites(env, one, id, AfiFor(op), 100);
    if HasRoom(line.pad, op) {
      FaithfulWriteExact(env, line, id, data);
    }
    var (after, errors) := ProgramOneRun(env, line, op);
    assert [op][1..] == [];
    assert ProgramRun(env, line, [op], NO_ERRORS) == (after, WithErrors(NO_ERRORS, errors));
  }

  /** The report of the tag is exactly what is expected. */
  ghost predicate TagReported(infos: seq<TagInfo>, op: ProgramOp, pad: Pad)
    requires Known(op.sid, pad)
  {
    var id := IdOf(op.sid).value;
    TagInfo(Hex.Encode(id), Expected(op, |pad.tags[id].blocks|), ExpectedSecurity(op)) in infos
  }

  lemma FaultFreeReport(infos: seq<TagInfo>, op: ProgramOp, pad: Pad, env: Environment, base: nat)
    requires Known(op.sid, pad) && IdOf(op.sid).value in pad.order
    requires TagSays(infos, op, pad, env.faults, base) && FaultFree(env)
    ensures TagReported(infos, op, pad)
  {
    hide Expected, ExpectedSecurity;
    var id := IdOf(op.sid).value;
    var i :| 0 <= i < |infos| && infos[i].sid == Hex.Encode(id) && IdOf(infos[i].sid) == Some(id);
    assert Says(infos[i], op, |pad.tags[id].blocks|, env.faults(base + 2 * i), env.faults(base + 2 * i + 1));
    assert infos[i] == TagInfo(Hex.Encode(id), Expected(op, |pad.tags[id].blocks|), ExpectedSecurity(op));
  }

  /** The line as programming leaves it to the scan. */
  function Between(env: Environment, line: Line, op: ProgramOp): Line {
    ProgramRun(env, line, [op], NO_ERRORS).0
  }

  /** Program a tag and scan the pad. If programming reports success, whatever faults it had
      to overcome, the tag if in range is reported with the content and as secure exactly
      when it is a book, as soon as its own two reads are clean; after a blank write there
      is no content. The scan succeeds whenever its first command is answered; without any
      faults both succeed, programming exactly if the tag has room, and the report is exact. */
  method ProgramThenScan(reader: Reader, op: ProgramOp)
    returns (programmed: ProgramResult, scanned: Result<seq<TagInfo>>, ghost base: nat)
    requires reader.Valid() && !reader.locked
    modifies reader, reader.port
    ensures reader.Valid() && !reader.locked
    ensures |op.content| > 16 ==> programmed.ok == 0 && reader.line.pad == old(reader.line.pad)
    ensures programmed.ok == 1 ==>
              Known(op.sid, reader.line.pad) && BlocksSay(reader.line.pad.tags[IdOf(op.sid).value].blocks, op)
    ensures base == ScanBase(reader.env, Between(reader.env, old(reader.line), op), old(reader.counters.failures))
    ensures programmed.ok == 1 && scanned.Ok? ==>
              Known(op.sid, reader.line.pad) && |scanned.value| == |reader.line.pad.order|
              && TagSays(scanned.value, op, reader.line.pad, reader.env.faults, base)
    ensures Clean(reader.env, Between(reader.env, old(reader.line), op)) ==> scanned.Ok?
    ensures FaultFree(reader.env) && old(reader.line.open) ==>
              scanned.Ok? && (programmed.ok == 1 <==> HasRoom(old(reader.line.pad), op))
    ensures FaultFree(reader.env) && old(reader.line.open) && programmed.ok == 1 ==>
              Known(op.sid, reader.line.pad)
              && (IdOf(op.sid).value in reader.line.pad.order ==> TagReported(scanned.value, op, reader.line.pad))
  {
    hide ProgramRun, ScanRun, Programmed, TagSays, TagReported, Accurate, HasRoom, InventoryWithResetRun, BlocksSay;
    if FaultFree(reader.env) && reader.line.open {
      FaultFreeProgramExact(reader.env, reader.line, op);
    }
    ProgramKeepsPort(reader.env, reader.line, [op], NO_ERRORS);
    programmed := Program(reader, [op]);
    OneOperation(old(reader.line.pad), reader.line.pad, op, programmed);
    base := ScanBase(reader.env, reader.line, reader.counters.failures);
    ghost var attempt: Attempt;
    scanned, attempt := Scan(reader);
    if programmed.ok == 1 && scanned.Ok? {
      ReportsSay(reader.line.pad, op, scanned.value, reader.env.faults, base);
      if FaultFree(reader.env) && IdOf(op.sid).value in reader.line.pad.order {
        FaultFreeReport(scanned.value, op, reader.line.pad, reader.env, base);
      }
    }
  }
}
