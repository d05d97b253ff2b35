/** The driver of the 3M 810 reader. What each of its methods does to the line, fault by
    fault, is given by a function; what the method promises follows from that function. */
module Reader {
  import opened Bytes
  import opened Crc16
  import opened Framing
  import opened Device
  import opened ResetCounter
  import Hex

  /** The bytes of a tag number given as sixteen hexadecimal digits. */
  function IdOf(tag: string): (id: Option<Id>)
    ensures id.Some? ==> |id.value| == 8
  {
    if |tag| == 16 then Hex.Decode(tag) else None
  }

  predicate On(id: Option<Id>, pad: Pad) {
    id.Some? && id.value in pad.tags
  }

  predicate Known(tag: string, pad: Pad) {
    On(IdOf(tag), pad)
  }

  function Names(pad: Pad): seq<string> {
    seq(|pad.order|, i requires 0 <= i < |pad.order| => Hex.Encode(pad.order[i]))
  }

  /** Data filled up with zeros to whole blocks. */
  function WholeBlocks(data: seq<Byte>): (r: seq<Byte>)
    ensures |r| % 4 == 0 && data <= r && |r| < |data| + 4
    ensures forall i :: |data| <= i < |r| ==> r[i] == 0
  {
    if |data| % 4 != 0 then data + seq(4 - |data| % 4, _ => 0) else data
  }

  /** The first blocks of a tag are the given data. */
  predicate Holds(blocks: seq<seq<Byte>>, data: seq<Byte>)
    requires |data| % 4 == 0
  {
    |data| / 4 <= |blocks|
    && forall i :: 0 <= i < |data| / 4 ==> blocks[i] == data[4 * i..4 * i + 4]
  }

  // ---------------------------------------------------------------- responses

  function TagNames(data: seq<Byte>, n: nat): seq<string>
    requires 8 * n <= |data|
  {
    seq(n, i requires 0 <= i < n => Hex.Encode(data[8 * i..8 * i + 8]))
  }

  /** The tags that an inventory response lists. */
  function TagsIn(reply: Reply): Result<seq<string>> {
    match reply
    case Err => Err
    case Ok(resp) =>
      if |resp| < 5 || resp[0] != INVENTORY || resp[1] != 0x00 || resp[2] != 0x00 || resp[3] != 0x05 then Err
      else
        var n: nat := resp[4];
        if |resp| - 5 < 8 * n then Err else Ok(TagNames(resp[5..], n))
  }

  function AfiIn(reply: Reply): Result<Byte> {
    match reply
    case Err => Err
    case Ok(resp) => if |resp| < 11 || resp[0] != READ_AFI || resp[1] != 0x00 then Err else Ok(resp[10])
  }

  /** Number and contents of the i-th block of a read response. */
  function BlockNumber(data: seq<Byte>, i: nat): nat
    requires 6 * i + 6 <= |data|
  {
    LengthOf(data[6 * i + 1], data[6 * i])
  }

  function BlockText(data: seq<Byte>, i: nat): string
    requires 6 * i + 6 <= |data|
  {
    Hex.Encode(data[6 * i + 2..6 * i + 6])
  }

  /** The first n blocks of a read response, as many as are there. */
  function Listed(data: seq<Byte>, n: nat): map<int, string> {
    if n == 0 then map[]
    else if 6 * n > |data| then Listed(data, n - 1)
    else Listed(data, n - 1)[BlockNumber(data, n - 1) := BlockText(data, n - 1)]
  }

  function BlocksIn(reply: Reply): Result<map<int, string>> {
    match reply
    case Err => Err
    case Ok(resp) =>
      if |resp| < 11 || resp[0] != READ_BLOCKS || resp[1] != 0x00 then Err
      else Ok(Listed(resp[11..], resp[10]))
  }

  predicate Accepted(reply: Reply, code: Byte) {
    reply.Ok? && |reply.value| >= 2 && reply.value[0] == code && reply.value[1] == 0x00
  }

  /** How a round of writing the AFI byte ends. */
  datatype Outcome = Done | Again | Unexpected

  /** What the response to an AFI write calls for, should it not be accepted. */
  function Unaccepted(reply: Reply): Outcome {
    match reply
    case Err => Again
    case Ok(resp) => if |resp| >= 2 && resp[0] == WRITE_AFI && resp[1] == REFUSED then Again else Unexpected
  }

  /** The blocks 0..n-1 of a read-back, one after the other, as far as they are there. */
  function Collected(found: map<int, string>, n: nat): seq<Byte> {
    if n == 0 then []
    else
      var before := Collected(found, n - 1);
      if n - 1 in found && Hex.Decode(found[n - 1]).Some?
      then before + Hex.Decode(found[n - 1]).value else before
  }

  /** The count of blocks in a write command: two hexadecimal digits, more if they do not
      do; with an odd number of digits the command cannot be sent. */
  function CountField(n: nat): Option<seq<Byte>>
    requires n < 0x1_0000
  {
    if n < 0x100 then Some([n])
    else if n < 0x1000 then None
    else Some([n / 256, n % 256])
  }

  // ---------------------------------------------------------------- what methods do

  function InventoryRun(env: Environment, line: Line): (Line, Result<seq<string>>) {
    var (after, reply) := Answered(env, line, INVENTORY_COMMAND);
    (after, TagsIn(reply))
  }

  /** A tag number that is none sends nothing. */
  function ReadAfiRun(env: Environment, line: Line, id: Option<Id>): (Line, Result<Byte>) {
    match id
    case None => (line, Err)
    case Some(id) => var (after, reply) := Answered(env, line, [READ_AFI] + id); (after, AfiIn(reply))
  }

  function ReadBlocksRun(env: Environment, line: Line, id: Option<Id>, start: Byte, count: Byte)
    : (Line, Result<map<int, string>>)
  {
    match id
    case None => (line, Err)
    case Some(id) =>
      var (after, reply) := Answered(env, line, [READ_BLOCKS] + id + [start, count]);
      (after, BlocksIn(reply))
  }

  function VerifyRun(env: Environment, line: Line, id: Id, data: seq<Byte>): (Line, bool) {
    var (after, read) := ReadBlocksRun(env, line, Some(id), 0, 8);
    (after, read.Ok? && Collected(read.value, |data| / 4) == data)
  }

  function VerifiesRun(env: Environment, line: Line, id: Id, data: seq<Byte>, tries: nat): (Line, bool)
    decreases tries
  {
    if tries == 0 then (line, false)
    else
      var (after, matches) := VerifyRun(env, line, id, data);
      if matches then (after, true) else VerifiesRun(env, after, id, data, tries - 1)
  }

  function WriteCommand(id: Id, count: seq<Byte>, data: seq<Byte>): Command {
    [WRITE_BLOCKS] + id + [0x00] + count + [0x00] + data
  }

  function WriteBlocksRun(env: Environment, line: Line, id: Option<Id>, data: seq<Byte>): (Line, bool)
    requires |data| / 4 < 0x1_0000
  {
    match (id, CountField(|data| / 4))
    case (Some(id), Some(count)) =>
      var (after, reply) := Answered(env, line, WriteCommand(id, count, data));
      if Accepted(reply, WRITE_BLOCKS) then VerifiesRun(env, after, id, data, 10) else (after, false)
    case _ => (line, false)
  }

  function TryAfiRun(env: Environment, line: Line, id: Id, afi: Byte): (Line, Outcome) {
    var (after, reply) := Answered(env, line, [WRITE_AFI] + id + [afi]);
    if Accepted(reply, WRITE_AFI) then
      var (end, read) := ReadAfiRun(env, after, Some(id));
      (end, if read == Ok(afi) then Done else Again)
    else (after, Unaccepted(reply))
  }

  function WriteAfiRun(env: Environment, line: Line, id: Option<Id>, afi: Byte, rounds: nat): (Line, bool)
    decreases rounds
  {
    if id.None? || rounds == 0 then (line, false)
    else
      var (after, outcome) := TryAfiRun(env, line, id.value, afi);
      match outcome
      case Done => (after, true)
      case Again => WriteAfiRun(env, after, id, afi, rounds - 1)
      case Unexpected => (after, false)
  }

  /** Given the number of failed inventories in a row; the second result is that number
      afterwards. */
  function InventoryWithResetRun(env: Environment, line: Line, failures: nat)
    : (Line, nat, Result<seq<string>>)
  {
    var (first, tags) := InventoryRun(env, line);
    if tags.Ok? then (first, 0, tags)
    else if failures + 1 < 3 then (first, failures + 1, Err)
    else
      var (reopened, ok) := Reopened(env, first);
      if !ok then (reopened, failures + 1, Err)
      else var (second, again) := InventoryRun(env, reopened); (second, 0, again)
  }

  // ---------------------------------------------------------------- what reading promises

  /** Reading changes no tag and does not reopen the port. */
  predicate OnlyRead(before: Line, after: Line) {
    after == before.(turn := after.turn) && before.turn <= after.turn
  }

  /** The next command will be carried out and answered. */
  predicate Clean(env: Environment, line: Line) {
    line.open && env.faults(line.turn).Delivered?
  }

  predicate Faultless(env: Environment, line: Line) {
    line.open && env.faults(line.turn) == FAITHFUL
  }

  ghost predicate FaultFree(env: Environment) {
    forall n :: env.faults(n) == FAITHFUL
  }

  /** Nothing goes wrong with an AFI write and its read-back. */
  predicate AfiFaultless(env: Environment, line: Line) {
    Faultless(env, line) && env.faults(line.turn + 1).Delivered?
  }

  predicate InventoryRead(env: Environment, before: Line, after: Line, r: Result<seq<string>>) {
    OnlyRead(before, after) && after.turn == before.turn + 1
    && (r.Ok? ==> r.value == Names(before.pad)) && (r.Ok? <==> Clean(env, before))
  }

  lemma InventoryReads(env: Environment, line: Line)
    ensures var (after, r) := InventoryRun(env, line); InventoryRead(env, line, after, r)
  {
    var pad := line.pad;
    InventoryExchange(pad, NextFault(env, line));
    var reply := Answered(env, line, INVENTORY_COMMAND).1;
    if !Refusal(reply) {
      assert reply.value[5..] == Flatten(pad.order);
      forall i | 0 <= i < |pad.order| ensures TagNames(Flatten(pad.order), |pad.order|)[i] == Names(pad)[i] {
        FlattenAt(pad.order, i);
      }
    }
  }

  /** The inventory with its recovery changes no tag; a success lists the tags on the pad,
      and leaves the port open. */
  lemma InventoryWithResetReads(env: Environment, line: Line, failures: nat)
    ensures var (after, left, r) := InventoryWithResetRun(env, line, failures);
            after.pad == line.pad && (r.Ok? ==> after.open && left == 0 && r.value == Names(line.pad))
            && (Clean(env, line) ==> r.Ok? && after.turn == line.turn + 1)
  {
    hide InventoryRun;
    var first := InventoryRun(env, line).0;
    InventoryReads(env, line);
    InventoryReads(env, Reopened(env, first).0);
  }

  /** A failed inventory is tried once more exactly at the third failure in a row and after
      the port could be reopened; only that or a success sets the count back. */
  lemma RecoveryExact(env: Environment, line: Line, failures: nat)
    ensures var (after, left, r) := InventoryWithResetRun(env, line, failures);
            var next := line.turn + 1;
            if Clean(env, line) then r.Ok? && left == 0 && after == line.(turn := next)
            else if failures < 2 then r.Err? && left == failures + 1 && after == line.(turn := next)
            else if env.reopens(line.tried) then
              left == 0 && after == line.(turn := next + 1, open := true, tried := line.tried + 1)
              && (r.Ok? <==> env.faults(next).Delivered?)
            else r.Err? && left == failures + 1 && after == line.(turn := next, open := false, tried := line.tried + 1)
  {
    hide InventoryRun;
    var first := InventoryRun(env, line).0;
    InventoryReads(env, line);
    InventoryReads(env, Reopened(env, first).0);
  }

  predicate AfiRead(env: Environment, before: Line, after: Line, id: Option<Id>, r: Result<Byte>) {
    OnlyRead(before, after) && after.turn == before.turn + (if id.Some? then 1 else 0)
    && (r.Ok? ==> On(id, before.pad) && r.value == before.pad.tags[id.value].afi)
    && (On(id, before.pad) && Clean(env, before) ==> r.Ok?)
  }

  lemma ReadAfiReads(env: Environment, line: Line, id: Option<Id>)
    requires id.Some? ==> |id.value| == 8
    ensures var (after, r) := ReadAfiRun(env, line, id); AfiRead(env, line, after, id, r)
  {
    if id.Some? {
      ReadAfiExchange(line.pad, NextFault(env, line), id.value);
    }
  }

  ghost predicate OwnBlocks(blocks: seq<seq<Byte>>, start: Byte, count: Byte, skipped: set<nat>,
                            found: map<int, string>) {
    start <= |blocks|
    && (forall k :: k in found <==>
          start <= k < start as int + Within(start, count, |blocks|) && k !in skipped)
    && (forall k :: k in found ==> found[k] == Hex.Encode(blocks[k]))
  }

  /** A success returns exactly the requested blocks that the response listed, with the
      tag's contents. */
  ghost predicate BlocksRead(env: Environment, before: Line, after: Line, id: Option<Id>,
                             start: Byte, count: Byte, r: Result<map<int, string>>) {
    OnlyRead(before, after) && after.turn == before.turn + (if id.Some? then 1 else 0)
    && (r.Ok? ==> On(id, before.pad) && Clean(env, before)
                  && OwnBlocks(before.pad.tags[id.value].blocks, start, count,
                               env.faults(before.turn).skipped, r.value))
    && (On(id, before.pad) && Clean(env, before) && start <= |before.pad.tags[id.value].blocks| ==> r.Ok?)
  }

  lemma {:induction false} BlockListed(blocks: seq<seq<Byte>>, kept: seq<nat>, i: nat)
    requires |blocks| <= 255 && i < |kept|
    requires forall k :: 0 <= k < |blocks| ==> |blocks[k]| == 4
    requires forall k :: 0 <= k < |kept| ==> kept[k] < |blocks|
    ensures BlockNumber(Listing(blocks, kept), i) == kept[i]
    ensures BlockText(Listing(blocks, kept), i) == Hex.Encode(blocks[kept[i]])
  {
    ListingAt(blocks, kept, i);
  }

  lemma {:induction false} ListedBlocks(blocks: seq<seq<Byte>>, kept: seq<nat>, n: nat)
    requires |blocks| <= 255 && n <= |kept|
    requires forall i :: 0 <= i < |blocks| ==> |blocks[i]| == 4
    requires forall k :: 0 <= k < |kept| ==> kept[k] < |blocks|
    ensures var found := Listed(Listing(blocks, kept), n);
            (forall k :: k in found <==> k in kept[..n])
            && forall k :: k in found ==> 0 <= k < |blocks| && found[k] == Hex.Encode(blocks[k])
  {
    hide Listing, BlockNumber, BlockText, Hex.Encode;
    if n > 0 {
      ListedBlocks(blocks, kept, n - 1);
      BlockListed(blocks, kept, n - 1);
      assert kept[..n] == kept[..n - 1] + [kept[n - 1]];
    }
  }

  /** A read response is parsed into the blocks that it lists. */
  lemma {:induction false} ReplyParsed(id: Id, blocks: seq<seq<Byte>>, start: Byte, count: Byte, skipped: set<nat>)
    requires |id| == 8 && |blocks| <= 255 && start <= |blocks|
    requires forall i :: 0 <= i < |blocks| ==> |blocks[i]| == 4
    ensures var kept := Kept(start, Within(start, count, |blocks|), skipped);
            var r := BlocksIn(Ok(ReadReply(id, blocks, kept)));
            r.Ok? && OwnBlocks(blocks, start, count, skipped, r.value)
  {
    hide Kept, Listed, Listing;
    var kept := Kept(start, Within(start, count, |blocks|), skipped);
    var reply := ReadReply(id, blocks, kept);
    assert reply[11..] == Listing(blocks, kept) && reply[10] == |kept|;
    ListedBlocks(blocks, kept, |kept|);
    assert kept[..|kept|] == kept;
  }

  lemma ReadBlocksReads(env: Environment, line: Line, id: Option<Id>, start: Byte, count: Byte)
    requires id.Some? ==> |id.value| == 8
    ensures var (after, r) := ReadBlocksRun(env, line, id, start, count);
            BlocksRead(env, line, after, id, start, count, r)
  {
    hide Exchanged, ReadReply, OwnBlocks;
    if id.Some? {
      ReadBlocksExchange(line.pad, NextFault(env, line), id.value, start, count);
      var reply := Answered(env, line, [READ_BLOCKS] + id.value + [start, count]).1;
      if !Refusal(reply) {
        ReplyParsed(id.value, line.pad.tags[id.value].blocks, start, count, NextFault(env, line).skipped);
      }
    }
  }

  // ---------------------------------------------------------------- what writing promises

  lemma SameBlocks(x: seq<Byte>, y: seq<Byte>)
    requires |x| == |y| && |x| % 4 == 0
    requires forall i :: 0 <= i < |x| / 4 ==> x[4 * i..4 * i + 4] == y[4 * i..4 * i + 4]
    ensures x == y
  {
    forall k | 0 <= k < |x| ensures x[k] == y[k] {
      var i := k / 4;
      assert x[k] == x[4 * i..4 * i + 4][k - 4 * i];
      assert y[k] == y[4 * i..4 * i + 4][k - 4 * i];
    }
  }

  /** A read-back that holds the tag's own blocks, the first eight at most. */
  predicate OfTag(found: map<int, string>, blocks: seq<seq<Byte>>) {
    forall k :: k in found ==> 0 <= k < |blocks| && k < 8 && |blocks[k]| == 4
                               && Hex.Decode(found[k]) == Some(blocks[k])
  }

  /** A concatenation has full length exactly if every block is present. */
  lemma {:induction false} CollectedLength(found: map<int, string>, blocks: seq<seq<Byte>>, n: nat)
    requires OfTag(found, blocks)
    ensures |Collected(found, n)| <= 4 * n && |Collected(found, n)| <= 32
    ensures (forall k :: 0 <= k < n ==> k in found) <==> |Collected(found, n)| == 4 * n
  {
    hide Hex.Decode;
    if n > 0 {
      CollectedLength(found, blocks, n - 1);
    }
  }

  lemma {:induction false} CollectedAt(found: map<int, string>, blocks: seq<seq<Byte>>, n: nat, k: nat)
    requires OfTag(found, blocks) && |Collected(found, n)| == 4 * n && k < n
    ensures k in found && blocks[k] == Collected(found, n)[4 * k..4 * k + 4]
  {
    hide Hex.Decode;
    CollectedLength(found, blocks, n);
    CollectedLength(found, blocks, n - 1);
    var before, all := Collected(found, n - 1), Collected(found, n);
    assert n - 1 in found && all == before + blocks[n - 1];
    if k < n - 1 {
      CollectedAt(found, blocks, n - 1, k);
      assert all[4 * k..4 * k + 4] == before[4 * k..4 * k + 4];
    } else {
      assert all[4 * k..4 * k + 4] == blocks[k];
    }
  }

  /** With full length every block is present and in its place. */
  lemma {:induction false} CollectedBlocks(found: map<int, string>, blocks: seq<seq<Byte>>, n: nat)
    requires OfTag(found, blocks) && |Collected(found, n)| == 4 * n
    ensures forall k :: 0 <= k < n ==> k in found && blocks[k] == Collected(found, n)[4 * k..4 * k + 4]
  {
    hide Collected;
    forall k | 0 <= k < n ensures k in found && blocks[k] == Collected(found, n)[4 * k..4 * k + 4] {
      CollectedAt(found, blocks, n, k);
    }
  }

  /** Comparing the concatenation compares the blocks one by one, the first eight of them. */
  lemma {:induction false} ComparedBlocks(found: map<int, string>, blocks: seq<seq<Byte>>, data: seq<Byte>)
    requires OfTag(found, blocks) && |data| % 4 == 0
    ensures Collected(found, |data| / 4) == data ==> Holds(blocks, data) && |data| <= 32
    ensures Holds(blocks, data) && (forall k :: 0 <= k < |data| / 4 ==> k in found) ==>
              Collected(found, |data| / 4) == data
  {
    var n := |data| / 4;
    var written := Collected(found, n);
    CollectedLength(found, blocks, n);
    if |written| == 4 * n {
      CollectedBlocks(found, blocks, n);
    }
    if written == data {
      assert n > 0 ==> n - 1 in found;
    }
    if Holds(blocks, data) && forall k :: 0 <= k < n ==> k in found {
      forall i | 0 <= i < n ensures written[4 * i..4 * i + 4] == data[4 * i..4 * i + 4] {
        assert blocks[i] == written[4 * i..4 * i + 4];
      }
      SameBlocks(written, data);
    }
  }

  /** A match means that the first blocks of the tag are the data, which are at most the
      eight blocks that are read back; without a fault such data do match. */
  ghost predicate Verified(env: Environment, before: Line, after: Line, id: Id, data: seq<Byte>, matches: bool)
    requires |data| % 4 == 0
  {
    OnlyRead(before, after)
    && (matches ==> id in before.pad.tags && Holds(before.pad.tags[id].blocks, data) && |data| <= 32)
    && (id in before.pad.tags && Holds(before.pad.tags[id].blocks, data) && |data| <= 32 && Faultless(env, before) ==>
           matches)
  }

  lemma VerifyVerifies(env: Environment, line: Line, id: Id, data: seq<Byte>)
    requires |id| == 8 && |data| % 4 == 0
    ensures var (after, matches) := VerifyRun(env, line, id, data); Verified(env, line, after, id, data, matches)
  {
    ReadBlocksReads(env, line, Some(id), 0, 8);
    var read := ReadBlocksRun(env, line, Some(id), 0, 8).1;
    if read.Ok? {
      var blocks := line.pad.tags[id].blocks;
      forall k | k in read.value ensures Hex.Decode(read.value[k]) == Some(blocks[k]) {
        Hex.DecodeEncode(blocks[k]);
      }
      ComparedBlocks(read.value, blocks, data);
    }
  }

  lemma VerifyTurn(env: Environment, line: Line, id: Id, data: seq<Byte>)
    ensures VerifyRun(env, line, id, data).0.turn == line.turn + 1
  {}

  lemma {:induction false} VerifiesVerify(env: Environment, line: Line, id: Id, data: seq<Byte>, tries: nat)
    requires |id| == 8 && |data| % 4 == 0
    ensures var (after, ok) := VerifiesRun(env, line, id, data, tries);
            after.turn <= line.turn + tries && (!ok ==> after.turn == line.turn + tries)
            && (tries > 0 ==> Verified(env, line, after, id, data, ok))
            && (tries == 0 ==> after == line && !ok)
    decreases tries
  {
    if tries > 0 {
      VerifyVerifies(env, line, id, data);
      VerifyTurn(env, line, id, data);
      VerifiesVerify(env, VerifyRun(env, line, id, data).0, id, data, tries - 1);
    }
  }

  /** A failed read-back is tried again: any one faultless try is enough. */
  lemma {:induction false} VerifiesEventually(env: Environment, line: Line, id: Id, data: seq<Byte>, tries: nat, k: nat)
    requires |id| == 8 && |data| % 4 == 0 && |data| <= 32
    requires line.open && id in line.pad.tags && Holds(line.pad.tags[id].blocks, data)
    requires k < tries && env.faults(line.turn + k) == FAITHFUL
    ensures VerifiesRun(env, line, id, data, tries).1
    decreases tries
  {
    hide VerifyRun;
    VerifyVerifies(env, line, id, data);
    VerifyTurn(env, line, id, data);
    if k > 0 {
      VerifiesEventually(env, VerifyRun(env, line, id, data).0, id, data, tries - 1, k - 1);
    }
  }

  /** Success means that the data are in blocks 0 on and nothing else changed; failure
      leaves at most some of those blocks written, after no command at all, a write that was
      not accepted, or a write and ten read-backs. More than eight blocks never succeed,
      as no more are read back. */
  ghost predicate BlocksWritten(env: Environment, before: Line, after: Line, id: Option<Id>,
                                data: seq<Byte>, ok: bool)
    requires |data| % 4 == 0
  {
    after == before.(pad := after.pad, turn := after.turn) && before.turn <= after.turn <= before.turn + 11
    && (ok ==> On(id, before.pad) && before.pad.Fits(id.value, data) && |data| <= 32
               && after.pad == before.pad.WithBlocks(id.value, data, {}))
    && (after.pad == before.pad || (id.Some? && Wrote(before.pad, after.pad, id.value, data)))
    && (!ok ==> after.turn in {before.turn, before.turn + 1, before.turn + 11})
  }

  lemma SendBlocks(env: Environment, line: Line, id: Id, data: seq<Byte>)
    requires |id| == 8 && |data| % 4 == 0 && |data| / 4 < 0x1_0000 && CountField(|data| / 4).Some?
    ensures var (after, reply) := Answered(env, line, WriteCommand(id, CountField(|data| / 4).value, data));
            after == line.(pad := after.pad, turn := line.turn + 1)
            && (after.pad == line.pad || Wrote(line.pad, after.pad, id, data))
            && (Accepted(reply, WRITE_BLOCKS) ==> Wrote(line.pad, after.pad, id, data))
            && (|data| <= 32 && id in line.pad.tags && line.pad.Fits(id, data)
                && Faultless(env, line) ==>
                  Accepted(reply, WRITE_BLOCKS) && after.pad == line.pad.WithBlocks(id, data, {}))
  {
    var n, fault := |data| / 4, NextFault(env, line);
    if n < 0x100 {
      assert WriteCommand(id, [n], data) == [WRITE_BLOCKS] + id + [0x00, n, 0x00] + data;
      WriteBlocksExchange(line.pad, fault, id, data);
    } else {
      assert WriteCommand(id, [n / 256, n % 256], data)
          == [WRITE_BLOCKS] + id + [0x00, n / 256, n % 256, 0x00] + data;
      LongWriteRefused(line.pad, fault, id, n / 256, n % 256, data);
    }
  }

  lemma WriteBlocksWrites(env: Environment, line: Line, id: Option<Id>, data: seq<Byte>)
    requires id.Some? ==> |id.value| == 8
    requires |data| % 4 == 0 && |data| / 4 < 0x1_0000
    ensures var (after, ok) := WriteBlocksRun(env, line, id, data); BlocksWritten(env, line, after, id, data, ok)
  {
    if id.Some? && CountField(|data| / 4).Some? {
      SendBlocks(env, line, id.value, data);
      var (sent, reply) := Answered(env, line, WriteCommand(id.value, CountField(|data| / 4).value, data));
      VerifiesVerify(env, sent, id.value, data, 10);
      if WriteBlocksRun(env, line, id, data).1 {
        ReadBackProves(line.pad, sent.pad, id.value, data);
      }
    }
  }

  /** Without faults in the write and the first read-back, a write to a tag on the pad that
      has room for the data succeeds exactly if they are at most eight blocks. */
  lemma FaithfulWriteExact(env: Environment, line: Line, id: Option<Id>, data: seq<Byte>)
    requires id.Some? ==> |id.value| == 8
    requires |data| % 4 == 0 && |data| / 4 < 0x1_0000
    requires On(id, line.pad) && line.pad.Fits(id.value, data)
    requires Faultless(env, line) && env.faults(line.turn + 1) == FAITHFUL
    ensures WriteBlocksRun(env, line, id, data).1 <==> |data| <= 32
  {
    WriteBlocksWrites(env, line, id, data);
    if |data| <= 32 {
      SendBlocks(env, line, id.value, data);
      var sent := Answered(env, line, WriteCommand(id.value, CountField(|data| / 4).value, data)).0;
      assert sent.pad.tags[id.value].blocks == Stored(line.pad.tags[id.value].blocks, data, {});
      VerifiesVerify(env, sent, id.value, data, 10);
    }
  }

  /** A write without a fault that fits succeeds as soon as one of the ten read-backs that
      follow it is faultless. */
  lemma WriteBlocksEventually(env: Environment, line: Line, id: Option<Id>, data: seq<Byte>, k: nat)
    requires id.Some? ==> |id.value| == 8
    requires |data| % 4 == 0 && |data| <= 32
    requires On(id, line.pad) && line.pad.Fits(id.value, data) && Faultless(env, line)
    requires k < 10 && env.faults(line.turn + 1 + k) == FAITHFUL
    ensures WriteBlocksRun(env, line, id, data).1
  {
    hide VerifiesRun, Exchanged;
    SendBlocks(env, line, id.value, data);
    var sent := Answered(env, line, WriteCommand(id.value, CountField(|data| / 4).value, data)).0;
    assert sent.pad.tags[id.value].blocks == Stored(line.pad.tags[id.value].blocks, data, {});
    VerifiesEventually(env, sent, id.value, data, 10, k);
  }

  /** A write that was accepted fails only after ten read-backs. */
  lemma AcceptedWriteTriesTen(env: Environment, line: Line, id: Id, data: seq<Byte>)
    requires |id| == 8 && |data| % 4 == 0 && |data| / 4 < 0x1_0000 && CountField(|data| / 4).Some?
    ensures var (sent, reply) := Answered(env, line, WriteCommand(id, CountField(|data| / 4).value, data));
            var (after, ok) := WriteBlocksRun(env, line, Some(id), data);
            !ok ==> after.turn == line.turn + if Accepted(reply, WRITE_BLOCKS) then 11 else 1
  {
    hide VerifiesRun, Exchanged;
    var sent := Answered(env, line, WriteCommand(id, CountField(|data| / 4).value, data)).0;
    VerifiesVerify(env, sent, id, data, 10);
  }

  /** A refusal that is not worth another try. */
  predicate Final(fault: Fault) {
    fault.Rejected? && fault.status != 0 && fault.status != REFUSED
  }

  /** The AFI byte of the tag is the requested one after a success, the old or the requested
      one in any case, and nothing else changed. */
  ghost predicate AfiWritten(before: Line, after: Line, id: Option<Id>, afi: Byte, ok: bool) {
    after == before.(pad := after.pad, turn := after.turn) && before.turn <= after.turn
    && (ok ==> On(id, before.pad) && after.pad == before.pad.WithAfi(id.value, afi))
    && (after.pad == before.pad || (On(id, before.pad) && after.pad == before.pad.WithAfi(id.value, afi)))
  }

  lemma TryAfiWrites(env: Environment, line: Line, id: Id, afi: Byte)
    requires |id| == 8
    ensures var (after, outcome) := TryAfiRun(env, line, id, afi);
            AfiWritten(line, after, Some(id), afi, outcome == Done)
            && line.turn < after.turn <= line.turn + 2
            && (outcome == Unexpected <==> line.open && Final(env.faults(line.turn)))
            && (outcome == Unexpected ==> after == line.(turn := line.turn + 1))
            && (On(Some(id), line.pad) && AfiFaultless(env, line) ==> outcome == Done)
  {
    WriteAfiExchange(line.pad, NextFault(env, line), id, afi);
    var (after, reply) := Answered(env, line, [WRITE_AFI] + id + [afi]);
    ReadAfiReads(env, after, Some(id));
    if TryAfiRun(env, line, id, afi).1 == Done && after.pad == line.pad {
      assert line.pad.WithAfi(id, afi).tags == line.pad.tags;
    }
  }

  lemma {:induction false} WriteAfiWrites(env: Environment, line: Line, id: Option<Id>, afi: Byte, rounds: nat)
    requires id.Some? ==> |id.value| == 8
    ensures var (after, ok) := WriteAfiRun(env, line, id, afi, rounds);
            AfiWritten(line, after, id, afi, ok)
            && (rounds > 0 && On(id, line.pad) && AfiFaultless(env, line) ==> ok)
            && (rounds > 0 && id.Some? && line.open && Final(env.faults(line.turn)) ==>
                  !ok && after == line.(turn := line.turn + 1))
    decreases rounds
  {
    if id.Some? && rounds > 0 {
      TryAfiWrites(env, line, id.value, afi);
      var next := TryAfiRun(env, line, id.value, afi).0;
      WriteAfiWrites(env, next, id, afi, rounds - 1);
      if id.value in line.pad.tags {
        AfiTwice(line.pad, id.value, afi);
      }
    }
  }

  /** Trouble that lasts for fewer commands than there are rounds is overcome: whatever goes
      wrong with the first m commands, short of a final refusal, three faultless ones after
      them are enough. */
  lemma {:induction false} WriteAfiEventually(env: Environment, line: Line, id: Option<Id>, afi: Byte, rounds: nat,
                                              m: nat)
    requires id.Some? ==> |id.value| == 8
    requires On(id, line.pad) && line.open && m < rounds
    requires forall t :: line.turn <= t < line.turn + m ==> !Final(env.faults(t))
    requires forall t :: line.turn + m <= t < line.turn + m + 3 ==> env.faults(t) == FAITHFUL
    ensures WriteAfiRun(env, line, id, afi, rounds).1
    decreases rounds
  {
    hide TryAfiRun;
    TryAfiWrites(env, line, id.value, afi);
    var (next, outcome) := TryAfiRun(env, line, id.value, afi);
    if outcome == Again {
      assert m > 0;
      if next.turn > line.turn + m {
        WriteAfiWrites(env, next, id, afi, rounds - 1);
      } else {
        WriteAfiEventually(env, next, id, afi, rounds - 1, line.turn + m - next.turn);
      }
    }
  }

  // ---------------------------------------------------------------- the line itself

  /** How the parts of an inventory with its recovery turn out. */
  function AttemptOf(env: Environment, line: Line): Attempt {
    var (first, tags) := InventoryRun(env, line);
    var (reopened, ok) := Reopened(env, first);
    Attempt(tags.Ok?, ok, InventoryRun(env, reopened).1.Ok?)
  }

  /** The bytes that come back for a command, none if the port breaks instead. */
  function OnTheWire(pad: Pad, fault: Fault, command: seq<Byte>): seq<Byte>
    requires pad.Valid() && command != [] && !Prefixed(command)
  {
    match fault
    case Delivered(skipped) => Frame(Execute(pad, command, skipped).1)
    case Rejected(status) => Frame([command[0], if status == 0 then REFUSED else status])
    case Corrupted(skipped, body, at) =>
      var answer := Execute(pad, command, skipped).1;
      var length := LengthBytes(|answer| + 2);
      var whole := answer + WordBytes(Checksum(length + answer));
      if |body| == |whole| && body != whole && Burst(Bits(whole), Bits(body), at)
      then [FRAME_PREFIX] + length + body
      else []
    case _ => []
  }

  /** The line carries exactly the exchange: a whole response is read back, a damaged or
      missing one is an error, and nothing is left over for the next command. */
  lemma WireCarries(pad: Pad, fault: Fault, command: seq<Byte>)
    requires pad.Valid() && command != [] && !Prefixed(command)
    ensures Unframe(OnTheWire(pad, fault, command)) == (Exchanged(pad, fault, command).1, [])
  {
    hide Execute, Frame, Checksum;
    match fault {
      case Delivered(skipped) => FramingExact(Execute(pad, command, skipped).1);
      case Rejected(status) => FramingExact(Exchanged(pad, fault, command).1.value);
      case Corrupted(skipped, body, at) =>
        var answer := Execute(pad, command, skipped).1;
        var bytes := OnTheWire(pad, fault, command);
        if bytes != [] {
          CorruptionDetected(answer, body, FRAME_PREFIX, at, []);
          assert bytes + [] == bytes;
        }
      case _ =>
    }
  }

  lemma CommandCarried(command: seq<Byte>)
    requires command != [] && !Prefixed(command) && |command| <= 65533
    ensures Unframe(Frame(command)).0 == Ok(command)
  {
    FramingExact(command);
  }

  /** How some bytes arrive at the port; when there are none it breaks. */
  function Answering(pieces: (nat, seq<Byte>) -> seq<Arrival>, turn: nat, bytes: seq<Byte>): (script: seq<Arrival>)
    requires Arriving(pieces(turn, bytes)) == bytes
    ensures Arriving(script) == bytes
  {
    if bytes == [] then [Broken] else pieces(turn, bytes)
  }

  lemma {:induction false} ListedStops(data: seq<Byte>, i: nat, n: nat)
    requires i <= n && 6 * i + 6 > |data|
    ensures Listed(data, n) == Listed(data, i)
    decreases n
  {
    if i < n {
      ListedStops(data, i, n - 1);
    }
  }

  /** The loop over the blocks of a read response. */
  method ParseBlocks(blockData: seq<Byte>, nrBlocks: nat) returns (found: map<int, string>)
    ensures found == Listed(blockData, nrBlocks)
  {
    found := map[];
    for i := 0 to nrBlocks
      invariant found == Listed(blockData, i)
    {
      if 6 * i + 6 > |blockData| {
        ListedStops(blockData, i, nrBlocks);
        break;
      }
      found := found[BlockNumber(blockData, i) := BlockText(blockData, i)];
    }
  }

  method Collect(found: map<int, string>, n: nat) returns (written: seq<Byte>)
    ensures written == Collected(found, n)
  {
    written := [];
    for i := 0 to n
      invariant written == Collected(found, i)
    {
      if i in found {
        var b := Hex.Decode(found[i]);
        if b.Some? {
          written := written + b.value;
        }
      }
    }
  }

  class Reader {
    const table: seq<Word>
    const port: Port
    var locked: bool        // the mutex

    // The environment, the line and its far end, and in which pieces the responses arrive.
    const env: Environment
    var line: Line
    const pieces: (nat, seq<Byte>) -> seq<Arrival>

    // Failed inventories in a row, and the bookkeeping: attempts to reopen the port, and
    // the commands sent so far, by their code.
    var counters: Counters
    ghost var sent: multiset<Byte>

    ghost predicate Valid()
      reads this, port
    {
      IsTable(table) && Arriving(port.script) == []
      && (forall n, bytes :: Arriving(pieces(n, bytes)) == bytes)
      && counters.tried == line.tried
    }

    constructor (pad: Tags, env: Environment, pieces: (nat, seq<Byte>) -> seq<Arrival>)
      requires forall n, bytes :: Arriving(pieces(n, bytes)) == bytes
      ensures Valid() && fresh(port) && !locked && counters == START
      ensures line == Line(pad, 0, 0, true) && this.env == env
    {
      var t := BuildTable();
      this.table := t;
      this.port := new Port([]);
      this.locked, this.line := false, Line(pad, 0, 0, true);
      this.env, this.pieces := env, pieces;
      this.sent, this.counters := multiset{}, START;
    }

    method Lock()
      requires !locked  // not reentrant: locking it twice would wait forever
      modifies this`locked
      ensures locked
    {
      locked := true;
    }

    method Unlock()
      requires locked
      modifies this`locked
      ensures !locked
    {
      locked := false;
    }

    // -------------------------------------------------------------- one command

    /** Put a framed command on the line. The far end takes it in and answers, as far as
        the fault of this turn lets it. */
    method SendFrame(command: Command)
      requires Valid() && !Prefixed(command) && |command| <= 65533
      modifies this`line, this`sent, port
      ensures sent == old(sent) + multiset{command[0]}
      ensures var (after, reply) := Answered(env, old(line), command);
              line == after && Unframe(Arriving(port.script)) == (reply, [])
    {
      hide Unframe, Exchanged, OnTheWire, Frame;
      var fault := NextFault(env, line);
      CommandCarried(command);
      WireCarries(line.pad, fault, command);
      var received := Unframe(Frame(command)).0.value;
      var bytes := OnTheWire(line.pad, fault, received);
      port.script := Answering(pieces, line.turn, bytes);
      line := line.(pad := Exchanged(line.pad, fault, received).0, turn := line.turn + 1);
      sent := sent + multiset{command[0]};
    }

    method Exchange(command: Command) returns (reply: Reply)
      requires Valid() && !Prefixed(command) && |command| <= 65533
      modifies this`line, this`sent, port
      ensures Valid() && sent == old(sent) + multiset{command[0]}
      ensures (line, reply) == Answered(env, old(line), command)
    {
      hide Unframe, Exchanged;
      SendFrame(command);
      reply := port.ReadResponse(table);
    }

    // -------------------------------------------------------------- reading

    method Inventory() returns (r: Result<seq<string>>)
      requires Valid()
      modifies this`line, this`sent, port
      ensures Valid() && (line, r) == InventoryRun(env, old(line))
      ensures InventoryRead(env, old(line), line, r)
    {
      hide Exchanged;
      InventoryReads(env, line);
      var reply := Exchange(INVENTORY_COMMAND);
      if reply.Err? {
        return Err;
      }
      var resp := reply.value;
      if |resp| < 5 {
        return Err;
      }
      if resp[0] != INVENTORY || resp[1] != 0x00 || resp[2] != 0x00 || resp[3] != 0x05 {
        return Err;
      }
      var nrTags: nat := resp[4];
      if nrTags == 0 {
        assert TagNames(resp[5..], 0) == [];
        return Ok([]);
      }
      var tagData := resp[5..];
      if |tagData| < 8 * nrTags {
        return Err;
      }
      var tags := [];
      for i := 0 to nrTags
        invariant tags == TagNames(tagData, i)
        modifies {}
      {
        assert TagNames(tagData, i + 1) == TagNames(tagData, i) + [Hex.Encode(tagData[8 * i..8 * i + 8])];
        tags := tags + [Hex.Encode(tagData[8 * i..8 * i + 8])];
      }
      r := Ok(tags);
    }

    method ReadAfi(tag: string) returns (r: Result<Byte>)
      requires Valid()
      modifies this`line, this`sent, port
      ensures Valid() && (line, r) == ReadAfiRun(env, old(line), IdOf(tag))
      ensures AfiRead(env, old(line), line, IdOf(tag), r)
      ensures sent == old(sent) + (if IdOf(tag).Some? then multiset{READ_AFI} else multiset{})
    {
      hide Exchanged;
      ReadAfiReads(env, line, IdOf(tag));
      if |tag| != 16 {
        return Err;
      }
      var id := Hex.Decode(tag);
      if id.None? {
        return Err;
      }
      var reply := Exchange([READ_AFI] + id.value);
      if reply.Err? {
        return Err;
      }
      var resp := reply.value;
      if |resp| < 11 || resp[0] != READ_AFI || resp[1] != 0x00 {
        return Err;
      }
      r := Ok(resp[10]);
    }

    method ReadBlocks(tag: string, start: Byte, count: Byte) returns (r: Result<map<int, string>>)
      requires Valid()
      modifies this`line, this`sent, port
      ensures Valid() && (line, r) == ReadBlocksRun(env, old(line), IdOf(tag), start, count)
      ensures BlocksRead(env, old(line), line, IdOf(tag), start, count, r)
    {
      hide Exchanged, BlocksRead;
      ReadBlocksReads(env, line, IdOf(tag), start, count);
      if |tag| != 16 {
        return Err;
      }
      var id := Hex.Decode(tag);
      if id.None? {
        return Err;
      }
      var reply := Exchange([READ_BLOCKS] + id.value + [start, count]);
      if reply.Err? {
        return Err;
      }
      var resp := reply.value;
      if |resp| < 11 || resp[0] != READ_BLOCKS || resp[1] != 0x00 {
        return Err;
      }
      var found := ParseBlocks(resp[11..], resp[10]);
      r := Ok(found);
    }

    // -------------------------------------------------------------- writing

    /** Read the first eight blocks and compare them with what was written. */
    method Verify(tag: string, dataBytes: seq<Byte>) returns (matches: bool)
      requires Valid() && IdOf(tag).Some? && |dataBytes| % 4 == 0
      modifies this`line, this`sent, port
      ensures Valid() && (line, matches) == VerifyRun(env, old(line), IdOf(tag).value, dataBytes)
      ensures Verified(env, old(line), line, IdOf(tag).value, dataBytes, matches)
    {
      hide BlocksRead, Verified;
      VerifyVerifies(env, line, IdOf(tag).value, dataBytes);
      var read := ReadBlocks(tag, 0, 8);
      if read.Err? {
        return false;
      }
      var written := Collect(read.value, |dataBytes| / 4);
      matches := |written| == |dataBytes| && written == dataBytes;
    }

    /** Ten attempts to read back what was written. */
    method VerifyTen(tag: string, dataBytes: seq<Byte>) returns (ok: bool)
      requires Valid() && IdOf(tag).Some? && |dataBytes| % 4 == 0
      modifies this`line, this`sent, port
      ensures Valid() && (line, ok) == VerifiesRun(env, old(line), IdOf(tag).value, dataBytes, 10)
    {
      for retry := 0 to 10
        invariant Valid()
        invariant VerifiesRun(env, old(line), IdOf(tag).value, dataBytes, 10)
               == VerifiesRun(env, line, IdOf(tag).value, dataBytes, 10 - retry)
      {
        var matches := Verify(tag, dataBytes);
        if matches {
          return true;
        }
      }
      ok := false;
    }

    /** Send whole blocks in one command and have them read back. */
    method SendAndVerify(tag: string, dataBytes: seq<Byte>) returns (ok: bool)
      requires Valid() && |dataBytes| <= 65520 && |dataBytes| % 4 == 0
      modifies this`line, this`sent, port
      ensures Valid() && (line, ok) == WriteBlocksRun(env, old(line), IdOf(tag), dataBytes)
    {
      hide Answered, VerifiesRun;
      var count := CountField(|dataBytes| / 4);
      if IdOf(tag).None? || count.None? {
        return false;
      }
      var reply := Exchange(WriteCommand(IdOf(tag).value, count.value, dataBytes));
      if reply.Err? {
        return false;
      }
      var resp := reply.value;
      if |resp| < 2 || resp[0] != WRITE_BLOCKS || resp[1] != 0x00 {
        return false;
      }
      ok := VerifyTen(tag, dataBytes);
    }

    /** Write whole blocks from block 0 on and read them back, ten times at most. */
    method WriteBlocks(tag: string, data: string) returns (ok: bool)
      requires Valid() && |data| <= 2 * 65520  // what fits a frame
      modifies this`line, this`sent, port
      ensures Valid()
      ensures match Hex.Decode(data)
              case None => line == old(line) && !ok
              case Some(bytes) =>
                (line, ok) == WriteBlocksRun(env, old(line), IdOf(tag), WholeBlocks(bytes))
                && BlocksWritten(env, old(line), line, IdOf(tag), WholeBlocks(bytes), ok)
    {
      hide WriteBlocksRun, BlocksWritten;
      var decoded := Hex.Decode(data);
      if decoded.None? {
        return false;
      }
      var dataBytes := WholeBlocks(decoded.value);
      WriteBlocksWrites(env, line, IdOf(tag), dataBytes);
      ok := SendAndVerify(tag, dataBytes);
    }

    /** One round of writing the AFI byte and, if the reader accepts, reading it back. */
    method TryAfi(tag: string, afi: Byte) returns (outcome: Outcome)
      requires Valid() && IdOf(tag).Some?
      modifies this`line, this`sent, port
      ensures Valid() && (line, outcome) == TryAfiRun(env, old(line), IdOf(tag).value, afi)
      ensures AfiWritten(old(line), line, IdOf(tag), afi, outcome == Done) && line.turn > old(line.turn)
      ensures outcome == Unexpected ==> Final(env.faults(old(line.turn)))
      ensures sent == old(sent) + multiset{WRITE_AFI}
              || sent == old(sent) + multiset{WRITE_AFI} + multiset{READ_AFI}
    {
      hide Exchanged, AfiWritten;
      var id := IdOf(tag).value;
      TryAfiWrites(env, line, id, afi);
      var reply := Exchange([WRITE_AFI] + id + [afi]);
      if reply.Err? {
        return Again;
      }
      var resp := reply.value;
      if |resp| >= 2 && resp[0] == WRITE_AFI && resp[1] == 0x00 {
        var readAfi := ReadAfi(tag);
        if readAfi.Err? {
          return Again;
        }
        if readAfi.value == afi {
          return Done;
        }
        return Again;
      }
      if |resp| >= 2 && resp[0] == WRITE_AFI && resp[1] == REFUSED {
        return Again;
      }
      return Unexpected;
    }

    /** Set the AFI byte and read it back; a hundred times at most. */
    method WriteAfi(tag: string, afi: Byte) returns (ok: bool)
      requires Valid()
      modifies this`line, this`sent, port
      ensures Valid() && (line, ok) == WriteAfiRun(env, old(line), IdOf(tag), afi, 100)
      ensures AfiWritten(old(line), line, IdOf(tag), afi, ok)
      ensures sent[WRITE_AFI] <= old(sent)[WRITE_AFI] + 100
      ensures sent[READ_AFI] <= old(sent)[READ_AFI] + 100
      ensures forall code :: code != WRITE_AFI && code != READ_AFI ==> sent[code] == old(sent)[code]
      ensures Known(tag, old(line.pad)) && AfiFaultless(env, old(line)) ==> ok
      ensures !ok && IdOf(tag).Some? && sent[WRITE_AFI] < old(sent)[WRITE_AFI] + 100 ==>
                exists t :: old(line.turn) <= t < line.turn && Final(env.faults(t))
    {
      hide AfiWritten, TryAfiRun, Final, AfiFaultless;
      WriteAfiWrites(env, line, IdOf(tag), afi, 100);
      ok := false;
      if IdOf(tag).None? {
        return;
      }
      for i := 0 to 100
        invariant Valid() && !ok && line.turn >= old(line.turn)
        invariant WriteAfiRun(env, old(line), IdOf(tag), afi, 100) == WriteAfiRun(env, line, IdOf(tag), afi, 100 - i)
        invariant sent[WRITE_AFI] == old(sent)[WRITE_AFI] + i
        invariant sent[READ_AFI] <= old(sent)[READ_AFI] + i
        invariant forall code :: code != WRITE_AFI && code != READ_AFI ==> sent[code] == old(sent)[code]
      {
        var outcome := TryAfi(tag, afi);
        if outcome == Done {
          return true;
        } else if outcome == Unexpected {
          return false;
        }
      }
    }

    // -------------------------------------------------------------- recovery

    /** Close the port and open it again, throwing away what was still to be read. If it
        cannot be opened it stays closed. The caller holds the mutex. */
    method ResetLocked() returns (ok: bool)
      requires Valid() && locked
      modifies this`counters, this`line, port
      ensures Valid() && (line, ok) == Reopened(env, old(line))
      ensures counters == old(counters).(tried := old(counters).tried + 1,
                                         reopened := old(counters).reopened + if ok then 1 else 0)
    {
      line := line.(open := false);
      ok := env.reopens(line.tried);
      counters := counters.(tried := counters.tried + 1);
      line := line.(tried := line.tried + 1);
      if ok {
        port.script := [];
        line := line.(open := true);
        counters := counters.(reopened := counters.reopened + 1);
      }
    }

    /** Reopen the port on behalf of someone outside; takes the mutex itself. */
    method Reset() returns (ok: bool)
      requires Valid() && !locked
      modifies this`locked, this`counters, this`line, port
      ensures Valid() && !locked && (line, ok) == Reopened(env, old(line))
      ensures counters == old(counters).(tried := old(counters).tried + 1,
                                         reopened := old(counters).reopened + if ok then 1 else 0)
    {
      Lock();
      ok := ResetLocked();
      Unlock();
    }

    lemma TriedKept(before: Line, after: Line, r: Result<seq<string>>)
      requires InventoryRead(env, before, after, r)
      ensures after.tried == before.tried && after.pad == before.pad
    {}

    /** An inventory that reopens the port at the third failure in a row. The attempt
        records how its parts turned out. */
    method InventoryWithReset() returns (r: Result<seq<string>>, ghost attempt: Attempt)
      requires Valid() && locked
      modifies this`line, this`sent, this`counters, port
      ensures Valid()
      ensures (line, counters.failures, r) == InventoryWithResetRun(env, old(line), old(counters.failures))
      ensures (counters, r.Ok?) == Count(old(counters), attempt)
      ensures attempt == AttemptOf(env, old(line)) && attempt.reopen == env.reopens(old(counters).tried)
    {
      hide InventoryRun, InventoryRead;
      attempt := AttemptOf(env, line);
      r := Inventory();
      TriedKept(old(line), line, r);
      if r.Ok? {
        counters := counters.(failures := 0);
        return;
      }
      counters := counters.(failures := counters.failures + 1, failedFirst := counters.failedFirst + 1);
      if counters.failures >= 3 {
        var reopened := ResetLocked();
        if reopened {
          counters := counters.(failures := 0);
          ghost var before := line;
          r := Inventory();
          TriedKept(before, line, r);
          return;
        }
      }
      r := Err;
    }
  }
}
