/** The far end of the line: the tags on the pad, what the 3M 810 does with a command, and
    what can go wrong between the two ends. */
module Device {
  import opened Bytes

  type Id = seq<Byte>

  datatype Memory = Memory(afi: Byte, blocks: seq<seq<Byte>>)

  function Stored(blocks: seq<seq<Byte>>, data: seq<Byte>, missed: set<nat>): (r: seq<seq<Byte>>)
    requires |data| % 4 == 0 && |data| / 4 <= |blocks|
    ensures |r| == |blocks|
    ensures forall i :: 0 <= i < |r| ==>
              r[i] == if i < |data| / 4 && i !in missed then data[4 * i..4 * i + 4] else blocks[i]
  {
    seq(|blocks|, i requires 0 <= i < |blocks| =>
      if i < |data| / 4 && i !in missed then data[4 * i..4 * i + 4] else blocks[i])
  }

  /** The tags in range, in the order in which the reader lists them. */
  datatype Pad = Pad(order: seq<Id>, tags: map<Id, Memory>) {

    ghost predicate Valid() {
      |order| <= 255
      && (forall i :: 0 <= i < |order| ==> |order[i]| == 8 && order[i] in tags)
      && (forall id :: id in tags ==> |tags[id].blocks| <= 255)
      && (forall id :: id in tags ==> forall i :: 0 <= i < |tags[id].blocks| ==> |tags[id].blocks[i]| == 4)
    }

    function WithAfi(id: Id, afi: Byte): Pad
      requires id in tags
    {
      this.(tags := tags[id := tags[id].(afi := afi)])
    }

    predicate Fits(id: Id, data: seq<Byte>)
      requires id in tags
    {
      |data| % 4 == 0 && |data| / 4 <= |tags[id].blocks|
    }

    /** The data stored from block 0 on, except for the blocks that were missed. */
    function WithBlocks(id: Id, data: seq<Byte>, missed: set<nat>): Pad
      requires id in tags && Fits(id, data)
    {
      this.(tags := tags[id := tags[id].(blocks := Stored(tags[id].blocks, data, missed))])
    }
  }

  /** Tag numbers one after the other. */
  function Flatten(ids: seq<Id>): (data: seq<Byte>)
    ensures (forall i :: 0 <= i < |ids| ==> |ids[i]| == 8) ==> |data| == 8 * |ids|
  {
    if ids == [] then [] else ids[0] + Flatten(ids[1..])
  }

  lemma {:induction false} FlattenAt(ids: seq<Id>, i: nat)
    requires i < |ids| && forall k :: 0 <= k < |ids| ==> |ids[k]| == 8
    ensures Flatten(ids)[8 * i..8 * i + 8] == ids[i]
  {
    if i > 0 {
      FlattenAt(ids[1..], i - 1);
      assert Flatten(ids)[8 * i..8 * i + 8] == Flatten(ids[1..])[8 * (i - 1)..8 * (i - 1) + 8];
    }
  }

  /** What happens to one command and its response. The blocks skipped are those that a
      read leaves out of its answer and that a write, though acknowledged, did not store. */
  datatype Fault =
    | Delivered(skipped: set<nat>)  // carried out and answered
    | Rejected(status: Byte)        // refused, with a status other than zero
    | LostCommand                   // never reached the reader; no response can be read
    | LostReply(skipped: set<nat>)  // carried out; no response can be read
    | Corrupted(skipped: set<nat>, body: seq<Byte>, at: nat)
                                    // carried out; the response damaged within 16 bits

  const FAITHFUL := Delivered({})

  const READ_BLOCKS: Byte := 0x02
  const WRITE_BLOCKS: Byte := 0x04
  const WRITE_AFI: Byte := 0x09
  const READ_AFI: Byte := 0x0A
  const INVENTORY: Byte := 0xFE
  const REFUSED: Byte := 0x06

  const INVENTORY_COMMAND: seq<Byte> := [INVENTORY, 0x00, 0x05]

  /** The numbers of the blocks in a read response, in order. */
  function Kept(from: nat, count: nat, skipped: set<nat>): (kept: seq<nat>)
    ensures |kept| <= count
    ensures forall k :: k in kept <==> from <= k < from + count && k !in skipped
    ensures forall i :: 0 <= i < |kept| ==> kept[i] in kept
    decreases count
  {
    if count == 0 then []
    else (if from in skipped then [] else [from]) + Kept(from + 1, count - 1, skipped)
  }

  /** The blocks of a read response, each with its number in two bytes, low byte first. */
  function Listing(blocks: seq<seq<Byte>>, kept: seq<nat>): (data: seq<Byte>)
    requires |blocks| <= 255
    requires forall i :: 0 <= i < |blocks| ==> |blocks[i]| == 4
    requires forall k :: 0 <= k < |kept| ==> kept[k] < |blocks|
    ensures |data| == 6 * |kept|
  {
    if kept == [] then []
    else [kept[0] % 256, kept[0] / 256] + blocks[kept[0]] + Listing(blocks, kept[1..])
  }

  lemma {:induction false} ListingParts(blocks: seq<seq<Byte>>, kept: seq<nat>)
    requires |blocks| <= 255 && kept != []
    requires forall k :: 0 <= k < |blocks| ==> |blocks[k]| == 4
    requires forall k :: 0 <= k < |kept| ==> kept[k] < |blocks|
    ensures var data := Listing(blocks, kept);
            data[0] == kept[0] && data[1] == 0 && data[2..6] == blocks[kept[0]]
            && data[6..] == Listing(blocks, kept[1..])
  {}

  lemma {:induction false} ListingAt(blocks: seq<seq<Byte>>, kept: seq<nat>, i: nat)
    requires |blocks| <= 255
    requires forall k :: 0 <= k < |blocks| ==> |blocks[k]| == 4
    requires forall k :: 0 <= k < |kept| ==> kept[k] < |blocks|
    requires i < |kept|
    ensures var data := Listing(blocks, kept);
            data[6 * i] == kept[i] && data[6 * i + 1] == 0 && data[6 * i + 2..6 * i + 6] == blocks[kept[i]]
  {
    hide Listing;
    ListingParts(blocks, kept);
    if i > 0 {
      ListingAt(blocks, kept[1..], i - 1);
      var data, rest := Listing(blocks, kept), Listing(blocks, kept[1..]);
      assert data[6..] == rest;
      assert data[6 * i + 2..6 * i + 6] == rest[6 * (i - 1) + 2..6 * (i - 1) + 6];
    }
  }

  predicate Words(size: nat, n: nat) {
    size == 4 * n
  }

  function Within(start: nat, count: nat, size: nat): (n: nat)
    requires start <= size
    ensures n <= count && start + n <= size
  {
    if start + count <= size then count else size - start
  }

  function ReadReply(id: Id, blocks: seq<seq<Byte>>, kept: seq<nat>): seq<Byte>
    requires |blocks| <= 255 && |kept| <= 255
    requires forall i :: 0 <= i < |blocks| ==> |blocks[i]| == 4
    requires forall k :: 0 <= k < |kept| ==> kept[k] < |blocks|
  {
    [READ_BLOCKS, 0x00] + id + [|kept|] + Listing(blocks, kept)
  }

  /** The reader's own work: the tags afterwards and the response. */
  function Execute(pad: Pad, command: seq<Byte>, skipped: set<nat>): (r: (Pad, seq<Byte>))
    requires pad.Valid() && command != []
    ensures r.0.Valid() && r.0.order == pad.order && r.0.tags.Keys == pad.tags.Keys
    ensures r.1 != [] && r.1[0] == command[0] && |r.1| <= 2048
  {
    var code := command[0];
    if command == INVENTORY_COMMAND then
      (pad, [INVENTORY, 0x00, 0x00, 0x05, |pad.order|] + Flatten(pad.order))
    else if |command| < 9 || command[1..9] !in pad.tags then (pad, [code, REFUSED])
    else
      var id := command[1..9];
      var memory := pad.tags[id];
      if code == READ_AFI && |command| == 9 then (pad, [code, 0x00] + id + [memory.afi])
      else if code == WRITE_AFI && |command| == 10 then
        (if skipped == {} then pad.WithAfi(id, command[9]) else pad, [code, 0x00] + id)
      else if code == READ_BLOCKS && |command| == 11 && command[9] <= |memory.blocks| then
        (pad, ReadReply(id, memory.blocks,
                        Kept(command[9], Within(command[9], command[10], |memory.blocks|), skipped)))
      else if code == WRITE_BLOCKS && |command| >= 12 && command[9] == 0 && command[11] == 0
              && Words(|command| - 12, command[10]) && command[10] <= |memory.blocks| then
        (pad.WithBlocks(id, command[12..], skipped), [code, 0x00] + id)
      else (pad, [code, REFUSED])
  }

  /** One command and its response as the program sees them. */
  function Exchanged(pad: Pad, fault: Fault, command: seq<Byte>): (r: (Pad, Result<seq<Byte>>))
    requires pad.Valid() && command != []
    ensures r.0.Valid() && r.0.order == pad.order && r.0.tags.Keys == pad.tags.Keys
  {
    match fault
    case Delivered(skipped) =>
      var (after, reply) := Execute(pad, command, skipped); (after, Ok(reply))
    case Rejected(status) => (pad, Ok([command[0], if status == 0 then REFUSED else status]))
    case LostCommand => (pad, Err)
    case LostReply(skipped) => (Execute(pad, command, skipped).0, Err)
    case Corrupted(skipped, _, _) => (Execute(pad, command, skipped).0, Err)
  }

  // ---------------------------------------------------------------- the line

  type Reply = Result<seq<Byte>>

  type Command = c: seq<Byte> | c != [] witness [0]

  type Tags = p: Pad | p.Valid() ghost witness Pad([], map[])

  /** The environment: what goes wrong with the n-th command, and whether the n-th attempt
      to open the port again succeeds. */
  datatype Environment = Environment(faults: nat -> Fault, reopens: nat -> bool)

  /** The state of the line and its far end: the tags, the number of the next command, the
      number of attempts so far to open the port again, and whether it is open. */
  datatype Line = Line(pad: Tags, turn: nat, tried: nat, open: bool)

  /** Nothing gets through a closed port. */
  function NextFault(env: Environment, line: Line): Fault {
    if line.open then env.faults(line.turn) else LostCommand
  }

  /** A command and its response. */
  function Answered(env: Environment, line: Line, command: Command): (Line, Reply) {
    var (after, reply) := Exchanged(line.pad, NextFault(env, line), command);
    (line.(pad := after, turn := line.turn + 1), reply)
  }

  /** The port closed and opened again, if that succeeds. */
  function Reopened(env: Environment, line: Line): (Line, bool) {
    var ok := env.reopens(line.tried);
    (line.(tried := line.tried + 1, open := ok), ok)
  }

  // ---------------------------------------------------------------- the four tag commands

  predicate Refusal(reply: Result<seq<Byte>>) {
    reply.Err? || (|reply.value| == 2 && reply.value[1] != 0)
  }

  lemma InventoryExchange(pad: Pad, fault: Fault)
    requires pad.Valid()
    ensures var (after, reply) := Exchanged(pad, fault, INVENTORY_COMMAND);
            after == pad
            && (!Refusal(reply) ==>
                  reply.value == [INVENTORY, 0x00, 0x00, 0x05, |pad.order|] + Flatten(pad.order))
            && (fault.Delivered? ==> !Refusal(reply))
  {}

  lemma ReadAfiExchange(pad: Pad, fault: Fault, id: Id)
    requires pad.Valid() && |id| == 8
    ensures var (after, reply) := Exchanged(pad, fault, [READ_AFI] + id);
            after == pad
            && (!Refusal(reply) ==>
                id in pad.tags && reply.value == [READ_AFI, 0x00] + id + [pad.tags[id].afi])
            && (fault.Delivered? && id in pad.tags ==> !Refusal(reply))
  {
    assert ([READ_AFI] + id)[1..9] == id;
  }

  lemma WriteAfiExchange(pad: Pad, fault: Fault, id: Id, afi: Byte)
    requires pad.Valid() && |id| == 8
    ensures var (after, reply) := Exchanged(pad, fault, [WRITE_AFI] + id + [afi]);
            (after == pad || (id in pad.tags && after == pad.WithAfi(id, afi)))
            && (!Refusal(reply) ==> id in pad.tags && reply.value == [WRITE_AFI, 0x00] + id)
            && (fault == FAITHFUL && id in pad.tags ==> !Refusal(reply) && after == pad.WithAfi(id, afi))
  {
    assert ([WRITE_AFI] + id + [afi])[1..9] == id;
  }

  lemma {:induction false} ReadBlocksExchange(pad: Pad, fault: Fault, id: Id, start: Byte, count: Byte)
    requires pad.Valid() && |id| == 8
    ensures var (after, reply) := Exchanged(pad, fault, [READ_BLOCKS] + id + [start, count]);
            after == pad
            && (!Refusal(reply) ==>
                  fault.Delivered? && id in pad.tags && start <= |pad.tags[id].blocks|
                  && var kept := Kept(start, Within(start, count, |pad.tags[id].blocks|), fault.skipped);
                     reply.value == ReadReply(id, pad.tags[id].blocks, kept))
            && (fault.Delivered? && id in pad.tags && start <= |pad.tags[id].blocks| ==> !Refusal(reply))
  {
    assert ([READ_BLOCKS] + id + [start, count])[1..9] == id;
  }

  /** A write that may have missed some of its blocks. */
  ghost predicate Wrote(before: Pad, after: Pad, id: Id, data: seq<Byte>) {
    id in before.tags && before.Fits(id, data)
    && exists missed :: after == before.WithBlocks(id, data, missed)
  }

  lemma WriteBlocksExchange(pad: Pad, fault: Fault, id: Id, data: seq<Byte>)
    requires pad.Valid() && |id| == 8 && |data| % 4 == 0 && |data| / 4 < 256
    ensures var (after, reply) := Exchanged(pad, fault, [WRITE_BLOCKS] + id + [0x00, |data| / 4, 0x00] + data);
            (after == pad || Wrote(pad, after, id, data))
            && (!Refusal(reply) ==>
                  Wrote(pad, after, id, data) && reply.value == [WRITE_BLOCKS, 0x00] + id)
            && (fault == FAITHFUL && id in pad.tags && pad.Fits(id, data) ==>
                  !Refusal(reply) && after == pad.WithBlocks(id, data, {}))
  {
    var command := [WRITE_BLOCKS] + id + [0x00, |data| / 4, 0x00] + data;
    assert command[1..9] == id && command[12..] == data;
  }

  /** A block count of two bytes changes the layout of the command; it is refused. */
  lemma LongWriteRefused(pad: Pad, fault: Fault, id: Id, high: Byte, low: Byte, data: seq<Byte>)
    requires pad.Valid() && |id| == 8 && |data| % 4 == 0
    ensures var (after, reply) := Exchanged(pad, fault, [WRITE_BLOCKS] + id + [0x00, high, low, 0x00] + data);
            after == pad && Refusal(reply)
  {
    var command := [WRITE_BLOCKS] + id + [0x00, high, low, 0x00] + data;
    assert command[1..9] == id && |command| - 12 == |data| + 1;
  }

  /** Reading the data back block by block shows that no block was missed. */
  lemma ReadBackProves(before: Pad, after: Pad, id: Id, data: seq<Byte>)
    requires Wrote(before, after, id, data)
    requires forall i :: 0 <= i < |data| / 4 ==> after.tags[id].blocks[i] == data[4 * i..4 * i + 4]
    ensures after == before.WithBlocks(id, data, {})
  {
    var missed :| after == before.WithBlocks(id, data, missed);
    var blocks := before.tags[id].blocks;
    assert after.tags[id].blocks == Stored(blocks, data, missed);
    assert Stored(blocks, data, missed) == Stored(blocks, data, {});
  }

  lemma AfiTwice(pad: Pad, id: Id, afi: Byte)
    requires id in pad.tags
    ensures pad.WithAfi(id, afi).WithAfi(id, afi) == pad.WithAfi(id, afi)
  {
    var once := pad.WithAfi(id, afi);
    assert once.WithAfi(id, afi).tags == once.tags;
  }
}
