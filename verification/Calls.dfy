/** Scanning, programming and securing as concurrent calls on one reader. Each operation is
    a talk, that is, what it asks of the line and how it goes on from each answer; alone it
    does what the operation's method does, and so does every interleaving of any number of
    them in the order of their locking. */
module Calls {
  import opened Bytes
  import opened Device
  import opened Reader
  import opened Ops
  import opened Serialization
  import Hex

  /** What becomes of a request on the line. */
  function Ask(env: Environment, line: Line, request: Request): (Line, Reply) {
    match request
    case Transmit(command) => Answered(env, line, command)
    case Reopen => var (after, ok) := Reopened(env, line); (after, if ok then Ok([]) else Err)
  }

  function FarEnd(env: Environment): Exchange<Line> {
    (line: Line, request: Request) => Ask(env, line, request)
  }

  // ---------------------------------------------------------------- the driver's talks

  function InventoryTalk<R>(more: Result<seq<string>> -> Talk<R>): Talk<R> {
    Say(Transmit(INVENTORY_COMMAND), reply => more(TagsIn(reply)))
  }

  function ReadAfiTalk<R>(id: Option<Id>, more: Result<Byte> -> Talk<R>): Talk<R> {
    match id
    case None => more(Err)
    case Some(id) => Say(Transmit([READ_AFI] + id), reply => more(AfiIn(reply)))
  }

  function ReadBlocksTalk<R>(id: Option<Id>, more: Result<map<int, string>> -> Talk<R>): Talk<R> {
    match id
    case None => more(Err)
    case Some(id) => Say(Transmit([READ_BLOCKS] + id + [0, 8]), reply => more(BlocksIn(reply)))
  }

  function VerifiesTalk<R>(id: Id, data: seq<Byte>, tries: nat, more: bool -> Talk<R>): Talk<R>
    decreases tries, 0
  {
    if tries == 0 then more(false) else ReadBlocksTalk(Some(id), AfterVerify(id, data, tries - 1, more))
  }

  function AfterVerify<R>(id: Id, data: seq<Byte>, tries: nat, more: bool -> Talk<R>)
    : Result<map<int, string>> -> Talk<R>
    decreases tries, 1
  {
    (read: Result<map<int, string>>) =>
      if read.Ok? && Collected(read.value, |data| / 4) == data then more(true)
      else VerifiesTalk(id, data, tries, more)
  }

  function WriteBlocksTalk<R>(id: Option<Id>, data: seq<Byte>, more: bool -> Talk<R>): Talk<R>
    requires |data| / 4 < 0x1_0000
  {
    match (id, CountField(|data| / 4))
    case (Some(id), Some(count)) =>
      Say(Transmit(WriteCommand(id, count, data)), reply =>
        if Accepted(reply, WRITE_BLOCKS) then VerifiesTalk(id, data, 10, more) else more(false))
    case _ => more(false)
  }

  function WriteAfiTalk<R>(id: Option<Id>, afi: Byte, rounds: nat, more: bool -> Talk<R>): Talk<R>
    decreases rounds, 0
  {
    if id.None? || rounds == 0 then more(false)
    else
      Say(Transmit([WRITE_AFI] + id.value + [afi]), reply =>
        if Accepted(reply, WRITE_AFI) then ReadAfiTalk(id, AfterReadBack(id, afi, rounds - 1, more))
        else match Unaccepted(reply)
          case Again => WriteAfiTalk(id, afi, rounds - 1, more)
          case _ => more(false))
  }

  function AfterReadBack<R>(id: Option<Id>, afi: Byte, rounds: nat, more: bool -> Talk<R>): Result<Byte> -> Talk<R>
    decreases rounds, 1
  {
    (read: Result<Byte>) => if read == Ok(afi) then more(true) else WriteAfiTalk(id, afi, rounds, more)
  }

  // ---------------------------------------------------------------- the operations' talks

  function ScanTagsTalk<R>(tags: seq<string>, infos: seq<TagInfo>, more: seq<TagInfo> -> Talk<R>): Talk<R>
    decreases |tags|, 0
  {
    if tags == [] then more(infos) else ReadAfiTalk(IdOf(tags[0]), AfterTagAfi(tags, infos, more))
  }

  function AfterTagAfi<R>(tags: seq<string>, infos: seq<TagInfo>, more: seq<TagInfo> -> Talk<R>)
    : Result<Byte> -> Talk<R>
    requires tags != []
    decreases |tags| - 1, 2
  {
    (afi: Result<Byte>) => ReadBlocksTalk(IdOf(tags[0]), AfterTagBlocks(tags, infos, afi, more))
  }

  function AfterTagBlocks<R>(tags: seq<string>, infos: seq<TagInfo>, afi: Result<Byte>, more: seq<TagInfo> -> Talk<R>)
    : Result<map<int, string>> -> Talk<R>
    requires tags != []
    decreases |tags| - 1, 1
  {
    (read: Result<map<int, string>>) =>
      ScanTagsTalk(tags[1..], infos + [TagInfo(tags[0], ContentIn(read), SecurityIn(afi))], more)
  }

  datatype Answer = Scanned(tags: Result<seq<TagInfo>>) | Programmed(res: ProgramResult) | Secured(ok: bool)

  function ScanEnds(failures: nat): seq<TagInfo> -> Talk<Answer> {
    (infos: seq<TagInfo>) => Return(Scanned(Ok(infos)), failures)
  }

  function AfterReopening(): Result<seq<string>> -> Talk<Answer> {
    (tags: Result<seq<string>>) =>
      if tags.Ok? then ScanTagsTalk(tags.value, [], ScanEnds(0)) else Return(Scanned(Err), 0)
  }

  function AfterInventory(failures: nat): Result<seq<string>> -> Talk<Answer> {
    (tags: Result<seq<string>>) =>
      if tags.Ok? then ScanTagsTalk(tags.value, [], ScanEnds(0))
      else if failures + 1 < 3 then Return(Scanned(Err), failures + 1)
      else Say(Reopen, (reply: Reply) =>
        if reply.Err? then Return(Scanned(Err), failures + 1) else InventoryTalk(AfterReopening()))
  }

  function ScanTalk(failures: nat): Talk<Answer> {
    InventoryTalk(AfterInventory(failures))
  }

  function ProgramTalk<R>(ops: seq<ProgramOp>, res: ProgramResult, more: ProgramResult -> Talk<R>): Talk<R>
    decreases |ops|, 0
  {
    if ops == [] then more(res)
    else if |ops[0].content| > 16 then
      ProgramTalk(ops[1..], WithErrors(res, [TooLong(Hex.Upper(ops[0].sid))]), more)
    else WriteBlocksTalk(IdOf(ops[0].sid), DataFor(ops[0]), AfterBlocks(ops, res, more))
  }

  function AfterBlocks<R>(ops: seq<ProgramOp>, res: ProgramResult, more: ProgramResult -> Talk<R>): bool -> Talk<R>
    requires ops != []
    decreases |ops| - 1, 2
  {
    (written: bool) =>
      if written then WriteAfiTalk(IdOf(ops[0].sid), AfiFor(ops[0]), 100, AfterAfi(ops, res, more))
      else ProgramTalk(ops[1..], WithErrors(res, [BlocksNotWritten(Hex.Upper(ops[0].sid))]), more)
  }

  function AfterAfi<R>(ops: seq<ProgramOp>, res: ProgramResult, more: ProgramResult -> Talk<R>): bool -> Talk<R>
    requires ops != []
    decreases |ops| - 1, 1
  {
    (secured: bool) =>
      ProgramTalk(ops[1..], WithErrors(res, if secured then [] else [AfiNotWritten(Hex.Upper(ops[0].sid))]), more)
  }

  function SecureTalk<R>(ops: seq<SecureOp>, more: bool -> Talk<R>): Talk<R>
    decreases |ops|, 0
  {
    if ops == [] then more(true)
    else match AfiOf(ops[0])
      case None => more(false)
      case Some(afi) => WriteAfiTalk(IdOf(ops[0].sid), afi, 100, AfterSecured(ops[1..], more))
  }

  function AfterSecured<R>(ops: seq<SecureOp>, more: bool -> Talk<R>): bool -> Talk<R>
    decreases |ops|, 1
  {
    (ok: bool) => if ok then SecureTalk(ops, more) else more(false)
  }

  datatype Operation = Scanning | Programming(requests: seq<ProgramOp>) | Securing(targets: seq<SecureOp>)

  function ProgramEnds(failures: nat): ProgramResult -> Talk<Answer> {
    (res: ProgramResult) => Return(Programmed(res), failures)
  }

  function SecureEnds(failures: nat): bool -> Talk<Answer> {
    (ok: bool) => Return(Secured(ok), failures)
  }

  function TalkOf(op: Operation, failures: nat): Talk<Answer> {
    match op
    case Scanning => ScanTalk(failures)
    case Programming(ops) => ProgramTalk(ops, NO_ERRORS, ProgramEnds(failures))
    case Securing(ops) => SecureTalk(ops, SecureEnds(failures))
  }

  function CallOf(op: Operation): Call<Answer> {
    Call(failures => TalkOf(op, failures))
  }

  function CallsOf(ops: seq<Operation>): (calls: seq<Call<Answer>>)
    ensures |calls| == |ops|
  {
    seq(|ops|, i requires 0 <= i < |ops| => CallOf(ops[i]))
  }

  /** What an operation does alone: what it leaves and its answer. */
  function OperationRun(env: Environment, op: Operation, s: Shared<Line>): (Shared<Line>, Answer) {
    match op
    case Scanning =>
      var (after, left, r) := ScanRun(env, s.device, s.failures); (Shared(after, left), Scanned(r))
    case Programming(ops) =>
      var (after, res) := ProgramRun(env, s.device, ops, NO_ERRORS); (Shared(after, s.failures), Programmed(res))
    case Securing(ops) =>
      var (after, ok) := SecureRun(env, s.device, ops); (Shared(after, s.failures), Secured(ok))
  }

  // ---------------------------------------------------------------- what the talks do alone

  ghost predicate Reaches<R>(env: Environment, talk: Talk<R>, line: Line, rest: Talk<R>, after: Line) {
    Leads(FarEnd(env), talk, line, rest, after)
  }

  lemma Stays<R>(env: Environment, talk: Talk<R>, line: Line)
    ensures Reaches(env, talk, line, talk, line)
  {
    LeadsNowhere(FarEnd(env), talk, line);
  }

  lemma Goes<R>(env: Environment, talk: Talk<R>, line: Line, middle: Talk<R>, between: Line,
                rest: Talk<R>, after: Line)
    requires Reaches(env, talk, line, middle, between) && Reaches(env, middle, between, rest, after)
    ensures Reaches(env, talk, line, rest, after)
  {
    hide Leads;
    LeadsOn(FarEnd(env), talk, line, middle, between, rest, after);
  }

  lemma Says<R>(env: Environment, talk: Talk<R>, line: Line)
    requires talk.Say?
    ensures var (after, reply) := Ask(env, line, talk.request); Reaches(env, talk, line, talk.more(reply), after)
  {
    hide Leads;
    var (after, reply) := Ask(env, line, talk.request);
    LeadsNowhere(FarEnd(env), talk.more(reply), after);
    SayLeads(FarEnd(env), talk, line, talk.more(reply), after);
  }

  lemma InventoryTalks<R>(env: Environment, line: Line, more: Result<seq<string>> -> Talk<R>)
    ensures var (after, tags) := InventoryRun(env, line); Reaches(env, InventoryTalk(more), line, more(tags), after)
  {
    hide Reaches, TagsIn, Answered;
    Says(env, InventoryTalk(more), line);
  }

  lemma ReadAfiTalks<R>(env: Environment, line: Line, id: Option<Id>, more: Result<Byte> -> Talk<R>)
    ensures var (after, read) := ReadAfiRun(env, line, id); Reaches(env, ReadAfiTalk(id, more), line, more(read), after)
  {
    hide Reaches, AfiIn, Answered;
    if id.None? {
      Stays(env, more(Err), line);
    } else {
      Says(env, ReadAfiTalk(id, more), line);
    }
  }

  lemma ReadBlocksTalks<R>(env: Environment, line: Line, id: Option<Id>, more: Result<map<int, string>> -> Talk<R>)
    ensures var (after, read) := ReadBlocksRun(env, line, id, 0, 8);
            Reaches(env, ReadBlocksTalk(id, more), line, more(read), after)
  {
    hide Reaches, BlocksIn, Answered;
    if id.None? {
      Stays(env, more(Err), line);
    } else {
      Says(env, ReadBlocksTalk(id, more), line);
    }
  }

  lemma {:induction false} VerifiesTalks<R>(env: Environment, line: Line, id: Id, data: seq<Byte>, tries: nat,
                                            more: bool -> Talk<R>)
    ensures var (after, ok) := VerifiesRun(env, line, id, data, tries);
            Reaches(env, VerifiesTalk(id, data, tries, more), line, more(ok), after)
    decreases tries
  {
    hide Reaches, ReadBlocksTalk, ReadBlocksRun, Collected;
    var talk := VerifiesTalk(id, data, tries, more);
    if tries == 0 {
      Stays(env, talk, line);
    } else {
      var next := AfterVerify(id, data, tries - 1, more);
      var (after, read) := ReadBlocksRun(env, line, Some(id), 0, 8);
      ReadBlocksTalks(env, line, Some(id), next);
      if VerifyRun(env, line, id, data).1 {
        Stays(env, more(true), after);
      } else {
        VerifiesTalks(env, after, id, data, tries - 1, more);
      }
      var (end, ok) := VerifiesRun(env, line, id, data, tries);
      Goes(env, talk, line, next(read), after, more(ok), end);
    }
  }

  lemma WriteBlocksTalks<R>(env: Environment, line: Line, id: Option<Id>, data: seq<Byte>, more: bool -> Talk<R>)
    requires |data| / 4 < 0x1_0000
    ensures var (after, ok) := WriteBlocksRun(env, line, id, data);
            Reaches(env, WriteBlocksTalk(id, data, more), line, more(ok), after)
  {
    hide Reaches, Answered, WriteCommand, VerifiesTalk, VerifiesRun, CountField, Accepted;
    var talk := WriteBlocksTalk(id, data, more);
    if id.None? || CountField(|data| / 4).None? {
      Stays(env, talk, line);
    } else {
      var (after, reply) := Ask(env, line, talk.request);
      Says(env, talk, line);
      if Accepted(reply, WRITE_BLOCKS) {
        VerifiesTalks(env, after, id.value, data, 10, more);
      } else {
        Stays(env, more(false), after);
      }
      var (end, ok) := WriteBlocksRun(env, line, id, data);
      Goes(env, talk, line, talk.more(reply), after, more(ok), end);
    }
  }

  lemma {:induction false} WriteAfiTalks<R>(env: Environment, line: Line, id: Option<Id>, afi: Byte, rounds: nat,
                                            more: bool -> Talk<R>)
    ensures var (after, ok) := WriteAfiRun(env, line, id, afi, rounds);
            Reaches(env, WriteAfiTalk(id, afi, rounds, more), line, more(ok), after)
    decreases rounds
  {
    hide Reaches, Answered, ReadAfiTalk, ReadAfiRun, Accepted;
    var talk := WriteAfiTalk(id, afi, rounds, more);
    if id.None? || rounds == 0 {
      Stays(env, talk, line);
    } else {
      var (after, reply) := Ask(env, line, talk.request);
      var (end, ok) := WriteAfiRun(env, line, id, afi, rounds);
      Says(env, talk, line);
      if Accepted(reply, WRITE_AFI) {
        var next := AfterReadBack(id, afi, rounds - 1, more);
        var (back, read) := ReadAfiRun(env, after, id);
        ReadAfiTalks(env, after, id, next);
        if read == Ok(afi) {
          Stays(env, more(true), back);
        } else {
          WriteAfiTalks(env, back, id, afi, rounds - 1, more);
        }
        Goes(env, talk.more(reply), after, next(read), back, more(ok), end);
      } else if Unaccepted(reply) == Again {
        WriteAfiTalks(env, after, id, afi, rounds - 1, more);
      } else {
        Stays(env, more(false), after);
      }
      Goes(env, talk, line, talk.more(reply), after, more(ok), end);
    }
  }

  lemma {:induction false} ScanTagsTalks<R>(env: Environment, line: Line, tags: seq<string>, infos: seq<TagInfo>,
                                            more: seq<TagInfo> -> Talk<R>)
    ensures var (after, all) := ScanTagsRun(env, line, tags, infos);
            Reaches(env, ScanTagsTalk(tags, infos, more), line, more(all), after)
    decreases |tags|
  {
    hide Reaches, ReadAfiTalk, ReadAfiRun, ReadBlocksTalk, ReadBlocksRun, ContentIn, SecurityIn, IdOf;
    var talk := ScanTagsTalk(tags, infos, more);
    if tags == [] {
      Stays(env, talk, line);
    } else {
      var id := IdOf(tags[0]);
      var (one, afi) := ReadAfiRun(env, line, id);
      var (two, read) := ReadBlocksRun(env, one, id, 0, 8);
      var (end, all) := ScanTagsRun(env, line, tags, infos);
      var first := AfterTagAfi(tags, infos, more);
      var second := AfterTagBlocks(tags, infos, afi, more);
      ReadAfiTalks(env, line, id, first);
      ReadBlocksTalks(env, one, id, second);
      ScanTagsTalks(env, two, tags[1..], infos + [TagInfo(tags[0], ContentIn(read), SecurityIn(afi))], more);
      Goes(env, first(afi), one, second(read), two, more(all), end);
      Goes(env, talk, line, first(afi), one, more(all), end);
    }
  }

  lemma {:induction false} ScanEndTalks(env: Environment, line: Line, tags: seq<string>)
    ensures var (after, infos) := ScanTagsRun(env, line, tags, []);
            Reaches(env, ScanTagsTalk(tags, [], ScanEnds(0)), line, Return(Scanned(Ok(infos)), 0), after)
  {
    hide Reaches, ScanTagsTalk, ScanTagsRun;
    ScanTagsTalks(env, line, tags, [], ScanEnds(0));
  }

  lemma {:induction false} ReopeningTalks(env: Environment, line: Line)
    ensures var (after, tags) := InventoryRun(env, line);
            var (end, infos) := if tags.Ok? then ScanTagsRun(env, after, tags.value, []) else (after, []);
            Reaches(env, InventoryTalk(AfterReopening()), line,
                    Return(Scanned(if tags.Ok? then Ok(infos) else Err), 0), end)
  {
    hide Reaches, InventoryTalk, InventoryRun, ScanTagsTalk, ScanTagsRun, ScanEnds;
    var talk, next := InventoryTalk(AfterReopening()), AfterReopening();
    var (after, tags) := InventoryRun(env, line);
    InventoryTalks(env, line, next);
    if tags.Ok? {
      var (end, infos) := ScanTagsRun(env, after, tags.value, []);
      ScanEndTalks(env, after, tags.value);
      Goes(env, talk, line, next(tags), after, Return(Scanned(Ok(infos)), 0), end);
    }
  }

  lemma ScanTalks(env: Environment, line: Line, failures: nat)
    ensures var (after, left, r) := ScanRun(env, line, failures);
            Reaches(env, ScanTalk(failures), line, Return(Scanned(r), left), after)
  {
    hide Reaches, InventoryTalk, InventoryRun, ScanTagsTalk, ScanTagsRun, Reopened, AfterReopening, ScanEnds;
    var talk, next := ScanTalk(failures), AfterInventory(failures);
    var (first, tags) := InventoryRun(env, line);
    var (end, left, r) := ScanRun(env, line, failures);
    InventoryTalks(env, line, next);
    if tags.Ok? {
      ScanEndTalks(env, first, tags.value);
    } else if failures + 1 < 3 {
      Stays(env, next(tags), first);
    } else {
      var (reopened, reply) := Ask(env, first, Reopen);
      Says(env, next(tags), first);
      if reply.Ok? {
        ReopeningTalks(env, reopened);
        Goes(env, next(tags), first, InventoryTalk(AfterReopening()), reopened, Return(Scanned(r), left), end);
      }
    }
    Goes(env, talk, line, next(tags), first, Return(Scanned(r), left), end);
  }

  lemma {:induction false} ProgramTalks<R>(env: Environment, line: Line, ops: seq<ProgramOp>, res: ProgramResult,
                                           more: ProgramResult -> Talk<R>)
    ensures var (after, end) := ProgramRun(env, line, ops, res);
            Reaches(env, ProgramTalk(ops, res, more), line, more(end), after)
    decreases |ops|
  {
    hide Reaches, WriteBlocksTalk, WriteBlocksRun, WriteAfiTalk, WriteAfiRun, DataFor, AfiFor, WithErrors, IdOf;
    var talk := ProgramTalk(ops, res, more);
    if ops == [] {
      Stays(env, talk, line);
    } else {
      var op, id := ops[0], IdOf(ops[0].sid);
      var (next, errors) := ProgramOneRun(env, line, op);
      ProgramTalks(env, next, ops[1..], WithErrors(res, errors), more);
      if |op.content| <= 16 {
        var (end, all) := ProgramRun(env, line, ops, res);
        var first, second := AfterBlocks(ops, res, more), AfterAfi(ops, res, more);
        var (one, written) := WriteBlocksRun(env, line, id, DataFor(op));
        WriteBlocksTalks(env, line, id, DataFor(op), first);
        if written {
          var (two, secured) := WriteAfiRun(env, one, id, AfiFor(op), 100);
          WriteAfiTalks(env, one, id, AfiFor(op), 100, second);
          Goes(env, first(written), one, second(secured), two, more(all), end);
        }
        Goes(env, talk, line, first(written), one, more(all), end);
      }
    }
  }

  lemma {:induction false} SecureTalks<R>(env: Environment, line: Line, ops: seq<SecureOp>, more: bool -> Talk<R>)
    ensures var (after, ok) := SecureRun(env, line, ops);
            Reaches(env, SecureTalk(ops, more), line, more(ok), after)
    decreases |ops|
  {
    hide Reaches, WriteAfiTalk, WriteAfiRun, AfiOf, IdOf;
    var talk := SecureTalk(ops, more);
    if ops == [] || AfiOf(ops[0]).None? {
      Stays(env, talk, line);
    } else {
      var id, afi, next := IdOf(ops[0].sid), AfiOf(ops[0]).value, AfterSecured(ops[1..], more);
      var (one, written) := WriteAfiRun(env, line, id, afi, 100);
      var (end, ok) := SecureRun(env, line, ops);
      WriteAfiTalks(env, line, id, afi, 100, next);
      if written {
        SecureTalks(env, one, ops[1..], more);
      } else {
        Stays(env, more(false), one);
      }
      Goes(env, talk, line, next(written), one, more(ok), end);
    }
  }

  /** Alone on the reader, an operation's talk ends with what the operation does. */
  lemma OperationTalks(env: Environment, op: Operation, s: Shared<Line>)
    ensures var (after, answer) := OperationRun(env, op, s);
            Reaches(env, TalkOf(op, s.failures), s.device, Return(answer, after.failures), after.device)
  {
    hide Reaches, ScanTalk, ScanRun, ProgramTalk, ProgramRun, SecureTalk, SecureRun;
    match op {
      case Scanning => ScanTalks(env, s.device, s.failures);
      case Programming(ops) => ProgramTalks(env, s.device, ops, NO_ERRORS, ProgramEnds(s.failures));
      case Securing(ops) => SecureTalks(env, s.device, ops, SecureEnds(s.failures));
    }
  }

  // ---------------------------------------------------------------- what is promised

  /** What an operation promises about the tags before and after it and its answer. */
  ghost predicate Promised(env: Environment, op: Operation, before: Shared<Line>, after: Shared<Line>,
                           answer: Answer) {
    match (op, answer)
    case (Scanning, Scanned(r)) => ScanPromise(env, before.device, before.failures, after.device, r)
    case (Programming(ops), Programmed(res)) => ProgramPromise(before.device.pad, after.device.pad, ops, res)
    case (Securing(ops), Secured(ok)) => SecurePromise(before.device.pad, after.device.pad, ops, ok)
    case _ => false
  }

  lemma OperationKeepsPromise(env: Environment, op: Operation, s: Shared<Line>)
    ensures var (after, answer) := OperationRun(env, op, s); Promised(env, op, s, after, answer)
  {
    hide ScanRun, ScanPromise, ProgramRun, ProgramPromise, SecureRun, SecurePromise;
    match op {
      case Scanning => ScanKeepsPromise(env, s.device, s.failures);
      case Programming(ops) => ProgramKeepsPromise(env, s.device, ops);
      case Securing(ops) => SecureKeepsPromise(env, s.device, ops);
    }
  }

  /** An operation that completes alone does what its method does and keeps its promise. */
  lemma CompleteOperation(env: Environment, op: Operation, s: Shared<Line>, n: nat)
    requires Complete(FarEnd(env), CallOf(op), s, n).Some?
    ensures Complete(FarEnd(env), CallOf(op), s, n) == Some(OperationRun(env, op, s))
    ensures var (after, answer) := Complete(FarEnd(env), CallOf(op), s, n).value; Promised(env, op, s, after, answer)
  {
    hide Complete, TalkOf, OperationRun, Promised, Leads;
    var (after, answer) := OperationRun(env, op, s);
    OperationTalks(env, op, s);
    CompleteIs(FarEnd(env), CallOf(op), s, n, after.device, answer, after.failures);
    OperationKeepsPromise(env, op, s);
  }

  /** Operations one after the other, each with the state in which it found the reader. */
  ghost predicate InTurn(env: Environment, ops: seq<Operation>, turns: seq<Turn>, states: seq<Shared<Line>>,
                         answers: seq<Answer>) {
    |states| == |turns| + 1 && |answers| == |turns|
    && forall i :: 0 <= i < |turns| ==>
         turns[i].thread < |ops|
         && (states[i + 1], answers[i]) == OperationRun(env, ops[turns[i].thread], states[i])
         && Promised(env, ops[turns[i].thread], states[i], states[i + 1], answers[i])
  }

  lemma {:induction false} SerialInTurn(env: Environment, ops: seq<Operation>, start: Shared<Line>, turns: seq<Turn>)
    returns (states: seq<Shared<Line>>)
    requires forall i :: 0 <= i < |turns| ==> turns[i].thread < |ops|
    requires Serial(FarEnd(env), CallsOf(ops), start, turns).Some?
    ensures var (after, answers) := Serial(FarEnd(env), CallsOf(ops), start, turns).value;
            InTurn(env, ops, turns, states, answers) && states[0] == start && states[|turns|] == after
    decreases |turns|
  {
    hide Complete, Promised, OperationRun, CallOf;
    states := [start];
    if turns != [] {
      var n := |turns| - 1;
      states := SerialInTurn(env, ops, start, turns[..n]);
      var (before, answers) := Serial(FarEnd(env), CallsOf(ops), start, turns[..n]).value;
      CompleteOperation(env, ops[turns[n].thread], before, turns[n].requests);
      states := states + [OperationRun(env, ops[turns[n].thread], before).0];
      assert forall i :: 0 <= i < n ==> turns[i] == turns[..n][i];
    }
  }

  /** However the steps of any number of scans, programmings and securings interleave, and
      whatever goes wrong on the line: those that have returned did so with the answers of
      the methods run one at a time in the order of their locking, and each kept its
      promise; unless one is inside, the reader is as the last of them left it. */
  lemma OperationsAreSerial(env: Environment, ops: seq<Operation>, start: Shared<Line>, schedule: seq<nat>)
    returns (states: seq<Shared<Line>>, answers: seq<Answer>)
    requires forall i :: 0 <= i < |schedule| ==> schedule[i] < |ops|
    ensures var s := Run(FarEnd(env), CallsOf(ops), Initial(CallsOf(ops), start), schedule);
            InTurn(env, ops, s.history, states, answers) && states[0] == start
            && HaveResults(s.threads, s.history, answers)
            && (s.holder.None? ==> s.shared == states[|s.history|])
            && (forall t :: 0 <= t < |ops| && s.threads[t].Finished? ==> InHistory(s.history, t))
  {
    hide Run, Serial, InTurn, HaveResults, InHistory, Holding, CallsOf;
    EveryInterleavingIsSerial(FarEnd(env), CallsOf(ops), start, schedule);
    var s := Run(FarEnd(env), CallsOf(ops), Initial(CallsOf(ops), start), schedule);
    states := SerialInTurn(env, ops, start, s.history);
    answers := Serial(FarEnd(env), CallsOf(ops), start, s.history).value.1;
  }

  // ---------------------------------------------------------------- every operation returns

  lemma SayLimited<R>(talk: Talk<R>, n: nat)
    requires talk.Say? && forall reply :: Limited(talk.more(reply), n)
    ensures Limited(talk, n + 1)
  {}

  lemma ReadAfiLimited<R>(id: Option<Id>, more: Result<Byte> -> Talk<R>, n: nat)
    requires forall read :: Limited(more(read), n)
    ensures Limited(ReadAfiTalk(id, more), n + 1)
  {
    hide Limited, AfiIn;
    if id.None? {
      LimitedMore(more(Err), n, n + 1);
    } else {
      var talk := ReadAfiTalk(id, more);
      forall reply ensures Limited(talk.more(reply), n) {
        assert talk.more(reply) == more(AfiIn(reply));
      }
      SayLimited(talk, n);
    }
  }

  lemma ReadBlocksLimited<R>(id: Option<Id>, more: Result<map<int, string>> -> Talk<R>, n: nat)
    requires forall read :: Limited(more(read), n)
    ensures Limited(ReadBlocksTalk(id, more), n + 1)
  {
    hide Limited, BlocksIn;
    if id.None? {
      LimitedMore(more(Err), n, n + 1);
    } else {
      var talk := ReadBlocksTalk(id, more);
      forall reply ensures Limited(talk.more(reply), n) {
        assert talk.more(reply) == more(BlocksIn(reply));
      }
      SayLimited(talk, n);
    }
  }

  /** An inventory lists no more than 255 tags. */
  lemma InventoryLimited<R>(more: Result<seq<string>> -> Talk<R>, n: nat)
    requires forall tags: Result<seq<string>> :: (tags.Ok? ==> |tags.value| <= 255) ==> Limited(more(tags), n)
    ensures Limited(InventoryTalk(more), n + 1)
  {
    hide Limited;
    var talk := InventoryTalk(more);
    forall reply ensures Limited(talk.more(reply), n) {
      assert talk.more(reply) == more(TagsIn(reply));
    }
    SayLimited(talk, n);
  }

  lemma {:induction false} VerifiesLimited<R>(id: Id, data: seq<Byte>, tries: nat, more: bool -> Talk<R>, n: nat)
    requires forall ok :: Limited(more(ok), n)
    ensures Limited(VerifiesTalk(id, data, tries, more), n + tries)
    decreases tries
  {
    hide Limited, ReadBlocksTalk, Collected;
    if tries > 0 {
      VerifiesLimited(id, data, tries - 1, more, n);
      var next := AfterVerify(id, data, tries - 1, more);
      LimitedMore(more(true), n, n + tries - 1);
      forall read ensures Limited(next(read), n + tries - 1) {}
      ReadBlocksLimited(Some(id), next, n + tries - 1);
    }
  }

  lemma WriteBlocksLimited<R>(id: Option<Id>, data: seq<Byte>, more: bool -> Talk<R>, n: nat)
    requires |data| / 4 < 0x1_0000 && forall ok :: Limited(more(ok), n)
    ensures Limited(WriteBlocksTalk(id, data, more), n + 11)
  {
    hide Limited, VerifiesTalk, Accepted, CountField;
    LimitedMore(more(false), n, n + 11);
    if id.Some? && CountField(|data| / 4).Some? {
      VerifiesLimited(id.value, data, 10, more, n);
      LimitedMore(more(false), n, n + 10);
      SayLimited(WriteBlocksTalk(id, data, more), n + 10);
    }
  }

  lemma {:induction false} WriteAfiLimited<R>(id: Option<Id>, afi: Byte, rounds: nat, more: bool -> Talk<R>, n: nat)
    requires forall ok :: Limited(more(ok), n)
    ensures Limited(WriteAfiTalk(id, afi, rounds, more), n + 2 * rounds)
    decreases rounds
  {
    hide Limited, Accepted, Unaccepted, ReadAfiTalk;
    LimitedMore(more(false), n, n + 2 * rounds);
    if id.Some? && rounds > 0 {
      var rest := n + 2 * (rounds - 1);
      WriteAfiLimited(id, afi, rounds - 1, more, n);
      LimitedMore(more(true), n, rest);
      ReadAfiLimited(id, AfterReadBack(id, afi, rounds - 1, more), rest);
      LimitedMore(more(false), n, rest + 1);
      LimitedMore(WriteAfiTalk(id, afi, rounds - 1, more), rest, rest + 1);
      SayLimited(WriteAfiTalk(id, afi, rounds, more), rest + 1);
    }
  }

  lemma {:induction false} ScanTagsLimited<R>(tags: seq<string>, infos: seq<TagInfo>, more: seq<TagInfo> -> Talk<R>,
                                             n: nat)
    requires forall all :: Limited(more(all), n)
    ensures Limited(ScanTagsTalk(tags, infos, more), n + 2 * |tags|)
    decreases |tags|
  {
    hide Limited, ReadAfiTalk, ReadBlocksTalk, ContentIn, SecurityIn, IdOf;
    if tags != [] {
      var first, rest := AfterTagAfi(tags, infos, more), n + 2 * |tags[1..]|;
      forall afi: Result<Byte> ensures Limited(first(afi), rest + 1) {
        var second := AfterTagBlocks(tags, infos, afi, more);
        forall read: Result<map<int, string>> ensures Limited(second(read), rest) {
          ScanTagsLimited(tags[1..], infos + [TagInfo(tags[0], ContentIn(read), SecurityIn(afi))], more, n);
        }
        ReadBlocksLimited(IdOf(tags[0]), second, rest);
      }
      ReadAfiLimited(IdOf(tags[0]), first, rest + 1);
    }
  }

  lemma {:induction false} ReturnLimited<R>(result: R, failures: nat, n: nat)
    ensures Limited(Return(result, failures), n)
  {}

  lemma {:induction false} ScanEndLimited(tags: seq<string>)
    requires |tags| <= 255
    ensures Limited(ScanTagsTalk(tags, [], ScanEnds(0)), 510)
  {
    hide Limited, ScanTagsTalk;
    forall all ensures Limited(ScanEnds(0)(all), 0) {
      ReturnLimited(Scanned(Ok(all)), 0, 0);
    }
    ScanTagsLimited(tags, [], ScanEnds(0), 0);
    LimitedMore(ScanTagsTalk(tags, [], ScanEnds(0)), 2 * |tags|, 510);
  }

  lemma ReopeningLimited()
    ensures Limited(InventoryTalk(AfterReopening()), 511)
  {
    hide Limited, ScanTagsTalk, ScanEnds, InventoryTalk;
    var next := AfterReopening();
    forall tags: Result<seq<string>> | tags.Ok? ==> |tags.value| <= 255 ensures Limited(next(tags), 510) {
      if tags.Ok? {
        ScanEndLimited(tags.value);
      } else {
        ReturnLimited<Answer>(Scanned(Err), 0, 510);
      }
    }
    InventoryLimited(next, 510);
  }

  lemma ScanLimited(failures: nat)
    ensures Limited(ScanTalk(failures), 513)
  {
    hide Limited, ScanTagsTalk, ScanEnds, InventoryTalk, AfterReopening;
    var next := AfterInventory(failures);
    ReopeningLimited();
    forall tags: Result<seq<string>> | tags.Ok? ==> |tags.value| <= 255 ensures Limited(next(tags), 512) {
      if tags.Ok? {
        ScanEndLimited(tags.value);
        LimitedMore(next(tags), 510, 512);
      } else {
        ReturnLimited<Answer>(Scanned(Err), failures + 1, 512);
        if failures + 1 >= 3 {
          ReturnLimited<Answer>(Scanned(Err), failures + 1, 511);
          SayLimited(next(tags), 511);
        }
      }
    }
    InventoryLimited(next, 512);
  }

  lemma {:induction false} ProgramLimited<R>(ops: seq<ProgramOp>, res: ProgramResult, more: ProgramResult -> Talk<R>,
                                            n: nat)
    requires forall end :: Limited(more(end), n)
    ensures Limited(ProgramTalk(ops, res, more), n + 211 * |ops|)
    decreases |ops|
  {
    hide Limited, WriteBlocksTalk, WriteAfiTalk, DataFor, AfiFor, WithErrors, IdOf;
    if ops != [] {
      var rest := n + 211 * |ops[1..]|;
      forall errors ensures Limited(ProgramTalk(ops[1..], WithErrors(res, errors), more), rest) {
        ProgramLimited(ops[1..], WithErrors(res, errors), more, n);
      }
      if |ops[0].content| > 16 {
        var long := WithErrors(res, [TooLong(Hex.Upper(ops[0].sid))]);
        LimitedMore(ProgramTalk(ops[1..], long, more), rest, rest + 211);
      } else {
        var first, second := AfterBlocks(ops, res, more), AfterAfi(ops, res, more);
        forall secured ensures Limited(second(secured), rest) {
          var errors := if secured then [] else [AfiNotWritten(Hex.Upper(ops[0].sid))];
          assert second(secured) == ProgramTalk(ops[1..], WithErrors(res, errors), more);
        }
        WriteAfiLimited(IdOf(ops[0].sid), AfiFor(ops[0]), 100, second, rest);
        var unwritten := WithErrors(res, [BlocksNotWritten(Hex.Upper(ops[0].sid))]);
        LimitedMore(ProgramTalk(ops[1..], unwritten, more), rest, rest + 200);
        forall written ensures Limited(first(written), rest + 200) {}
        WriteBlocksLimited(IdOf(ops[0].sid), DataFor(ops[0]), first, rest + 200);
      }
    }
  }

  lemma {:induction false} SecureLimited<R>(ops: seq<SecureOp>, more: bool -> Talk<R>, n: nat)
    requires forall ok :: Limited(more(ok), n)
    ensures Limited(SecureTalk(ops, more), n + 200 * |ops|)
    decreases |ops|
  {
    hide Limited, WriteAfiTalk, AfiOf, IdOf;
    LimitedMore(more(false), n, n + 200 * |ops|);
    if ops != [] && AfiOf(ops[0]).Some? {
      var rest := n + 200 * |ops[1..]|;
      SecureLimited(ops[1..], more, n);
      LimitedMore(more(false), n, rest);
      WriteAfiLimited(IdOf(ops[0].sid), AfiOf(ops[0]).value, 100, AfterSecured(ops[1..], more), rest);
    }
  }

  /** The most requests that an operation makes: a scan reopens the port once and reads 255
      tags twice, a tag is programmed with one block write, ten read-backs and a hundred
      rounds of two for its AFI byte. */
  function MostRequests(op: Operation): nat {
    match op
    case Scanning => 513
    case Programming(ops) => 211 * |ops|
    case Securing(ops) => 200 * |ops|
  }

  /** Whatever the line answers, an operation makes no more requests than that, and never
      locks the reader again while it holds it; the recovery of the port does not either. */
  lemma OperationLimited(op: Operation, failures: nat)
    ensures Limited(CallOf(op).talk(failures), MostRequests(op))
    ensures NeverRelocks(CallOf(op).talk(failures))
  {
    hide Limited, NeverRelocks, ScanTalk, ProgramTalk, SecureTalk;
    match op {
      case Scanning => ScanLimited(failures);
      case Programming(ops) =>
        forall res ensures Limited(ProgramEnds(failures)(res), 0) { ReturnLimited(Programmed(res), failures, 0); }
        ProgramLimited(ops, NO_ERRORS, ProgramEnds(failures), 0);
      case Securing(ops) =>
        forall ok ensures Limited(SecureEnds(failures)(ok), 0) { ReturnLimited(Secured(ok), failures, 0); }
        SecureLimited(ops, SecureEnds(failures), 0);
    }
    LimitedNeverRelocks(CallOf(op).talk(failures), MostRequests(op));
  }

  function AllMostRequests(ops: seq<Operation>): (bounds: seq<nat>)
    ensures |bounds| == |ops|
  {
    seq(|ops|, i requires 0 <= i < |ops| => MostRequests(ops[i]))
  }

  /** Any mix of operations comes to an end however their steps interleave: a schedule in
      which each can step when it is its turn has no more steps than their requests allow,
      and when none can step any more, all have returned. */
  lemma {:induction false} OperationsReturn(env: Environment, ops: seq<Operation>, start: Shared<Line>,
                                            schedule: seq<nat>)
    requires forall i :: 0 <= i < |schedule| ==> schedule[i] < |ops|
    requires Enabled(FarEnd(env), CallsOf(ops), Initial(CallsOf(ops), start), schedule)
    ensures |schedule| <= Budget(AllMostRequests(ops))
    ensures var end := Run(FarEnd(env), CallsOf(ops), Initial(CallsOf(ops), start), schedule);
            (forall u :: 0 <= u < |ops| ==> Step(FarEnd(env), CallsOf(ops), end, u).None?) ==>
              forall t :: 0 <= t < |ops| ==> end.threads[t].Finished?
  {
    hide Run, Step, Enabled, Limited, NeverRelocks, TalkOf, MostRequests;
    forall i, found | 0 <= i < |ops| ensures Limited(CallsOf(ops)[i].talk(found), AllMostRequests(ops)[i]) {
      OperationLimited(ops[i], found);
    }
    EveryScheduleEnds(FarEnd(env), CallsOf(ops), start, schedule, AllMostRequests(ops));
  }
}
