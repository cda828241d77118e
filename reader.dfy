/**
 * The reader API (reader.py): each request builds a `Command`, writes it
 * to the transport, reads one frame back and decodes it. Exceptions the
 * source raises become `Err` results.
 */
module Readers {
  import opened Wrappers
  import opened Bytes
  import opened Commands
  import opened Framing
  import opened Responses
  import opened Inventory

  /** Opcodes of the requests (reader.py:23, 33, 43, 162, 170, 176, 181, 186). */
  const InventoryOpcode: byte := 0x01
  const ReadMemoryOpcode: byte := 0x02
  const LockOpcode: byte := 0x06
  const SetPowerOpcode: byte := 0x2F
  const SetWorkModeOpcode: byte := 0x35
  const WorkModeOpcode: byte := 0x36

  /** The highest power `set_reader_power` admits (reader.py:175). */
  const MaxReaderPower: int := 30

  /** Why a request fails. */
  datatype ReaderError =
    | InvalidArgument              // `bytearray` or `Command` raised ValueError: a value that is not a byte
    | PowerOutOfRange              // the assertion of `set_reader_power`
    | NoWorkModeReply              // `work_mode` got no frame
    | Undecodable(error: ResponseError)  // `Response(...)` raised

  /** `Response(frame)` with its ValueError as a reader error. */
  function Decoded(frame: Option<seq<byte>>): (r: Result<Response, ReaderError>)
    ensures r.Ok? <==> ParseResponse(frame).Ok?
    ensures r.Ok? ==> r.value == ParseResponse(frame).value
  {
    match ParseResponse(frame)
    case Ok(response) => Ok(response)
    case Err(e) => Err(Undecodable(e))
  }

  /** What `work_mode` returns for the frame it read (reader.py:25-29). */
  function WorkModeOutcome(frame: Option<seq<byte>>): (r: Result<Response, ReaderError>)
    ensures r == Err(NoWorkModeReply) <==> frame.None? || frame.value == []
  {
    if frame.None? || frame.value == [] then Err(NoWorkModeReply) else Decoded(frame)
  }

  /** What `set_power` returns for the frame it read: `None` when there is none (reader.py:35-38). */
  function SetPowerOutcome(frame: Option<seq<byte>>): (r: Result<Option<Response>, ReaderError>)
    ensures r == Ok(None) <==> frame.None? || frame.value == []
  {
    if frame.None? || frame.value == [] then Ok(None)
    else
      match Decoded(frame)
      case Ok(response) => Ok(Some(response))
      case Err(e) => Err(e)
  }

  /**
   * The work-mode query fails exactly when `read_frame` finds nothing or
   * returns a five-byte frame, which the decoder rejects as too short.
   */
  lemma WorkModeQueryFails(input: seq<Option<byte>>, pos: nat)
    ensures var frame := ReadFrameResult(input, pos).0;
      && (WorkModeOutcome(frame).Err? <==> frame.None? || |frame.value| == 5)
      && (WorkModeOutcome(frame) == Err(NoWorkModeReply) <==> frame.None?)
  {
    ReadFrameThenDecode(input, pos);
    ScanFromSound(input, pos, []);
  }

  /** A single-byte payload, or `None` where `bytearray([value])` raises. */
  function OneByte(value: int): (p: Option<seq<byte>>)
    ensures p.Some? <==> IsByte(value)
    ensures p.Some? ==> |p.value| == 1 && p.value[0] as int == value
  {
    if IsByte(value) then Some([value as byte]) else None
  }

  /** A request carrying `payload`, if every part of it is a byte and the frame length fits. */
  function RequestWith(opcode: byte, payload: Option<seq<byte>>): (c: Option<Command>)
    ensures c.Some? <==> payload.Some? && 4 + |payload.value| < 0x100
    ensures c.Some? ==>
      && c.value.WellFormed() && c.value.opcode == opcode
      && c.value.readerAddress == 0xFF && c.value.data == payload.value
  {
    match payload
    case None => None
    case Some(p) => NewCommand(opcode as int, 0xFF, ByteString(p))
  }

  /** The `inventory_answer_mode` request: data `[start, len]` only when both TID arguments are given (reader.py:42-45). */
  function InventoryRequest(startAddressTid: Option<int>, lenTid: Option<int>): (c: Option<Command>)
    ensures startAddressTid.None? || lenTid.None? ==> c == Some(Command(InventoryOpcode, 0xFF, [], 4))
    ensures startAddressTid.Some? && lenTid.Some? ==>
      && (c.Some? <==> IsByte(startAddressTid.value) && IsByte(lenTid.value))
      && (c.Some? ==> c.value.data == [startAddressTid.value as byte, lenTid.value as byte] && c.value.frameLength == 6)
  {
    if startAddressTid.Some? && lenTid.Some? then
      if IsByte(startAddressTid.value) && IsByte(lenTid.value) then
        RequestWith(InventoryOpcode, Some([startAddressTid.value as byte, lenTid.value as byte]))
      else None
    else NewCommand(InventoryOpcode as int)
  }

  /**
   * The `read_memory` payload (reader.py:157-161): the EPC length in words,
   * the EPC, the bank, start address and length, then the access password.
   * `None` where `bytearray` raises.
   */
  function ReadMemoryPayload(epc: seq<byte>, memoryBank: int, startAddress: int, length: int,
                             accessPassword: seq<byte>): (p: Option<seq<byte>>)
    ensures p.Some? <==> IsByte(|epc| / 2) && IsByte(memoryBank) && IsByte(startAddress) && IsByte(length)
    ensures p.Some? ==>
      var n := |epc|;
      && |p.value| == n + 4 + |accessPassword|
      && p.value[0] as int == n / 2
      && p.value[1..n + 1] == epc
      && p.value[n + 1] as int == memoryBank && p.value[n + 2] as int == startAddress && p.value[n + 3] as int == length
      && p.value[n + 4..] == accessPassword
  {
    if IsByte(|epc| / 2) && IsByte(memoryBank) && IsByte(startAddress) && IsByte(length) then
      var p := [(|epc| / 2) as byte] + epc + [memoryBank as byte, startAddress as byte, length as byte] + accessPassword;
      assert p[1..|epc| + 1] == epc;
      assert p[|epc| + 4..] == accessPassword;
      Some(p)
    else None
  }

  /** The `lock` payload (reader.py:169): EPC length in words, the EPC, `select`, `set_protect`, the password. */
  function LockPayload(epc: seq<byte>, select: int, setProtect: int, accessPassword: seq<byte>): (p: Option<seq<byte>>)
    ensures p.Some? <==> IsByte(|epc| / 2) && IsByte(select) && IsByte(setProtect)
    ensures p.Some? ==>
      var n := |epc|;
      && |p.value| == n + 3 + |accessPassword|
      && p.value[0] as int == n / 2
      && p.value[1..n + 1] == epc
      && p.value[n + 1] as int == select && p.value[n + 2] as int == setProtect
      && p.value[n + 3..] == accessPassword
  {
    if IsByte(|epc| / 2) && IsByte(select) && IsByte(setProtect) then
      var p := [(|epc| / 2) as byte] + epc + [select as byte, setProtect as byte] + accessPassword;
      assert p[1..|epc| + 1] == epc;
      assert p[|epc| + 3..] == accessPassword;
      Some(p)
    else None
  }

  /**
   * The bytes `read_memory` sends: the payload sits between the three
   * header bytes and the CRC, right after the opcode `0x02`.
   */
  lemma ReadMemoryFrame(epc: seq<byte>, memoryBank: int, startAddress: int, length: int, accessPassword: seq<byte>)
    requires RequestWith(ReadMemoryOpcode, ReadMemoryPayload(epc, memoryBank, startAddress, length, accessPassword)).Some?
    ensures var f := Serialized(RequestWith(ReadMemoryOpcode, ReadMemoryPayload(epc, memoryBank, startAddress, length, accessPassword)).value);
      && |f| == 9 + |epc| + |accessPassword|
      && f[2] == ReadMemoryOpcode
      && f[3] as int == |epc| / 2
      && f[4..4 + |epc|] == epc
      && f[4 + |epc|] as int == memoryBank && f[5 + |epc|] as int == startAddress && f[6 + |epc|] as int == length
      && f[7 + |epc|..|f| - 2] == accessPassword
  {
    var p := ReadMemoryPayload(epc, memoryBank, startAddress, length, accessPassword).value;
    var c := RequestWith(ReadMemoryOpcode, Some(p)).value;
    SerializedLayout(c);
    var f := Serialized(c);
    assert f[3..|f| - 2] == p;
    assert f[4..4 + |epc|] == p[1..|epc| + 1];
    assert f[7 + |epc|..|f| - 2] == p[|epc| + 4..];
  }

  /** The bytes `lock` sends, laid out like those of `read_memory` after the opcode `0x06`. */
  lemma LockFrame(epc: seq<byte>, select: int, setProtect: int, accessPassword: seq<byte>)
    requires RequestWith(LockOpcode, LockPayload(epc, select, setProtect, accessPassword)).Some?
    ensures var f := Serialized(RequestWith(LockOpcode, LockPayload(epc, select, setProtect, accessPassword)).value);
      && |f| == 8 + |epc| + |accessPassword|
      && f[2] == LockOpcode
      && f[3] as int == |epc| / 2
      && f[4..4 + |epc|] == epc
      && f[4 + |epc|] as int == select && f[5 + |epc|] as int == setProtect
      && f[6 + |epc|..|f| - 2] == accessPassword
  {
    var p := LockPayload(epc, select, setProtect, accessPassword).value;
    var c := RequestWith(LockOpcode, Some(p)).value;
    SerializedLayout(c);
    var f := Serialized(c);
    assert f[3..|f| - 2] == p;
    assert f[4..4 + |epc|] == p[1..|epc| + 1];
    assert f[6 + |epc|..|f| - 2] == p[|epc| + 3..];
  }

  /** Everything `inventory_active_mode` yields over `polls` reads: the frames that decode, in order (reader.py:141-153). */
  function ActiveModeResponses(input: seq<Option<byte>>, pos: nat, polls: nat): (seq<Response>, nat)
    decreases polls
  {
    if polls == 0 then ([], pos)
    else
      var (frame, next) := ReadFrameResult(input, pos);
      var (rest, end) := ActiveModeResponses(input, next, polls - 1);
      match ParseResponse(frame)
      case Ok(response) => ([response] + rest, end)
      case Err(_) => (rest, end)
  }

  /**
   * Active mode yields at most one response per read, and each is the
   * decoding of a frame the scanner accepted, at least six bytes long.
   */
  lemma {:induction false} ActiveModeResponsesSound(input: seq<Option<byte>>, pos: nat, polls: nat)
    decreases polls
    ensures var (responses, end) := ActiveModeResponses(input, pos, polls);
      && |responses| <= polls
      && pos <= end
      && forall i | 0 <= i < |responses| ::
           && ValidateFrame(responses[i].responseBytes)
           && |responses[i].responseBytes| >= 6
           && ParseResponse(Some(responses[i].responseBytes)) == Ok(responses[i])
  {
    if polls > 0 {
      var (frame, next) := ReadFrameResult(input, pos);
      ScanFromSound(input, pos, []);
      ActiveModeResponsesSound(input, next, polls - 1);
    }
  }

  /**
   * Active mode misses no response: each poll contributes the decoding of
   * the frame it read exactly when that frame is at least six bytes long,
   * and nothing otherwise, so the responses are those of the decodable
   * frames, one each, in order.
   */
  lemma ActiveModeResponsesStep(input: seq<Option<byte>>, pos: nat, polls: nat)
    requires polls > 0
    ensures var (frame, next) := ReadFrameResult(input, pos);
      var (rest, end) := ActiveModeResponses(input, next, polls - 1);
      && (frame.Some? && |frame.value| >= 6 ==>
            ParseResponse(frame).Ok? && ActiveModeResponses(input, pos, polls) == ([ParseResponse(frame).value] + rest, end))
      && (frame.None? || |frame.value| < 6 ==> ActiveModeResponses(input, pos, polls) == (rest, end))
  {
    ReadFrameThenDecode(input, pos);
    ScanFromSound(input, pos, []);
  }

  /** The reader: a transport it sends requests over and reads replies from. */
  class Reader {
    const transport: Transport

    constructor (transport: Transport)
      ensures this.transport == transport
    {
      this.transport := transport;
    }

    /** `__send_request` then `__get_response`: write the serialised command, read one frame. */
    method Exchange(c: Command) returns (frame: Option<seq<byte>>)
      modifies transport`written, transport`pos
      ensures transport.written == old(transport.written) + [Serialized(c)]
      ensures (frame, transport.pos) == ReadFrameResult(transport.input, old(transport.pos))
    {
      var bytes := Serialize(c);
      transport.WriteBytes(bytes);
      frame := transport.ReadFrame();
    }

    /** `work_mode` (reader.py:21-29). */
    method WorkMode() returns (r: Result<Response, ReaderError>)
      modifies transport`written, transport`pos
      ensures transport.written == old(transport.written) + [Serialized(Command(WorkModeOpcode, 0xFF, [], 4))]
      ensures var (frame, end) := ReadFrameResult(transport.input, old(transport.pos));
        transport.pos == end && r == WorkModeOutcome(frame)
    {
      var command := NewCommand(WorkModeOpcode as int).value;
      var frame := Exchange(command);
      if frame.None? || frame.value == [] {
        r := Err(NoWorkModeReply);
        return;
      }
      r := Decoded(frame);
    }

    /** `set_power` (reader.py:31-38). */
    method SetPower(power: int) returns (r: Result<Option<Response>, ReaderError>)
      modifies transport`written, transport`pos
      ensures !IsByte(power) ==> r == Err(InvalidArgument) && unchanged(transport)
      ensures IsByte(power) ==>
        && transport.written == old(transport.written) + [Serialized(Command(SetPowerOpcode, 0xFF, [power as byte], 5))]
        && var (frame, end) := ReadFrameResult(transport.input, old(transport.pos));
           transport.pos == end && r == SetPowerOutcome(frame)
    {
      var command := RequestWith(SetPowerOpcode, OneByte(power));
      if command.None? {
        r := Err(InvalidArgument);
        return;
      }
      var frame := Exchange(command.value);
      if frame.None? || frame.value == [] {
        r := Ok(None);
        return;
      }
      var response := Decoded(frame);
      if response.Err? {
        r := Err(response.error);
      } else {
        r := Ok(Some(response.value));
      }
    }

    /** A request whose reply is decoded unconditionally: `return Response(self.__get_response())`. */
    method Request(command: Option<Command>) returns (r: Result<Response, ReaderError>)
      modifies transport`written, transport`pos
      ensures command.None? ==> r == Err(InvalidArgument) && unchanged(transport)
      ensures command.Some? ==>
        && transport.written == old(transport.written) + [Serialized(command.value)]
        && var (frame, end) := ReadFrameResult(transport.input, old(transport.pos));
           transport.pos == end && r == Decoded(frame)
    {
      if command.None? {
        r := Err(InvalidArgument);
        return;
      }
      var frame := Exchange(command.value);
      r := Decoded(frame);
    }

    /** `read_memory` (reader.py:155-164). */
    method ReadMemory(epc: seq<byte>, memoryBank: int, startAddress: int, length: int,
                      accessPassword: seq<byte> := [0, 0, 0, 0]) returns (r: Result<Response, ReaderError>)
      modifies transport`written, transport`pos
      ensures var command := RequestWith(ReadMemoryOpcode, ReadMemoryPayload(epc, memoryBank, startAddress, length, accessPassword));
        && (command.None? ==> r == Err(InvalidArgument) && unchanged(transport))
        && (command.Some? ==>
          && transport.written == old(transport.written) + [Serialized(command.value)]
          && var (frame, end) := ReadFrameResult(transport.input, old(transport.pos));
             transport.pos == end && r == Decoded(frame))
    {
      r := Request(RequestWith(ReadMemoryOpcode, ReadMemoryPayload(epc, memoryBank, startAddress, length, accessPassword)));
    }

    /** `lock` (reader.py:168-172). */
    method Lock(epc: seq<byte>, select: int, setProtect: int, accessPassword: seq<byte>) returns (r: Result<Response, ReaderError>)
      modifies transport`written, transport`pos
      ensures var command := RequestWith(LockOpcode, LockPayload(epc, select, setProtect, accessPassword));
        && (command.None? ==> r == Err(InvalidArgument) && unchanged(transport))
        && (command.Some? ==>
          && transport.written == old(transport.written) + [Serialized(command.value)]
          && var (frame, end) := ReadFrameResult(transport.input, old(transport.pos));
             transport.pos == end && r == Decoded(frame))
    {
      r := Request(RequestWith(LockOpcode, LockPayload(epc, select, setProtect, accessPassword)));
    }

    /** `set_reader_power` (reader.py:174-178): the power must lie in 0..30 before anything is sent. */
    method SetReaderPower(power: int) returns (r: Result<Response, ReaderError>)
      modifies transport`written, transport`pos
      ensures !(0 <= power <= MaxReaderPower) ==> r == Err(PowerOutOfRange) && unchanged(transport)
      ensures 0 <= power <= MaxReaderPower ==>
        && transport.written == old(transport.written) + [Serialized(Command(SetPowerOpcode, 0xFF, [power as byte], 5))]
        && var (frame, end) := ReadFrameResult(transport.input, old(transport.pos));
           transport.pos == end && r == Decoded(frame)
    {
      if !(0 <= power <= MaxReaderPower) {
        r := Err(PowerOutOfRange);
        return;
      }
      r := Request(RequestWith(SetPowerOpcode, OneByte(power)));
    }

    /** `get_work_mode` (reader.py:180-183). */
    method GetWorkMode() returns (r: Result<Response, ReaderError>)
      modifies transport`written, transport`pos
      ensures transport.written == old(transport.written) + [Serialized(Command(WorkModeOpcode, 0xFF, [], 4))]
      ensures var (frame, end) := ReadFrameResult(transport.input, old(transport.pos));
        transport.pos == end && r == Decoded(frame)
    {
      r := Request(NewCommand(WorkModeOpcode as int));
    }

    /** `set_work_mode` (reader.py:185-188). */
    method SetWorkMode(workMode: int) returns (r: Result<Response, ReaderError>)
      modifies transport`written, transport`pos
      ensures !IsByte(workMode) ==> r == Err(InvalidArgument) && unchanged(transport)
      ensures IsByte(workMode) ==>
        && transport.written == old(transport.written) + [Serialized(Command(SetWorkModeOpcode, 0xFF, [workMode as byte], 5))]
        && var (frame, end) := ReadFrameResult(transport.input, old(transport.pos));
           transport.pos == end && r == Decoded(frame)
    {
      r := Request(RequestWith(SetWorkModeOpcode, OneByte(workMode)));
    }

    /** `inventory_answer_mode` (reader.py:40-139): every tag it yields. */
    method InventoryAnswerMode(startAddressTid: Option<int> := None, lenTid: Option<int> := None)
      returns (r: Result<seq<seq<byte>>, ReaderError>)
      modifies transport`written, transport`pos
      ensures var command := InventoryRequest(startAddressTid, lenTid);
        && (command.None? ==> r == Err(InvalidArgument) && unchanged(transport))
        && (command.Some? ==>
          && transport.written == old(transport.written) + [Serialized(command.value)]
          && var (frame, end) := ReadFrameResult(transport.input, old(transport.pos));
             transport.pos == end && r == Ok(AnswerModeTags(frame)))
    {
      var command := InventoryRequest(startAddressTid, lenTid);
      if command.None? {
        r := Err(InvalidArgument);
        return;
      }
      var frame := Exchange(command.value);
      if frame.None? || frame.value == [] {
        r := Ok([]);
        return;
      }
      var decoded := ParseResponse(frame);
      if decoded.Err? {
        r := Ok([]);
        return;
      }
      var response := decoded.value;
      var tags: seq<seq<byte>> := [];
      if response.status == 0x00 {
        if response.command == 0x01 && |response.data| >= 1 {
          var tagCount := response.data[0] as nat;
          if tagCount != 0 {
            tags := ParseStructuredTags(response.data[1..], tagCount);
          }
        }
      } else if response.status == 0x01 {
        if |response.data| >= 2 {
          var tagCount := response.data[0] as nat;
          if tagCount > 0 {
            tags := ParseTagsWithFallback(response.data[1..], tagCount);
          } else if |response.data| > 1 {
            tags := [response.data[1..]];
          }
        }
      }
      r := Ok(tags);
    }

    /** `inventory_active_mode` (reader.py:141-153) over `polls` reads: each frame that decodes is yielded. */
    method InventoryActiveMode(polls: nat) returns (responses: seq<Response>)
      modifies transport`pos
      ensures (responses, transport.pos) == ActiveModeResponses(transport.input, old(transport.pos), polls)
    {
      responses := [];
      var poll := 0;
      while poll < polls
        invariant poll <= polls
        invariant responses + ActiveModeResponses(transport.input, transport.pos, polls - poll).0
               == ActiveModeResponses(transport.input, old(transport.pos), polls).0
        invariant ActiveModeResponses(transport.input, transport.pos, polls - poll).1
               == ActiveModeResponses(transport.input, old(transport.pos), polls).1
      {
        ghost var before := transport.pos;
        var rawResponse := transport.ReadFrame();
        assert ActiveModeResponses(transport.input, before, polls - poll)
            == var rest := ActiveModeResponses(transport.input, transport.pos, polls - poll - 1);
               if ParseResponse(rawResponse).Ok? then ([ParseResponse(rawResponse).value] + rest.0, rest.1) else rest;
        poll := poll + 1;
        if rawResponse.None? {
          continue;
        }
        var response := ParseResponse(rawResponse);
        if response.Ok? {
          assert (responses + [response.value]) + ActiveModeResponses(transport.input, transport.pos, polls - poll).0
              == responses + ([response.value] + ActiveModeResponses(transport.input, transport.pos, polls - poll).0);
          responses := responses + [response.value];
        }
      }
      assert responses + [] == responses;
    }
  }

  /**
   * The captured noisy inventory stream end to end: `read_frame` skips the
   * stray leading byte, the decoder accepts the frame, and the status-`0x01`
   * fallback yields the one tag `04 00 00 00`.
   */
  lemma NoisyStreamYieldsTag()
    ensures AnswerModeTags(ReadFrameResult(AsReads(NoisyStream()), 0).0) == [[0x04, 0x00, 0x00, 0x00]]
  {
    NoisyInventoryReply();
    ShortEntryYieldsFallback(0x02, 0x84);
  }
}
