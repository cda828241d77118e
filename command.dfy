/**
 * Outbound side of the reader protocol (command.py): the bit-serial CRC-16
 * that closes every frame, and the `Command` value with its serialisation
 * `[frame_length, address, opcode] ++ data ++ crc_lo ++ crc_hi`.
 */
module Commands {
  import opened Wrappers
  import opened Bytes

  /** Reflected polynomial and register preset of the checksum (command.py:3,7). */
  const Poly: bv32 := 0x8408
  const Preset: bv32 := 0xFFFF

  /** The bit steps per data byte (the `range(8)` of command.py:5). */
  const BitsPerByte: nat := 8

  /** Python integers are unbounded; the register is held in 32 bits and shown to stay in 16. */
  predicate InSixteenBits(v: bv32) { v < 0x1_0000 }

  /** One shift of the register, xoring in the polynomial when the bit shifted out is set (command.py:5-7). */
  function BitStep(v: bv32): (r: bv32)
    ensures InSixteenBits(v) ==> InSixteenBits(r)
  {
    if v & 1 == 1 then (v >> 1) ^ Poly else v >> 1
  }

  /** `n` successive bit steps, the inner `for _ in range(8)` loop after `n` rounds. */
  function BitSteps(v: bv32, n: nat): (r: bv32)
    ensures InSixteenBits(v) ==> InSixteenBits(r)
  {
    if n == 0 then v else BitStep(BitSteps(v, n - 1))
  }

  /** The register update for one data byte: xor the byte in, then shift eight times. */
  function ByteStep(v: bv32, d: byte): (r: bv32)
    ensures InSixteenBits(v) ==> InSixteenBits(r)
  {
    BitSteps(v ^ d as bv32, BitsPerByte)
  }

  /** The register after feeding `data` to a register holding `v`, byte by byte from the left. */
  function CrcFrom(v: bv32, data: seq<byte>): (r: bv32)
    ensures InSixteenBits(v) ==> InSixteenBits(r)
  {
    if |data| == 0 then v else ByteStep(CrcFrom(v, data[..|data| - 1]), data[|data| - 1])
  }

  /** The final register of `calculate_checksum(data)`. */
  function Register(data: seq<byte>): (r: bv32)
    ensures InSixteenBits(r)
  {
    CrcFrom(Preset, data)
  }

  /** `value & 0xFF` of a 16-bit register. */
  function LowByte(v: bv32): byte
    requires InSixteenBits(v)
  {
    (v & 0xFF) as int as byte
  }

  /** `(value >> 8) & 0xFF` of a 16-bit register. */
  function HighByte(v: bv32): byte
    requires InSixteenBits(v)
  {
    (v >> 8) as int as byte
  }

  /** The two bytes are the register's little-endian encoding. */
  lemma LowHighBytes(v: bv32)
    requires InSixteenBits(v)
    ensures LowByte(v) as int + 0x100 * HighByte(v) as int == v as int
  {
  }

  /** The two checksum bytes, low byte first (command.py:8). */
  function Checksum(data: seq<byte>): (crc: seq<byte>)
    ensures |crc| == 2
    ensures crc[0] as int + 0x100 * crc[1] as int == Register(data) as int
  {
    var v := Register(data);
    LowHighBytes(v);
    [LowByte(v), HighByte(v)]
  }

  /** The checksum is a left fold: checksumming `a + b` continues from the register reached after `a`. */
  lemma {:induction false} CrcFromAppend(v: bv32, a: seq<byte>, b: seq<byte>)
    ensures CrcFrom(v, a + b) == CrcFrom(CrcFrom(v, a), b)
  {
    if |b| == 0 {
      assert a + b == a;
    } else {
      var b' := b[..|b| - 1];
      assert (a + b)[..|a + b| - 1] == a + b';
      CrcFromAppend(v, a, b');
    }
  }

  /** One more byte moves the register by exactly one byte step. */
  lemma CrcFromSnoc(v: bv32, a: seq<byte>, d: byte)
    ensures CrcFrom(v, a + [d]) == ByteStep(CrcFrom(v, a), d)
  {
    assert (a + [d])[..|a + [d]| - 1] == a;
  }

  /** `calculate_checksum` (command.py:1-8): the nested bit loop over the data. */
  method CalculateChecksum(data: seq<byte>) returns (crc: seq<byte>)
    ensures crc == Checksum(data)
  {
    var value: bv32 := Preset;
    for i := 0 to |data|
      invariant value == CrcFrom(Preset, data[..i])
    {
      ghost var before := value;
      value := value ^ data[i] as bv32;
      ghost var mixed := value;
      for k := 0 to BitsPerByte
        invariant value == BitSteps(mixed, k)
      {
        value := BitStep(value);
      }
      assert value == ByteStep(before, data[i]);
      CrcFromSnoc(Preset, data[..i], data[i]);
      assert data[..i + 1] == data[..i] + [data[i]];
    }
    assert data[..|data|] == data;
    crc := [LowByte(value), HighByte(value)];
  }

  /** The `data` argument of `Command(...)`: omitted/None, a single integer, or a byte string. */
  datatype CommandData = NoData | SingleByte(n: int) | ByteString(bytes: seq<byte>)

  /** A constructed command: its fields as `Command.__init__` leaves them. */
  datatype Command = Command(opcode: byte, readerAddress: byte, data: seq<byte>, frameLength: byte)
  {
    /** `base_data`: the header bytes followed by the data. */
    function BaseData(): seq<byte> { [frameLength, readerAddress, opcode] + data }

    /** The invariant every constructed command has. */
    predicate WellFormed() { frameLength as int == 4 + |data| }
  }

  /** `self.data` after normalisation: None gives no bytes, an integer gives that one byte. */
  function DataBytes(data: CommandData): seq<byte>
  {
    match data
    case NoData => []
    case SingleByte(n) => if IsByte(n) then [n as byte] else []
    case ByteString(bs) => bs
  }

  /**
   * `Command(command, reader_address=0xFF, data=None)` (command.py:12-22).
   * `None` is the ValueError that `bytearray` raises when the opcode, the
   * address, an integer data value or the computed frame length is not a byte.
   */
  function NewCommand(opcode: int, readerAddress: int := 0xFF, data: CommandData := NoData): (c: Option<Command>)
    ensures c.Some? <==>
      IsByte(opcode) && IsByte(readerAddress) && (data.SingleByte? ==> IsByte(data.n))
      && (data.ByteString? ==> 4 + |data.bytes| < 0x100)
    ensures c.Some? ==>
      && c.value.WellFormed()
      && c.value.opcode as int == opcode && c.value.readerAddress as int == readerAddress
      && c.value.data == DataBytes(data)
  {
    if !IsByte(opcode) || !IsByte(readerAddress) then None
    else
      match data
      case NoData => Some(Command(opcode as byte, readerAddress as byte, [], 4))
      case SingleByte(n) =>
        if IsByte(n) then Some(Command(opcode as byte, readerAddress as byte, [n as byte], 5)) else None
      case ByteString(bs) =>
        if 4 + |bs| < 0x100 then Some(Command(opcode as byte, readerAddress as byte, bs, (4 + |bs|) as byte))
        else None
  }

  /** The bytes `serialize()` returns. */
  function Serialized(c: Command): seq<byte>
  {
    c.BaseData() + Checksum(c.BaseData())
  }

  /**
   * Wire layout of a serialised command: the declared length byte is one
   * less than the bytes sent (command.py:20 counts the header and the data
   * but not the two checksum bytes), and the last two bytes are the CRC of
   * everything before them.
   */
  lemma SerializedLayout(c: Command)
    requires c.WellFormed()
    ensures var f := Serialized(c);
      && |f| == c.frameLength as int + 1 == 5 + |c.data|
      && f[0] == c.frameLength && f[1] == c.readerAddress && f[2] == c.opcode
      && f[3..|f| - 2] == c.data
      && f[|f| - 2] as int + 0x100 * f[|f| - 1] as int == Register(f[..|f| - 2]) as int
  {
    var f := Serialized(c);
    assert f[..|f| - 2] == c.BaseData();
    assert f[3..|f| - 2] == c.BaseData()[3..];
  }

  /** `Command.serialize` (command.py:24-28): extends a copy of `base_data` with its checksum. */
  method Serialize(c: Command) returns (frame: seq<byte>)
    ensures frame == Serialized(c)
    ensures |frame| == |c.BaseData()| + 2 && frame[..|c.BaseData()|] == c.BaseData()
  {
    var serializeData := c.BaseData();
    var checksum := CalculateChecksum(serializeData);
    serializeData := serializeData + checksum;
    frame := serializeData;
  }

  /** Omitted arguments: address 0xFF and no data give a 4-byte header and a 5-byte frame. */
  lemma DefaultCommand(opcode: byte)
    ensures NewCommand(opcode as int) == Some(Command(opcode, 0xFF, [], 4))
    ensures |Serialized(Command(opcode, 0xFF, [], 4))| == 5
  {
  }

  /** A byte step read off the register after each of its eight bit steps. */
  lemma ByteStepTrace(v: bv32, d: byte, t: seq<bv32>)
    requires |t| == 9 && t[0] == v ^ d as bv32
    requires forall k | 0 <= k < 8 :: BitStep(t[k]) == t[k + 1]
    ensures ByteStep(v, d) == t[8]
  {
    var x := v ^ d as bv32;
    assert BitSteps(x, 1) == t[1];
    assert BitSteps(x, 2) == t[2];
    assert BitSteps(x, 3) == t[3];
    assert BitSteps(x, 4) == t[4];
    assert BitSteps(x, 5) == t[5];
    assert BitSteps(x, 6) == t[6];
    assert BitSteps(x, 7) == t[7];
    assert BitSteps(x, 8) == t[8];
  }

  /** The register after three header bytes, one byte step at a time. */
  lemma RegisterOfThree(a: byte, b: byte, c: byte)
    ensures Register([a, b, c]) == ByteStep(ByteStep(ByteStep(Preset, a), b), c)
  {
    var s: seq<byte> := [a, b, c];
    assert s[..2] == [a, b];
    assert s[..2][..1] == [a];
    assert s[..2][..1][..0] == [];
    assert CrcFrom(Preset, [a]) == ByteStep(Preset, a);
    assert CrcFrom(Preset, [a, b]) == ByteStep(CrcFrom(Preset, [a]), b);
    assert CrcFrom(Preset, s) == ByteStep(CrcFrom(Preset, [a, b]), c);
  }

  /** Register values after the broadcast header prefix `04 FF`. */
  lemma BroadcastPrefixSteps()
    ensures ByteStep(Preset, 0x04) == 0x49A3
    ensures ByteStep(0x49A3, 0xFF) == 0x98A0
  {
    ByteStepTrace(Preset, 0x04, [0xFFFB, 0xFBF5, 0xF9F2, 0x7CF9, 0xBA74, 0x5D3A, 0x2E9D, 0x9346, 0x49A3]);
    ByteStepTrace(0x49A3, 0xFF, [0x495C, 0x24AE, 0x1257, 0x8D23, 0xC299, 0xE544, 0x72A2, 0x3951, 0x98A0]);
  }

  /** The last header step for the two opcodes whose captured frames are known. */
  lemma OpcodeStep(opcode: byte, v: bv32)
    requires (opcode, v) in {(0x36, 0xF127), (0x01, 0xB41B)}
    ensures ByteStep(0x98A0, opcode) == v
  {
    if opcode == 0x36 {
      ByteStepTrace(0x98A0, 0x36, [0x9896, 0x4C4B, 0xA22D, 0xD51E, 0x6A8F, 0xB14F, 0xDCAF, 0xEA5F, 0xF127]);
    } else {
      ByteStepTrace(0x98A0, 0x01, [0x98A1, 0xC858, 0x642C, 0x3216, 0x190B, 0x888D, 0xC04E, 0x6027, 0xB41B]);
    }
  }

  /** A header-only command frame from the register its three header bytes reach. */
  lemma HeaderOnlyFrame(opcode: byte, v: bv32)
    requires InSixteenBits(v) && Register([0x04, 0xFF, opcode]) == v
    ensures Serialized(Command(opcode, 0xFF, [], 4)) == [0x04, 0xFF, opcode, LowByte(v), HighByte(v)]
  {
    assert Command(opcode, 0xFF, [], 4).BaseData() == [0x04, 0xFF, opcode];
  }

  /** The work-mode query captured from the device: `04 FF 36 27 F1`. */
  lemma WorkModeQueryBytes()
    ensures NewCommand(0x36) == Some(Command(0x36, 0xFF, [], 4))
    ensures Serialized(Command(0x36, 0xFF, [], 4)) == [0x04, 0xFF, 0x36, 0x27, 0xF1]
  {
    BroadcastPrefixSteps();
    OpcodeStep(0x36, 0xF127);
    RegisterOfThree(0x04, 0xFF, 0x36);
    HeaderOnlyFrame(0x36, 0xF127);
  }

  /** The inventory command: `04 FF 01 1B B4`. */
  lemma InventoryCommandBytes()
    ensures NewCommand(0x01) == Some(Command(0x01, 0xFF, [], 4))
    ensures Serialized(Command(0x01, 0xFF, [], 4)) == [0x04, 0xFF, 0x01, 0x1B, 0xB4]
  {
    BroadcastPrefixSteps();
    OpcodeStep(0x01, 0xB41B);
    RegisterOfThree(0x04, 0xFF, 0x01);
    HeaderOnlyFrame(0x01, 0xB41B);
  }
}
