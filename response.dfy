/**
 * Response decoding (response.py): `Response.__init__` slices a received
 * frame into its fields, and `hex_readable` renders bytes as text.
 */
module Responses {
  import opened Wrappers
  import opened Bytes
  import opened Slices
  import Framing
  import Commands

  /**
   * The `InventoryWorkMode` enum that is bound when a response is decoded:
   * the second definition (response.py:78-82) replaces the first, so
   * ANSWER_MODE is 0 and ACTIVE_MODE is 1.
   */
  datatype InventoryWorkMode = AnswerMode | ActiveMode | TriggerModeLow | TriggerModeHigh
  {
    function Value(): nat
    {
      match this
      case AnswerMode => 0
      case ActiveMode => 1
      case TriggerModeLow => 2
      case TriggerModeHigh => 3
    }
  }

  /** `InventoryWorkMode(v)`: the member with value `v`, if there is one. */
  function WorkModeOf(v: int): (m: Option<InventoryWorkMode>)
    ensures m.Some? <==> 0 <= v < 4
    ensures m.Some? ==> m.value.Value() == v
  {
    if v == 0 then Some(AnswerMode)
    else if v == 1 then Some(ActiveMode)
    else if v == 2 then Some(TriggerModeLow)
    else if v == 3 then Some(TriggerModeHigh)
    else None
  }

  /** Every member is found again from its value. */
  lemma WorkModeValueRoundTrip(m: InventoryWorkMode)
    ensures WorkModeOf(m.Value()) == Some(m)
  {
  }

  /** The two `ValueError`s the constructor raises. */
  datatype ResponseError =
    | TooShort(got: nat)
    | LengthMismatch(expected: nat, got: nat)

  /**
   * A decoded response. `inventoryWorkMode` is `None` where the source
   * never sets the attribute.
   */
  datatype Response = Response(
    responseBytes: seq<byte>,
    length: byte,
    readerAddress: byte,
    command: byte,
    status: byte,
    data: seq<byte>,
    checksum: seq<byte>,
    inventoryWorkMode: Option<InventoryWorkMode>)

  /** The work mode a reply to opcode `0x36` reports (response.py:56-58). */
  function WorkModeFrom(command: byte, data: seq<byte>): (m: Option<InventoryWorkMode>)
    ensures m.Some? <==> command == 0x36 && |data| >= 1
    ensures m == Some(AnswerMode) <==> command == 0x36 && |data| > 4 && data[4] == 1
    ensures m.Some? ==> m.value == AnswerMode || m.value == ActiveMode
  {
    if command == 0x36 && |data| >= 1 then
      Some(if |data| > 4 && data[4] == 1 then AnswerMode else ActiveMode)
    else None
  }

  /**
   * `Response(response_bytes)` (response.py:35-58). Nothing checks the
   * received checksum: it is only sliced out.
   */
  function ParseResponse(responseBytes: Option<seq<byte>>): (r: Result<Response, ResponseError>)
    ensures r.Err? <==>
      responseBytes.None? || |responseBytes.value| < 6 || |responseBytes.value| < responseBytes.value[0] as int
    ensures r.Err? && r.error.TooShort? <==> responseBytes.None? || |responseBytes.value| < 6
    ensures r.Ok? ==>
      var b, resp := responseBytes.value, r.value;
      && resp.responseBytes == b && resp.length == b[0]
      && resp.readerAddress == b[1] && resp.command == b[2] && resp.status == b[3]
      && resp.inventoryWorkMode == WorkModeFrom(resp.command, resp.data)
    ensures r.Ok? ==>
      var b, len := responseBytes.value, r.value.length as int;
      && (len > 6 ==> |r.value.data| == len - 6 && r.value.data == b[4..len - 2])
      && (len <= 6 ==> r.value.data == [])
      && (len >= 2 ==> |r.value.checksum| == 2 && r.value.checksum == b[len - 2..len])
      && (len < 2 ==> r.value.checksum == [])
  {
    match responseBytes
    case None => Err(TooShort(0))
    case Some(b) =>
      if |b| < 6 then Err(TooShort(|b|))
      else
        var length := b[0];
        if |b| < length as int then Err(LengthMismatch(length as int, |b|))
        else
          var data := if length > 6 then Slice(b, 4, length as int - 2) else [];
          var checksum := Slice(b, length as int - 2, length as int);
          Ok(Response(b, length, b[1], b[2], b[3], data, checksum, WorkModeFrom(b[2], data)))
  }

  /**
   * The scanner and the decoder agree except on the shortest frames: a
   * frame `read_frame` accepts decodes unless it is exactly five bytes
   * long, and then its data is everything between the status byte and the
   * last two bytes, which are its checksum.
   */
  lemma ValidatedFrameDecodes(f: seq<byte>)
    requires Framing.ValidateFrame(f)
    ensures ParseResponse(Some(f)).Ok? <==> |f| >= 6
    ensures ParseResponse(Some(f)).Ok? ==>
      && ParseResponse(Some(f)).value.data == f[4..|f| - 2]
      && ParseResponse(Some(f)).value.checksum == f[|f| - 2..]
  {
    if |f| == 6 {
      assert f[4..|f| - 2] == [];
    }
  }

  /** What one `read_frame` call returns, handed to the decoder: it fails only for "no frame" or a five-byte frame. */
  lemma ReadFrameThenDecode(input: seq<Option<byte>>, pos: nat)
    ensures var f := Framing.ReadFrameResult(input, pos).0;
      ParseResponse(f).Err? <==> f.None? || |f.value| == 5
  {
    Framing.ScanFromSound(input, pos, []);
    var f := Framing.ReadFrameResult(input, pos).0;
    if f.Some? {
      ValidatedFrameDecodes(f.value);
    }
  }

  /**
   * The length-byte mismatch between the two directions: a serialised
   * command declares one byte fewer than it sends, so the scanner never
   * accepts one, and the decoder, trusting the length byte, takes the last
   * data byte and the low CRC byte as the checksum.
   */
  lemma EncodedLengthMismatch(c: Commands.Command)
    requires c.WellFormed()
    ensures !Framing.ValidateFrame(Commands.Serialized(c))
    ensures var f := Commands.Serialized(c);
      |c.data| >= 1 ==>
        && ParseResponse(Some(f)).Ok?
        && ParseResponse(Some(f)).value.checksum == [f[|f| - 3], f[|f| - 2]]
  {
    Commands.SerializedLayout(c);
  }

  /** The captured reply to the work-mode query (`11 00 36 ... 05 60`). */
  function WorkModeReply(): seq<byte>
  {
    [0x11, 0x00, 0x36, 0x00, 0x00, 0x01, 0x0A, 0x0F, 0x00, 0x00, 0x01, 0x02, 0x01, 0x00, 0x08, 0x05, 0x60]
  }

  /** Decoding the captured work-mode reply: data byte 4 is zero, so the mode is ACTIVE_MODE. */
  lemma WorkModeReplyDecodes()
    ensures ParseResponse(Some(WorkModeReply())) == Ok(Response(
      WorkModeReply(), 0x11, 0x00, 0x36, 0x00,
      [0x00, 0x01, 0x0A, 0x0F, 0x00, 0x00, 0x01, 0x02, 0x01, 0x00, 0x08],
      [0x05, 0x60], Some(ActiveMode)))
  {
    var b := WorkModeReply();
    var data: seq<byte> := [0x00, 0x01, 0x0A, 0x0F, 0x00, 0x00, 0x01, 0x02, 0x01, 0x00, 0x08];
    assert b[4..15] == data;
    assert b[15..17] == [0x05, 0x60];
  }

  /** One uppercase hexadecimal digit. */
  function HexDigit(n: nat): (c: char)
    requires n < 16
  {
    if n < 10 then '0' + n as char else 'A' + (n - 10) as char
  }

  /** The value of an uppercase hexadecimal digit, if `c` is one. */
  function HexDigitValue(c: char): (v: Option<nat>)
    ensures v.Some? ==> v.value < 16
  {
    if '0' <= c <= '9' then Some(c as nat - '0' as nat)
    else if 'A' <= c <= 'F' then Some(c as nat - 'A' as nat + 10)
    else None
  }

  /** Reading back a digit gives its value. */
  lemma HexDigitRoundTrip(n: nat)
    requires n < 16
    ensures HexDigitValue(HexDigit(n)) == Some(n)
  {
  }

  /** `f"{b:02X}"`: a byte as two uppercase hexadecimal digits. */
  function HexByte(b: byte): (s: seq<char>)
  {
    [HexDigit(b as nat / 16), HexDigit(b as nat % 16)]
  }

  /** `hex_readable(data)` for a byte string (response.py:10-13): the bytes as digit pairs joined by single spaces. */
  function HexReadable(bs: seq<byte>): (s: seq<char>)
    ensures |s| == if bs == [] then 0 else 3 * |bs| - 1
  {
    if |bs| == 0 then ""
    else if |bs| == 1 then HexByte(bs[0])
    else HexByte(bs[0]) + " " + HexReadable(bs[1..])
  }

  /** The inverse of `HexByte`. */
  function ParseHexByte(hi: char, lo: char): (b: Option<byte>)
  {
    match (HexDigitValue(hi), HexDigitValue(lo))
    case (Some(h), Some(l)) => Some((16 * h + l) as byte)
    case _ => None
  }

  /** Reading text of the `hex_readable` shape back into bytes. */
  function ParseHexReadable(s: seq<char>): (r: Option<seq<byte>>)
    decreases |s|
  {
    if |s| == 0 then Some([])
    else if |s| < 2 then None
    else
      match ParseHexByte(s[0], s[1])
      case None => None
      case Some(b) =>
        if |s| == 2 then Some([b])
        else if s[2] != ' ' || |s| == 3 then None
        else
          match ParseHexReadable(s[3..])
          case None => None
          case Some(rest) => Some([b] + rest)
  }

  /** A byte's two digits read back to the byte. */
  lemma HexByteRoundTrip(b: byte)
    ensures ParseHexByte(HexByte(b)[0], HexByte(b)[1]) == Some(b)
  {
    HexDigitRoundTrip(b as nat / 16);
    HexDigitRoundTrip(b as nat % 16);
  }

  /** `hex_readable` loses nothing: its text reads back to the same bytes. */
  lemma {:induction false} HexReadableRoundTrip(bs: seq<byte>)
    ensures ParseHexReadable(HexReadable(bs)) == Some(bs)
  {
    if |bs| == 1 {
      HexByteRoundTrip(bs[0]);
      assert bs == [bs[0]];
    } else if |bs| > 1 {
      HexByteRoundTrip(bs[0]);
      var s := HexReadable(bs);
      assert s[0] == HexByte(bs[0])[0] && s[1] == HexByte(bs[0])[1] && s[2] == ' ';
      assert s[3..] == HexReadable(bs[1..]);
      HexReadableRoundTrip(bs[1..]);
      assert bs == [bs[0]] + bs[1..];
    }
  }

  /** Every third character of `hex_readable` text is the separating space; the others are digits. */
  lemma {:induction false} HexReadableShape(bs: seq<byte>, i: nat)
    requires i < |HexReadable(bs)|
    ensures HexReadable(bs)[i] == ' ' <==> i % 3 == 2
    ensures i % 3 != 2 ==> HexDigitValue(HexReadable(bs)[i]).Some?
  {
    var s := HexReadable(bs);
    if i >= 3 {
      assert s[i] == HexReadable(bs[1..])[i - 3];
      HexReadableShape(bs[1..], i - 3);
    } else {
      HexByteRoundTrip(bs[0]);
      assert s[..2] == HexByte(bs[0]);
    }
  }
}
