/**
 * Inbound framing (transport.py): `Transport.read_frame` pulls one byte at
 * a time from the link into a bounded buffer and, after every byte, scans
 * the buffer left to right for a window that looks like a response frame.
 * The link is an abstract byte source: `read_bytes(1)` yields the next
 * element of `input`, where `None` (or the end of `input`) is a read that
 * came back empty.
 */
module Framing {
  import opened Wrappers
  import opened Bytes

  /** Buffer cap and the plausible frame-size envelope of the scan (transport.py:19,37). */
  const MaxBufferSize: nat := 200
  const MinPlausibleLength: nat := 5
  const MaxPlausibleLength: nat := 50

  /** The response opcodes the validator admits (transport.py:84). */
  predicate KnownResponseOpcode(op: byte)
  {
    op == 0x01 || op == 0x36 || op == 0x02 || op == 0x03
  }

  /**
   * `_validate_frame` (transport.py:65-91), one test per branch. Its last
   * test, `status > 0xFF`, can never reject a byte, so a frame is accepted
   * exactly when the four structural conditions hold.
   */
  function ValidateFrame(frame: seq<byte>): (ok: bool)
    ensures ok <==>
      |frame| >= 5 && frame[0] as int == |frame| && frame[1] == 0x00 && KnownResponseOpcode(frame[2])
  {
    if |frame| < 5 then false
    else if |frame| != frame[0] as int then false
    else if frame[1] != 0x00 then false
    else if !KnownResponseOpcode(frame[2]) then false
    else if frame[3] as int > 0xFF then false
    else true
  }

  /** Whether the scan accepts the window starting at offset `s` (transport.py:34-45). */
  predicate IsFrameAt(buffer: seq<byte>, s: nat)
  {
    && s < |buffer|
    && MinPlausibleLength <= buffer[s] as int <= MaxPlausibleLength
    && s + buffer[s] as int <= |buffer|
    && ValidateFrame(buffer[s..s + buffer[s] as int])
  }

  /** The window the scan returns for an accepted offset. */
  function FrameAt(buffer: seq<byte>, s: nat): seq<byte>
    requires IsFrameAt(buffer, s)
  {
    buffer[s..s + buffer[s] as int]
  }

  /** The scan over start offsets `from`, `from + 1`, ...: the first accepted one, if any. */
  function FirstFrameFrom(buffer: seq<byte>, from: nat): (r: Option<nat>)
    decreases |buffer| - from
    ensures r.Some? ==> from <= r.value && IsFrameAt(buffer, r.value)
  {
    if from >= |buffer| then None
    else if IsFrameAt(buffer, from) then Some(from)
    else FirstFrameFrom(buffer, from + 1)
  }

  /** The scan skips only offsets that are not accepted: what it reports is the leftmost. */
  lemma {:induction false} FirstFrameSkips(buffer: seq<byte>, from: nat, s: nat)
    requires from <= s
    requires var r := FirstFrameFrom(buffer, from); r.None? || s < r.value
    decreases |buffer| - from
    ensures !IsFrameAt(buffer, s)
  {
    if from < |buffer| && !IsFrameAt(buffer, from) && from < s {
      FirstFrameSkips(buffer, from + 1, s);
    }
  }

  /** An accepted offset with none before it is the one the scan reports. */
  lemma {:induction false} FirstFrameIsLeftmost(buffer: seq<byte>, from: nat, s: nat)
    requires from <= s && IsFrameAt(buffer, s)
    requires forall t | from <= t < s :: !IsFrameAt(buffer, t)
    decreases s - from
    ensures FirstFrameFrom(buffer, from) == Some(s)
  {
    if from < s {
      FirstFrameIsLeftmost(buffer, from + 1, s);
    }
  }

  /** A buffer in which no offset is accepted yields no frame. */
  lemma {:induction false} NoFrameFound(buffer: seq<byte>, from: nat)
    requires forall t | from <= t < |buffer| :: !IsFrameAt(buffer, t)
    decreases |buffer| - from
    ensures FirstFrameFrom(buffer, from).None?
  {
    if from < |buffer| {
      NoFrameFound(buffer, from + 1);
    }
  }

  /** One `read_bytes(1)`: the next element of the source and the cursor after it. */
  function NextRead(input: seq<Option<byte>>, pos: nat): (Option<byte>, nat)
  {
    if pos >= |input| then (None, pos) else (input[pos], pos + 1)
  }

  /**
   * The rest of one `read_frame` call, given the bytes already buffered:
   * the frame it returns (if any) and the source cursor afterwards.
   */
  function ScanFrom(input: seq<Option<byte>>, pos: nat, buffer: seq<byte>): (Option<seq<byte>>, nat)
    requires |buffer| <= MaxBufferSize
    decreases MaxBufferSize - |buffer|
  {
    if |buffer| >= MaxBufferSize then (None, pos)
    else
      var (b, next) := NextRead(input, pos);
      if b.None? then (None, next)
      else
        var buf := buffer + [b.value];
        match FirstFrameFrom(buf, 0)
        case Some(s) => (Some(FrameAt(buf, s)), next)
        case None => ScanFrom(input, next, buf)
  }

  /** A whole `read_frame` call: it always starts from an empty buffer. */
  function ReadFrameResult(input: seq<Option<byte>>, pos: nat): (Option<seq<byte>>, nat)
  {
    ScanFrom(input, pos, [])
  }

  /** Reads that all delivered a byte. */
  predicate AllBytes(outcomes: seq<Option<byte>>)
  {
    forall i | 0 <= i < |outcomes| :: outcomes[i].Some?
  }

  /** The bytes such outcomes delivered. */
  function Values(outcomes: seq<Option<byte>>): (w: seq<byte>)
    requires AllBytes(outcomes)
    ensures |w| == |outcomes| && forall i | 0 <= i < |outcomes| :: outcomes[i] == Some(w[i])
  {
    seq(|outcomes|, i requires 0 <= i < |outcomes| => outcomes[i].value)
  }

  /** The outcomes that deliver the bytes `w` with no timeout in between. */
  function AsReads(w: seq<byte>): (outcomes: seq<Option<byte>>)
    ensures |outcomes| == |w| && forall i | 0 <= i < |w| :: outcomes[i] == Some(w[i])
  {
    seq(|w|, i requires 0 <= i < |w| => Some(w[i]))
  }

  /** An accepted window of a buffer stays accepted in every prefix that still holds it. */
  lemma FrameInPrefix(buffer: seq<byte>, s: nat, k: nat)
    requires IsFrameAt(buffer, s) && s + buffer[s] as int <= k <= |buffer|
    ensures IsFrameAt(buffer[..k], s) && FrameAt(buffer[..k], s) == FrameAt(buffer, s)
  {
    assert buffer[..k][s..s + buffer[s] as int] == buffer[s..s + buffer[s] as int];
  }

  /** A window accepted in a buffer whose prefix holds no accepted window reaches the last byte. */
  lemma FrameReachesLastByte(buffer: seq<byte>, s: nat)
    requires |buffer| > 0
    requires FirstFrameFrom(buffer[..|buffer| - 1], 0).None?
    requires IsFrameAt(buffer, s)
    ensures s + buffer[s] as int == |buffer|
  {
    if s + buffer[s] as int < |buffer| {
      FrameInPrefix(buffer, s, |buffer| - 1);
      FirstFrameSkips(buffer[..|buffer| - 1], 0, s);
    }
  }

  /**
   * Because the scan runs after every byte, the first frame to appear ends
   * at the byte just appended.
   */
  lemma FirstFrameEndsAtLastByte(buffer: seq<byte>)
    requires |buffer| > 0
    requires FirstFrameFrom(buffer[..|buffer| - 1], 0).None?
    requires FirstFrameFrom(buffer, 0).Some?
    ensures var s := FirstFrameFrom(buffer, 0).value; s + buffer[s] as int == |buffer|
  {
    FrameReachesLastByte(buffer, FirstFrameFrom(buffer, 0).value);
  }

  /**
   * Every result of `read_frame` passes `_validate_frame` and has a
   * plausible length, and one call performs at most 200 reads.
   */
  lemma {:induction false} ScanFromSound(input: seq<Option<byte>>, pos: nat, buffer: seq<byte>)
    requires |buffer| <= MaxBufferSize
    decreases MaxBufferSize - |buffer|
    ensures var (f, end) := ScanFrom(input, pos, buffer);
      && pos <= end <= pos + (MaxBufferSize - |buffer|)
      && (f.Some? ==> ValidateFrame(f.value) && MinPlausibleLength <= |f.value| <= MaxPlausibleLength)
  {
    if |buffer| < MaxBufferSize {
      var (b, next) := NextRead(input, pos);
      if b.Some? {
        var buf := buffer + [b.value];
        if FirstFrameFrom(buf, 0).None? {
          ScanFromSound(input, next, buf);
        }
      }
    }
  }

  /** Prepending a delivered byte to delivered bytes. */
  lemma ValuesCons(input: seq<Option<byte>>, pos: nat, end: nat)
    requires pos < end <= |input| && input[pos].Some? && AllBytes(input[pos + 1..end])
    ensures AllBytes(input[pos..end])
    ensures Values(input[pos..end]) == [input[pos].value] + Values(input[pos + 1..end])
  {
    assert input[pos..end] == [input[pos]] + input[pos + 1..end];
  }

  /**
   * What a call that returns the frame `f` with the cursor at `end` has
   * read: bytes with no empty read among them, after which the scan
   * accepts a window and reports `f`, and before the last of which no
   * prefix of the buffer held an accepted window.
   */
  predicate FoundAfterReads(input: seq<Option<byte>>, pos: nat, buffer: seq<byte>, f: seq<byte>, end: nat)
  {
    && pos < end <= |input| && AllBytes(input[pos..end])
    && var all := buffer + Values(input[pos..end]);
    && FirstFrameFrom(all, 0).Some?
    && f == FrameAt(all, FirstFrameFrom(all, 0).value)
    && forall k | |buffer| <= k < |all| :: FirstFrameFrom(all[..k], 0).None?
  }

  /** The read that completes a frame. */
  lemma FoundAtFirstRead(input: seq<Option<byte>>, pos: nat, buffer: seq<byte>)
    requires |buffer| < MaxBufferSize && pos < |input| && input[pos].Some?
    requires FirstFrameFrom(buffer, 0).None?
    requires FirstFrameFrom(buffer + [input[pos].value], 0).Some?
    ensures var buf := buffer + [input[pos].value];
      FoundAfterReads(input, pos, buffer, FrameAt(buf, FirstFrameFrom(buf, 0).value), pos + 1)
  {
    var buf := buffer + [input[pos].value];
    ValuesCons(input, pos, pos + 1);
    assert Values(input[pos + 1..pos + 1]) == [];
    assert buffer + Values(input[pos..pos + 1]) == buf;
    forall k | |buffer| <= k < |buf| ensures FirstFrameFrom(buf[..k], 0).None? {
      assert k == |buffer| && buf[..k] == buffer;
    }
  }

  /** A read that completes no frame, followed by reads that do. */
  lemma FoundAfterLaterReads(input: seq<Option<byte>>, pos: nat, buffer: seq<byte>, f: seq<byte>, end: nat)
    requires pos < |input| && input[pos].Some?
    requires FirstFrameFrom(buffer, 0).None?
    requires FoundAfterReads(input, pos + 1, buffer + [input[pos].value], f, end)
    ensures FoundAfterReads(input, pos, buffer, f, end)
  {
    var buf := buffer + [input[pos].value];
    ValuesCons(input, pos, end);
    var all := buf + Values(input[pos + 1..end]);
    assert buffer + Values(input[pos..end]) == all;
    forall k | |buffer| <= k < |all| ensures FirstFrameFrom(all[..k], 0).None? {
      if k == |buffer| {
        assert all[..k] == buffer;
      }
    }
  }

  /** Every frame `read_frame` returns was found as `FoundAfterReads` describes. */
  lemma {:induction false} ScanFrameSound(input: seq<Option<byte>>, pos: nat, buffer: seq<byte>)
    requires |buffer| <= MaxBufferSize
    requires FirstFrameFrom(buffer, 0).None?
    decreases MaxBufferSize - |buffer|
    ensures var (f, end) := ScanFrom(input, pos, buffer);
      f.Some? ==> FoundAfterReads(input, pos, buffer, f.value, end)
  {
    if |buffer| < MaxBufferSize && pos < |input| && input[pos].Some? {
      var buf := buffer + [input[pos].value];
      if FirstFrameFrom(buf, 0).Some? {
        FoundAtFirstRead(input, pos, buffer);
      } else {
        ScanFrameSound(input, pos + 1, buf);
        var (f, end) := ScanFrom(input, pos + 1, buf);
        if f.Some? {
          FoundAfterLaterReads(input, pos, buffer, f.value, end);
        }
      }
    }
  }

  /**
   * A frame returned by `read_frame` is the tail of the bytes it read: it
   * ends exactly at the last byte read, so nothing after it is consumed,
   * and it starts at the leftmost accepted offset, everything before it
   * being dropped as noise.
   */
  lemma ReadFrameIsTail(input: seq<Option<byte>>, pos: nat)
    ensures var (f, end) := ReadFrameResult(input, pos);
      f.Some? ==>
        && pos < end <= |input| && AllBytes(input[pos..end])
        && var all := Values(input[pos..end]);
        && |f.value| <= |all|
        && FirstFrameFrom(all, 0) == Some(|all| - |f.value|)
        && f.value == all[|all| - |f.value|..]
  {
    ScanFrameSound(input, pos, []);
    var (f, end) := ReadFrameResult(input, pos);
    if f.Some? {
      var all := Values(input[pos..end]);
      assert [] + all == all;
      assert FirstFrameFrom(all[..|all| - 1], 0).None?;
      FirstFrameEndsAtLastByte(all);
    }
  }

  /**
   * A `read_frame` that ends without a frame either filled the 200-byte
   * buffer or met an empty read.
   */
  lemma {:induction false} ScanNoFrame(input: seq<Option<byte>>, pos: nat, buffer: seq<byte>)
    requires |buffer| <= MaxBufferSize && pos <= |input|
    decreases MaxBufferSize - |buffer|
    ensures var (f, end) := ScanFrom(input, pos, buffer);
      f.None? ==>
        || (|buffer| + (end - pos) == MaxBufferSize && end <= |input| && AllBytes(input[pos..end]))
        || end == |input|
        || (pos < end <= |input| && input[end - 1].None?)
  {
    if |buffer| < MaxBufferSize {
      var (b, next) := NextRead(input, pos);
      if b.Some? {
        var buf := buffer + [b.value];
        if FirstFrameFrom(buf, 0).None? {
          ScanNoFrame(input, next, buf);
          var (f, end) := ScanFrom(input, next, buf);
          if f.None? && |buf| + (end - next) == MaxBufferSize && end <= |input| && AllBytes(input[next..end]) {
            assert input[pos..end] == [b] + input[next..end];
          }
        }
      }
    } else {
      assert input[pos..pos] == [];
    }
  }

  /**
   * Noise tolerance: when the bytes `w` arrive without a gap, no prefix of
   * the buffer holds an accepted window before the last of them, and the
   * whole buffer does, the call returns that window and consumes exactly `w`.
   */
  lemma {:induction false} ScanFindsFirstFrame(input: seq<Option<byte>>, pos: nat, buffer: seq<byte>, w: seq<byte>)
    requires 1 <= |w| && |buffer| + |w| <= MaxBufferSize
    requires pos + |w| <= |input| && input[pos..pos + |w|] == AsReads(w)
    requires forall k | |buffer| <= k < |buffer| + |w| :: FirstFrameFrom((buffer + w)[..k], 0).None?
    requires FirstFrameFrom(buffer + w, 0).Some?
    decreases |w|
    ensures ScanFrom(input, pos, buffer)
         == (Some(FrameAt(buffer + w, FirstFrameFrom(buffer + w, 0).value)), pos + |w|)
  {
    assert input[pos] == input[pos..pos + |w|][0] == Some(w[0]);
    var buf := buffer + [w[0]];
    if |w| == 1 {
      assert buf == buffer + w;
    } else {
      assert buf == (buffer + w)[..|buffer| + 1];
      assert buf + w[1..] == buffer + w;
      assert input[pos + 1..pos + 1 + |w[1..]|] == input[pos..pos + |w|][1..];
      ScanFindsFirstFrame(input, pos + 1, buf, w[1..]);
    }
  }

  /** A frame with no accepted window in any proper prefix is read back whole, with nothing skipped. */
  lemma CleanFrameIsRead(input: seq<Option<byte>>, pos: nat, f: seq<byte>)
    requires ValidateFrame(f) && |f| <= MaxPlausibleLength
    requires pos + |f| <= |input| && input[pos..pos + |f|] == AsReads(f)
    requires forall k | 0 <= k < |f| :: FirstFrameFrom(f[..k], 0).None?
    ensures ReadFrameResult(input, pos) == (Some(f), pos + |f|)
  {
    assert [] + f == f;
    assert IsFrameAt(f, 0) by { assert f[0..|f|] == f; }
    ScanFindsFirstFrame(input, pos, [], f);
  }

  /** A buffer where no offset holds a plausible length that fits has no accepted window. */
  lemma NoPlausibleWindow(buffer: seq<byte>)
    requires forall s | 0 <= s < |buffer| ::
      !(MinPlausibleLength <= buffer[s] as int <= MaxPlausibleLength && s + buffer[s] as int <= |buffer|)
    ensures FirstFrameFrom(buffer, 0).None?
  {
    forall t | 0 <= t < |buffer| ensures !IsFrameAt(buffer, t) {
      assert !(MinPlausibleLength <= buffer[t] as int <= MaxPlausibleLength && t + buffer[t] as int <= |buffer|);
    }
    NoFrameFound(buffer, 0);
  }

  /** A captured inventory reply behind one noise byte, with a trailing byte after it. */
  function NoisyStream(): seq<byte>
  {
    [0x67, 0x0B, 0x00, 0x01, 0x01, 0x01, 0x04, 0x00, 0x00, 0x00, 0x02, 0x84, 0x95]
  }

  /** Before its twelfth byte the captured stream holds no plausible window. */
  lemma NoisyPrefixesHoldNoFrame(k: nat)
    requires k < 12
    ensures FirstFrameFrom(NoisyStream()[..k], 0).None?
  {
    var w := NoisyStream()[..k];
    forall s | 0 <= s < |w|
      ensures !(MinPlausibleLength <= w[s] as int <= MaxPlausibleLength && s + w[s] as int <= |w|)
    {
      assert w[s] == NoisyStream()[s];
    }
    NoPlausibleWindow(w);
  }

  /** With its twelfth byte the scan accepts the window at offset 1. */
  lemma NoisyFrameAtOne()
    ensures FirstFrameFrom(NoisyStream()[..12], 0) == Some(1)
  {
    var w: seq<byte> := [0x67, 0x0B, 0x00, 0x01, 0x01, 0x01, 0x04, 0x00, 0x00, 0x00, 0x02, 0x84];
    assert NoisyStream()[..12] == w;
    var f: seq<byte> := [0x0B, 0x00, 0x01, 0x01, 0x01, 0x04, 0x00, 0x00, 0x00, 0x02, 0x84];
    assert w[1..12] == f;
    assert ValidateFrame(f);
    assert IsFrameAt(w, 1);
    assert !IsFrameAt(w, 0);
    FirstFrameIsLeftmost(w, 0, 1);
  }

  /** The first twelve reads of the captured stream deliver its first twelve bytes. */
  lemma NoisyReads()
    ensures AsReads(NoisyStream())[0..12] == AsReads(NoisyStream()[..12])
    ensures NoisyStream()[..12][1..12] == [0x0B, 0x00, 0x01, 0x01, 0x01, 0x04, 0x00, 0x00, 0x00, 0x02, 0x84]
  {
    var w: seq<byte> := [0x67, 0x0B, 0x00, 0x01, 0x01, 0x01, 0x04, 0x00, 0x00, 0x00, 0x02, 0x84];
    assert NoisyStream()[..12] == w;
    var f: seq<byte> := [0x0B, 0x00, 0x01, 0x01, 0x01, 0x04, 0x00, 0x00, 0x00, 0x02, 0x84];
    assert w[1..12] == f;
  }

  /** `read_frame` on the captured stream drops the noise byte and leaves the trailing byte unread. */
  lemma NoisyInventoryReply()
    ensures ReadFrameResult(AsReads(NoisyStream()), 0)
         == (Some([0x0B, 0x00, 0x01, 0x01, 0x01, 0x04, 0x00, 0x00, 0x00, 0x02, 0x84]), 12)
  {
    var w := NoisyStream()[..12];
    NoisyReads();
    assert [] + w == w;
    forall k | 0 <= k < 12 ensures FirstFrameFrom(([] + w)[..k], 0).None? {
      assert ([] + w)[..k] == NoisyStream()[..k];
      NoisyPrefixesHoldNoFrame(k);
    }
    NoisyFrameAtOne();
    ScanFindsFirstFrame(AsReads(NoisyStream()), 0, [], w);
    assert FrameAt(w, 1) == w[1..12];
  }

  /** The link: what `read_bytes(1)` will deliver, the read cursor, and what was written. */
  class Transport {
    var input: seq<Option<byte>>
    var pos: nat
    var written: seq<seq<byte>>

    constructor (input: seq<Option<byte>>)
      ensures this.input == input && pos == 0 && written == []
    {
      this.input := input;
      pos := 0;
      written := [];
    }

    /** `read_bytes(1)`: one byte, or an empty read on timeout. */
    method ReadBytes() returns (b: Option<byte>)
      modifies this`pos
      ensures (b, pos) == NextRead(input, old(pos))
    {
      if pos >= |input| {
        b := None;
      } else {
        b := input[pos];
        pos := pos + 1;
      }
    }

    /** `write_bytes(buffer)`: the bytes are handed to the link. */
    method WriteBytes(buffer: seq<byte>)
      modifies this`written
      ensures written == old(written) + [buffer]
    {
      written := written + [buffer];
    }

    /** `read_frame` (transport.py:15-63). */
    method ReadFrame() returns (frame: Option<seq<byte>>)
      modifies this`pos
      ensures (frame, pos) == ReadFrameResult(input, old(pos))
    {
      var buffer: seq<byte> := [];
      while |buffer| < MaxBufferSize
        invariant |buffer| <= MaxBufferSize
        invariant FirstFrameFrom(buffer, 0).None?
        invariant ScanFrom(input, pos, buffer) == ReadFrameResult(input, old(pos))
        decreases MaxBufferSize - |buffer|
      {
        ghost var before, previous := pos, buffer;
        var byteData := ReadBytes();
        if byteData.None? {
          frame := None;
          return;
        }
        buffer := buffer + [byteData.value];
        assert ScanFrom(input, before, previous) ==
          match FirstFrameFrom(buffer, 0)
          case Some(s) => (Some(FrameAt(buffer, s)), pos)
          case None => ScanFrom(input, pos, buffer);
        for startPos := 0 to |buffer|
          invariant forall s | 0 <= s < startPos :: !IsFrameAt(buffer, s)
        {
          var potentialLength := buffer[startPos] as int;
          if MinPlausibleLength <= potentialLength <= MaxPlausibleLength {
            var frameEnd := startPos + potentialLength;
            if frameEnd <= |buffer| {
              var frameData := buffer[startPos..frameEnd];
              if ValidateFrame(frameData) {
                assert IsFrameAt(buffer, startPos);
                FirstFrameIsLeftmost(buffer, 0, startPos);
                frame := Some(frameData);
                return;
              }
            }
          }
        }
        NoFrameFound(buffer, 0);
      }
      frame := None;
    }
  }
}
