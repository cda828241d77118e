/**
 * The inventory reply payload (reader.py:52-134). The data of a reply is a
 * tag count followed by `(length, bytes)` entries; `inventory_answer_mode`
 * walks the entries with a running offset. The generator is modelled by the
 * list of everything it yields.
 */
module Inventory {
  import opened Wrappers
  import opened Bytes
  import opened Responses

  /** Status-`0x01` replies are read for at most this many entries (reader.py:98). */
  const MaxStatus01Entries: nat := 10

  /**
   * `tags` lies in `tagsData` from offset `p` on, entry after entry: each
   * entry is a length byte followed by exactly that many tag bytes.
   */
  predicate LaidOutAt(tagsData: seq<byte>, p: nat, tags: seq<seq<byte>>)
    decreases |tags|
  {
    if tags == [] then p <= |tagsData|
    else
      && p < |tagsData|
      && tagsData[p] as int == |tags[0]|
      && p + 1 + |tags[0]| <= |tagsData|
      && tagsData[p + 1..p + 1 + |tags[0]|] == tags[0]
      && LaidOutAt(tagsData, p + 1 + |tags[0]|, tags[1..])
  }

  /** The offset just past the entries of `tags` laid out from `p`. */
  function EntriesEnd(p: nat, tags: seq<seq<byte>>): nat
    decreases |tags|
  {
    if tags == [] then p else EntriesEnd(p + 1 + |tags[0]|, tags[1..])
  }

  /** The entry at `q` cannot be taken: the offset is at the end, or the declared length overruns. */
  predicate EntryOverruns(tagsData: seq<byte>, q: nat)
  {
    q >= |tagsData| || q + 1 + tagsData[q] as int > |tagsData|
  }

  /** Every tag has at least one byte. */
  predicate NonEmptyTags(tags: seq<seq<byte>>)
  {
    forall i | 0 <= i < |tags| :: |tags[i]| > 0
  }

  /**
   * The status-`0x00` walk (reader.py:70-84): up to `remaining` entries
   * from offset `p`, stopping silently at the first that overruns.
   */
  function StructuredTags(tagsData: seq<byte>, remaining: nat, p: nat): (tags: seq<seq<byte>>)
    decreases remaining
    ensures |tags| <= remaining
  {
    if remaining == 0 || p >= |tagsData| then []
    else
      var tagEnd := p + 1 + tagsData[p] as int;
      if tagEnd <= |tagsData| then [tagsData[p + 1..tagEnd]] + StructuredTags(tagsData, remaining - 1, tagEnd)
      else []
  }

  /**
   * The status-`0x01` walk (reader.py:97-119): like the status-`0x00` walk
   * but an entry must also be non-empty, and at the first entry that
   * cannot be taken the rest of the bytes, length byte included, are
   * yielded as one tag when there are at least two of them.
   */
  function TagsWithFallback(tagsData: seq<byte>, remaining: nat, p: nat): (tags: seq<seq<byte>>)
    decreases remaining
    ensures |tags| <= remaining
  {
    if remaining == 0 || p >= |tagsData| then []
    else
      var tagLength := tagsData[p] as int;
      var tagEnd := p + 1 + tagLength;
      if tagEnd <= |tagsData| && tagLength > 0 then
        [tagsData[p + 1..tagEnd]] + TagsWithFallback(tagsData, remaining - 1, tagEnd)
      else if |tagsData| - p >= 2 then [tagsData[p..]]
      else []
  }

  /**
   * The status-`0x00` walk yields its tags exactly as they lie in the
   * data, and it stops short of `remaining` only where the next entry
   * cannot be taken.
   */
  lemma {:induction false} StructuredTagsLaidOut(tagsData: seq<byte>, remaining: nat, p: nat)
    requires p <= |tagsData|
    decreases remaining
    ensures var tags := StructuredTags(tagsData, remaining, p);
      && LaidOutAt(tagsData, p, tags)
      && (|tags| < remaining ==> EntryOverruns(tagsData, EntriesEnd(p, tags)))
  {
    var tags := StructuredTags(tagsData, remaining, p);
    if remaining > 0 && p < |tagsData| {
      var tagEnd := p + 1 + tagsData[p] as int;
      if tagEnd <= |tagsData| {
        StructuredTagsLaidOut(tagsData, remaining - 1, tagEnd);
        assert tags[1..] == StructuredTags(tagsData, remaining - 1, tagEnd);
      }
    }
  }

  /**
   * The structured part of the status-`0x01` walk: up to `remaining`
   * non-empty entries from offset `p`, stopping at the first entry that
   * cannot be taken.
   */
  function NonEmptyEntries(tagsData: seq<byte>, remaining: nat, p: nat): (tags: seq<seq<byte>>)
    decreases remaining
    ensures |tags| <= remaining
  {
    if remaining == 0 || p >= |tagsData| then []
    else
      var tagEnd := p + 1 + tagsData[p] as int;
      if tagEnd <= |tagsData| && tagsData[p] > 0 then [tagsData[p + 1..tagEnd]] + NonEmptyEntries(tagsData, remaining - 1, tagEnd)
      else []
  }

  /** The entry at `q` exists but cannot be taken by the status-`0x01` walk: it is empty or overruns (reader.py:108). */
  predicate EntryFails(tagsData: seq<byte>, q: nat)
  {
    q < |tagsData| && (tagsData[q] == 0 || q + 1 + tagsData[q] as int > |tagsData|)
  }

  /**
   * The status-`0x01` walk yields its structured entries, non-empty and as
   * they lie in the data, and stops short of `remaining` only at the end of
   * the data or at an entry that fails. It then adds one fallback tag,
   * everything from the failing entry on, length byte included, exactly
   * when the entry fails with at least two bytes left.
   */
  lemma {:induction false} TagsWithFallbackShape(tagsData: seq<byte>, remaining: nat, p: nat)
    requires p <= |tagsData|
    decreases remaining
    ensures var tags := TagsWithFallback(tagsData, remaining, p);
      var structured := NonEmptyEntries(tagsData, remaining, p);
      var q := EntriesEnd(p, structured);
      && q <= |tagsData|
      && LaidOutAt(tagsData, p, structured) && NonEmptyTags(structured)
      && (|structured| < remaining ==> q == |tagsData| || EntryFails(tagsData, q))
      && (tags == structured || tags == structured + [tagsData[q..]])
      && (tags == structured + [tagsData[q..]] <==>
            |structured| < remaining && EntryFails(tagsData, q) && |tagsData| - q >= 2)
  {
    var tags := TagsWithFallback(tagsData, remaining, p);
    var structured := NonEmptyEntries(tagsData, remaining, p);
    if remaining > 0 && p < |tagsData| {
      var tagLength := tagsData[p] as int;
      var tagEnd := p + 1 + tagLength;
      if tagEnd <= |tagsData| && tagLength > 0 {
        var tag := tagsData[p + 1..tagEnd];
        var rest := TagsWithFallback(tagsData, remaining - 1, tagEnd);
        var restStructured := NonEmptyEntries(tagsData, remaining - 1, tagEnd);
        TagsWithFallbackShape(tagsData, remaining - 1, tagEnd);
        var q := EntriesEnd(tagEnd, restStructured);
        assert tags == [tag] + rest;
        assert structured == [tag] + restStructured;
        assert structured[1..] == restStructured;
        assert EntriesEnd(p, structured) == q;
        assert [tag] + (restStructured + [tagsData[q..]]) == structured + [tagsData[q..]];
        if tags == structured + [tagsData[q..]] {
          assert tags[1..] == rest;
          assert rest == restStructured + [tagsData[q..]];
        }
      } else {
        assert structured == [];
        if |tagsData| - p >= 2 {
          assert tags == structured + [tagsData[p..]];
        }
      }
    }
  }

  /**
   * Status `0x00` (reader.py:70-84) as the source runs it: a `for` loop
   * over the declared count that advances a running offset.
   */
  method ParseStructuredTags(tagsData: seq<byte>, tagCount: nat) returns (tags: seq<seq<byte>>)
    ensures tags == StructuredTags(tagsData, tagCount, 0)
  {
    tags := [];
    var dataOffset := 0;
    for tagNum := 0 to tagCount
      invariant dataOffset <= |tagsData|
      invariant tags + StructuredTags(tagsData, tagCount - tagNum, dataOffset) == StructuredTags(tagsData, tagCount, 0)
    {
      if dataOffset >= |tagsData| {
        break;
      }
      var tagLength := tagsData[dataOffset] as int;
      var tagStart := dataOffset + 1;
      var tagEnd := tagStart + tagLength;
      if tagEnd <= |tagsData| {
        tags := tags + [tagsData[tagStart..tagEnd]];
        dataOffset := tagEnd;
      } else {
        break;
      }
    }
  }

  /**
   * Status `0x01` (reader.py:97-119) as the source runs it, the loop bound
   * being `min(tag_count, 10)`.
   */
  method ParseTagsWithFallback(tagsData: seq<byte>, tagCount: nat) returns (tags: seq<seq<byte>>)
    ensures tags == TagsWithFallback(tagsData, if tagCount < MaxStatus01Entries then tagCount else MaxStatus01Entries, 0)
  {
    var bound := if tagCount < MaxStatus01Entries then tagCount else MaxStatus01Entries;
    tags := [];
    var dataOffset := 0;
    for tagNum := 0 to bound
      invariant dataOffset <= |tagsData|
      invariant tags + TagsWithFallback(tagsData, bound - tagNum, dataOffset) == TagsWithFallback(tagsData, bound, 0)
    {
      if dataOffset >= |tagsData| {
        break;
      }
      if dataOffset < |tagsData| {
        var tagLength := tagsData[dataOffset] as int;
        var tagStart := dataOffset + 1;
        var tagEnd := tagStart + tagLength;
        if tagEnd <= |tagsData| && tagLength > 0 {
          assert TagsWithFallback(tagsData, bound - tagNum, dataOffset)
              == [tagsData[tagStart..tagEnd]] + TagsWithFallback(tagsData, bound - tagNum - 1, tagEnd);
          assert (tags + [tagsData[tagStart..tagEnd]]) + TagsWithFallback(tagsData, bound - tagNum - 1, tagEnd)
              == tags + ([tagsData[tagStart..tagEnd]] + TagsWithFallback(tagsData, bound - tagNum - 1, tagEnd));
          tags := tags + [tagsData[tagStart..tagEnd]];
          dataOffset := tagEnd;
        } else {
          var remainingData := tagsData[dataOffset..];
          assert TagsWithFallback(tagsData, bound - tagNum, dataOffset) == if |remainingData| >= 2 then [remainingData] else [];
          if |remainingData| >= 2 {
            tags := tags + [remainingData];
          }
          break;
        }
      } else {
        break;
      }
    }
  }

  /**
   * Everything `inventory_answer_mode` yields for a decoded reply
   * (reader.py:60-134): entries for status `0x00` to opcode `0x01`, entries
   * with the fallback for status `0x01`, nothing for any other status.
   */
  function ReplyTags(response: Response): (tags: seq<seq<byte>>)
    ensures tags != [] ==> response.status == 0x00 || response.status == 0x01
    ensures response.status == 0x00 && tags != [] ==> |response.data| >= 1 && |tags| <= response.data[0] as int
    ensures response.status == 0x01 ==> |tags| <= MaxStatus01Entries
  {
    var data := response.data;
    if response.status == 0x00 then
      if response.command == 0x01 && |data| >= 1 then
        var tagCount := data[0] as nat;
        if tagCount == 0 then [] else StructuredTags(data[1..], tagCount, 0)
      else []
    else if response.status == 0x01 then
      if |data| >= 2 then
        var tagCount := data[0] as nat;
        if tagCount > 0 then
          TagsWithFallback(data[1..], if tagCount < MaxStatus01Entries then tagCount else MaxStatus01Entries, 0)
        else if |data| > 1 then [data[1..]]
        else []
      else []
    else []
  }

  /**
   * How `inventory_answer_mode` dispatches on a decoded reply
   * (reader.py:60-134): the status-`0x00` walk for an inventory reply with
   * a non-zero count, the status-`0x01` walk bounded by ten for a non-zero
   * count, all data after the count as one tag for a zero count, and
   * nothing otherwise.
   */
  lemma ReplyTagsDispatch(response: Response)
    ensures var data, tags := response.data, ReplyTags(response);
      && (response.status == 0x00 && response.command == 0x01 && |data| >= 1 && data[0] > 0 ==>
            tags == StructuredTags(data[1..], data[0] as nat, 0))
      && (response.status == 0x00 && (response.command != 0x01 || |data| == 0 || data[0] == 0) ==> tags == [])
      && (response.status == 0x01 && |data| >= 2 && data[0] > 0 ==>
            tags == TagsWithFallback(data[1..], if data[0] as nat < MaxStatus01Entries then data[0] as nat else MaxStatus01Entries, 0))
      && (response.status == 0x01 && |data| >= 2 && data[0] == 0 ==> tags == [data[1..]])
      && (response.status == 0x01 && |data| < 2 ==> tags == [])
      && (response.status != 0x00 && response.status != 0x01 ==> tags == [])
  {
  }

  /**
   * Everything `inventory_answer_mode` yields for what `read_frame`
   * returned: nothing for no frame and nothing for a reply the decoder
   * rejects, whose exception the generator swallows (reader.py:48-53, 136-139).
   */
  function AnswerModeTags(frame: Option<seq<byte>>): (tags: seq<seq<byte>>)
    ensures tags != [] ==> frame.Some? && |frame.value| >= 6 && ParseResponse(frame).Ok?
  {
    if frame.None? || frame.value == [] then []
    else
      match ParseResponse(frame)
      case Err(_) => []
      case Ok(response) => ReplyTags(response)
  }

  /** A status-`0x00` reply whose tag count is zero yields nothing, whatever follows the count. */
  lemma ZeroCountYieldsNothing(response: Response)
    requires response.status == 0x00 && |response.data| >= 1 && response.data[0] == 0
    ensures ReplyTags(response) == []
  {
  }

  /** A captured status-`0x01` inventory reply (`0B 00 01 01 01 04 00 00 00 01 1F`). */
  function TagReply(): seq<byte>
  {
    [0x0B, 0x00, 0x01, 0x01, 0x01, 0x04, 0x00, 0x00, 0x00, 0x01, 0x1F]
  }

  /**
   * Its single entry declares four bytes where only three follow, so the
   * structured walk fails at once and the fallback yields `04 00 00 00`.
   */
  lemma TagReplyYieldsFallback()
    ensures AnswerModeTags(Some(TagReply())) == [[0x04, 0x00, 0x00, 0x00]]
  {
    ShortEntryYieldsFallback(0x01, 0x1F);
  }

  /**
   * The same reply whatever its two trailing bytes: the checksum is never
   * checked, so they do not change what is yielded.
   */
  lemma ShortEntryYieldsFallback(lo: byte, hi: byte)
    ensures AnswerModeTags(Some([0x0B, 0x00, 0x01, 0x01, 0x01, 0x04, 0x00, 0x00, 0x00, lo, hi])) == [[0x04, 0x00, 0x00, 0x00]]
  {
    var b: seq<byte> := [0x0B, 0x00, 0x01, 0x01, 0x01, 0x04, 0x00, 0x00, 0x00, lo, hi];
    var r := ParseResponse(Some(b));
    var data: seq<byte> := [0x01, 0x04, 0x00, 0x00, 0x00];
    assert b[4..9] == data;
    assert r.value.data == data;
    var tagsData: seq<byte> := [0x04, 0x00, 0x00, 0x00];
    assert data[1..] == tagsData;
    assert tagsData[0..] == tagsData;
  }
}
