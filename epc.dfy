/**
 * The suggested EPC for a tag (test_epc_generation.py:6-23): a tag shorter
 * than twelve bytes is prefixed with `E2 00` and padded with `00` bytes, a
 * longer one is cut, and the result is regrouped into two-character groups,
 * at most twenty-four characters in all.
 */
module Epc {
  import opened Bytes
  import opened Responses

  /** The digits kept at most (test_epc_generation.py:21). */
  const MaxDigits: nat := 24
  /** The characters of the long-tag cut, twelve groups with their spaces (test_epc_generation.py:17). */
  const LongCut: nat := 35
  /** The text put before a short tag (test_epc_generation.py:14). */
  const PrefixText: string := "E2 00 "
  /** The bytes of that text. */
  const PrefixBytes: seq<byte> := [0xE2, 0x00]

  function Min(a: int, b: int): int { if a < b then a else b }

  /** `s` holds no space. */
  predicate NoSpace(s: string)
  {
    forall i | 0 <= i < |s| :: s[i] != ' '
  }

  /** No part holds a space. */
  predicate SpaceFree(parts: seq<string>)
  {
    forall k | 0 <= k < |parts| :: NoSpace(parts[k])
  }

  /** `s.replace(' ', '')`. */
  function RemoveSpaces(s: string): (r: string)
    ensures |r| <= |s|
    ensures NoSpace(r)
  {
    if s == [] then ""
    else (if s[0] == ' ' then "" else [s[0]]) + RemoveSpaces(s[1..])
  }

  /** `s * n`: empty when `n` is zero or negative. */
  function Repeat(s: string, n: int): (r: string)
    decreases n
    ensures n <= 0 ==> r == ""
    ensures n > 0 ==> |r| == n * |s|
  {
    if n <= 0 then "" else s + Repeat(s, n - 1)
  }

  /** `[s[i:i+2] for i in range(from, limit, 2)]`, the slice clamped to the end of `s`. */
  function ChunkPairs(s: string, limit: nat, from: nat): (chunks: seq<string>)
    requires limit <= |s|
    decreases limit - from
    ensures forall k | 0 <= k < |chunks| :: 1 <= |chunks[k]| <= 2
  {
    if from >= limit then []
    else [s[from..Min(from + 2, |s|)]] + ChunkPairs(s, limit, from + 2)
  }

  /** `' '.join(parts)`. */
  function Join(parts: seq<string>): (r: string)
  {
    if parts == [] then ""
    else if |parts| == 1 then parts[0]
    else parts[0] + " " + Join(parts[1..])
  }

  /** The string before regrouping: prefixed and padded when short, cut when long (test_epc_generation.py:11-17). */
  function Suggested(tagHex: string): (s: string)
  {
    var n := |RemoveSpaces(tagHex)|;
    if n < MaxDigits then PrefixText + tagHex + Repeat(" 00", Padding(n))
    else tagHex[..Min(LongCut, |tagHex|)]
  }

  /** `12 - len(tag_bytes) // 2 - 2`, the zero bytes a short tag of `n` digits is padded with (test_epc_generation.py:13). */
  function Padding(n: nat): int
  {
    12 - n / 2 - 2
  }

  /** The digits of the suggestion before they are cut to twenty-four. */
  function SuggestedDigits(tagHex: string): (d: string)
  {
    RemoveSpaces(Suggested(tagHex))
  }

  /** `generate_suggested_epc(tag_hex)` (test_epc_generation.py:6-23). */
  function GenerateSuggestedEpc(tagHex: string): (epc: string)
  {
    var digits := SuggestedDigits(tagHex);
    Join(ChunkPairs(digits, Min(MaxDigits, |digits|), 0))
  }

  /** The characters of the parts one after the other. */
  function Concat(parts: seq<string>): (r: string)
  {
    if parts == [] then "" else parts[0] + Concat(parts[1..])
  }

  lemma {:induction false} RemoveSpacesAppend(a: string, b: string)
    ensures RemoveSpaces(a + b) == RemoveSpaces(a) + RemoveSpaces(b)
  {
    if a != [] {
      assert (a + b)[0] == a[0] && (a + b)[1..] == a[1..] + b;
      RemoveSpacesAppend(a[1..], b);
      var head := if a[0] == ' ' then "" else [a[0]];
      assert RemoveSpaces(a + b) == head + (RemoveSpaces(a[1..]) + RemoveSpaces(b));
      assert RemoveSpaces(a) == head + RemoveSpaces(a[1..]);
    } else {
      assert a + b == b;
    }
  }

  /** A string without spaces is its own `replace(' ', '')`. */
  lemma {:induction false} RemoveSpacesNone(s: string)
    requires NoSpace(s)
    ensures RemoveSpaces(s) == s
  {
    if s != [] {
      RemoveSpacesNone(s[1..]);
    }
  }

  /** Joining space-free parts and dropping the spaces gives their characters one after the other. */
  lemma {:induction false} JoinThenRemoveSpaces(parts: seq<string>)
    requires SpaceFree(parts)
    ensures RemoveSpaces(Join(parts)) == Concat(parts)
  {
    if parts != [] {
      assert NoSpace(parts[0]);
      RemoveSpacesNone(parts[0]);
      var rest := parts[1..];
      assert Concat(parts) == parts[0] + Concat(rest);
      if |parts| == 1 {
        assert Concat(rest) == "";
      } else {
        assert SpaceFree(rest) by {
          forall k | 0 <= k < |rest|
            ensures NoSpace(rest[k])
          {
            assert rest[k] == parts[k + 1];
          }
        }
        JoinThenRemoveSpaces(rest);
        assert Join(parts) == (parts[0] + " ") + Join(rest);
        RemoveSpacesAppend(parts[0] + " ", Join(rest));
        RemoveSpacesAppend(parts[0], " ");
        assert RemoveSpaces(" ") == "";
      }
    }
  }

  /** The groups cut from a string without spaces have none. */
  lemma ChunksSpaceFree(s: string, limit: nat)
    requires limit <= |s| && NoSpace(s)
    ensures SpaceFree(ChunkPairs(s, limit, 0))
  {
    var chunks := ChunkPairs(s, limit, 0);
    forall k | 0 <= k < |chunks|
      ensures NoSpace(chunks[k])
    {
      forall i | 0 <= i < |chunks[k]|
        ensures chunks[k][i] != ' '
      {
        ChunkCharacter(s, limit, 0, k, i);
      }
    }
  }

  /** The pairs cover the characters from `from` to `limit`, none twice and none left out. */
  lemma {:induction false} ChunkPairsCover(s: string, limit: nat, from: nat)
    requires limit <= |s| && from <= limit && from % 2 == 0
    requires limit % 2 == 0 || limit == |s|
    decreases limit - from
    ensures Concat(ChunkPairs(s, limit, from)) == s[from..limit]
  {
    if from < limit {
      var stop := Min(from + 2, |s|);
      if from + 2 <= limit {
        ChunkPairsCover(s, limit, from + 2);
        assert s[from..limit] == s[from..from + 2] + s[from + 2..limit];
      } else {
        assert stop == limit;
        assert ChunkPairs(s, limit, from + 2) == [];
      }
    }
  }

  /** The groups are two characters each, except possibly the last. */
  lemma {:induction false} ChunkPairsFull(s: string, limit: nat, from: nat, k: nat)
    requires limit <= |s|
    requires k + 1 < |ChunkPairs(s, limit, from)|
    decreases limit - from
    ensures |ChunkPairs(s, limit, from)[k]| == 2
  {
    if k > 0 {
      ChunkPairsFull(s, limit, from + 2, k - 1);
    }
  }

  /**
   * Dropping the spaces of the suggestion gives the first twenty-four of
   * its digits: the regrouping neither loses nor adds a character.
   */
  lemma EpcDigits(tagHex: string)
    ensures var digits := SuggestedDigits(tagHex);
      RemoveSpaces(GenerateSuggestedEpc(tagHex)) == digits[..Min(MaxDigits, |digits|)]
  {
    var digits := SuggestedDigits(tagHex);
    var limit := Min(MaxDigits, |digits|);
    var chunks := ChunkPairs(digits, limit, 0);
    ChunksSpaceFree(digits, limit);
    JoinThenRemoveSpaces(chunks);
    ChunkPairsCover(digits, limit, 0);
  }

  /** Each character of a group is a character of the string it was cut from. */
  lemma {:induction false} ChunkCharacter(s: string, limit: nat, from: nat, k: nat, i: nat)
    requires limit <= |s| && k < |ChunkPairs(s, limit, from)| && i < |ChunkPairs(s, limit, from)[k]|
    decreases limit - from
    ensures from + 2 * k + i < |s| && ChunkPairs(s, limit, from)[k][i] == s[from + 2 * k + i]
  {
    if k > 0 {
      ChunkCharacter(s, limit, from + 2, k - 1, i);
    }
  }

  /** In a join of two-character groups (the last may be shorter), every third character is the space. */
  lemma {:induction false} JoinShape(parts: seq<string>, i: nat)
    requires forall k | 0 <= k < |parts| :: 1 <= |parts[k]| <= 2
    requires forall k | 0 <= k < |parts| - 1 :: |parts[k]| == 2
    requires SpaceFree(parts)
    requires i < |Join(parts)|
    ensures Join(parts)[i] == ' ' <==> i % 3 == 2
  {
    if |parts| > 1 {
      var rest := Join(parts[1..]);
      assert Join(parts) == parts[0] + " " + rest;
      if i >= 3 {
        assert Join(parts)[i] == rest[i - 3];
        JoinShape(parts[1..], i - 3);
      }
    }
  }

  /** The suggestion is groups of two characters separated by single spaces. */
  lemma EpcShape(tagHex: string, i: nat)
    requires i < |GenerateSuggestedEpc(tagHex)|
    ensures GenerateSuggestedEpc(tagHex)[i] == ' ' <==> i % 3 == 2
  {
    var digits := SuggestedDigits(tagHex);
    var limit := Min(MaxDigits, |digits|);
    var chunks := ChunkPairs(digits, limit, 0);
    forall k | 0 <= k < |chunks| - 1
      ensures |chunks[k]| == 2
    {
      ChunkPairsFull(digits, limit, 0, k);
    }
    ChunksSpaceFree(digits, limit);
    JoinShape(chunks, i);
  }

  lemma {:induction false} RepeatDigits(n: int)
    ensures RemoveSpaces(Repeat(" 00", n)) == Repeat("00", n)
    decreases n
  {
    if n > 0 {
      RepeatDigits(n - 1);
      RemoveSpacesAppend(" 00", Repeat(" 00", n - 1));
    }
  }

  /** The digits of the `E2 00 ` prefix. */
  lemma PrefixDigits()
    ensures RemoveSpaces(PrefixText) == HexDigits(PrefixBytes) == "E200"
  {
    assert "E2 00 "[1..] == "2 00 ";
    assert "2 00 "[1..] == " 00 ";
    assert " 00 "[1..] == "00 ";
    assert "00 "[1..] == "0 ";
    assert "0 "[1..] == " ";
    var e: seq<byte> := [0xE2, 0x00];
    assert e[1..] == [0x00];
    assert HexByte(0xE2) == "E2";
    assert HexByte(0x00) == "00";
  }

  /** The digits of a short tag's suggestion: those of `E2 00`, the tag's, then the padding's. */
  lemma ShortDigits(tagHex: string)
    requires |RemoveSpaces(tagHex)| < MaxDigits
    ensures SuggestedDigits(tagHex)
      == RemoveSpaces(PrefixText) + RemoveSpaces(tagHex) + Repeat("00", Padding(|RemoveSpaces(tagHex)|))
  {
    var padding := Padding(|RemoveSpaces(tagHex)|);
    var pad := Repeat(" 00", padding);
    assert Suggested(tagHex) == (PrefixText + tagHex) + pad;
    RemoveSpacesAppend(PrefixText + tagHex, pad);
    RemoveSpacesAppend(PrefixText, tagHex);
    RepeatDigits(padding);
  }

  /**
   * A tag of fewer than twenty-four digits is always padded to at least
   * twenty-four: the suggestion is exactly twelve bytes, starting `E2 00`.
   */
  lemma ShortTagIsPadded(tagHex: string)
    requires |RemoveSpaces(tagHex)| < MaxDigits
    ensures |RemoveSpaces(GenerateSuggestedEpc(tagHex))| == MaxDigits
    ensures RemoveSpaces(GenerateSuggestedEpc(tagHex))[..4] == "E200"
  {
    ShortDigits(tagHex);
    PrefixDigits();
    var digits := SuggestedDigits(tagHex);
    assert |digits| >= MaxDigits;
    assert digits[..4] == "E200";
    EpcDigits(tagHex);
  }

  /** The digits of `bs`, two per byte (`hex_readable` without its spaces). */
  function HexDigits(bs: seq<byte>): (s: string)
    ensures |s| == 2 * |bs|
  {
    if bs == [] then "" else HexByte(bs[0]) + HexDigits(bs[1..])
  }

  /** `n` zero bytes; none when `n` is zero or negative. */
  function Zeros(n: int): (z: seq<byte>)
    decreases n
    ensures n <= 0 ==> z == []
    ensures n > 0 ==> |z| == n && forall i | 0 <= i < n :: z[i] == 0
  {
    if n <= 0 then [] else [0] + Zeros(n - 1)
  }

  /** The twelve bytes suggested for a tag shown as `hex_readable(bs)`. */
  function SuggestedBytes(bs: seq<byte>): (r: seq<byte>)
    ensures |r| == 12
  {
    if |bs| < 12 then PaddedBytes(bs)[..12] else bs[..12]
  }

  /** `E2 00`, the tag's bytes, then as many zero bytes as the tag is short of ten. */
  function PaddedBytes(bs: seq<byte>): (r: seq<byte>)
    ensures |r| == 2 + |bs| + (if |bs| < 10 then 10 - |bs| else 0)
  {
    PrefixBytes + bs + Zeros(10 - |bs|)
  }

  lemma {:induction false} HexDigitsAppend(a: seq<byte>, b: seq<byte>)
    ensures HexDigits(a + b) == HexDigits(a) + HexDigits(b)
  {
    if a != [] {
      assert (a + b)[0] == a[0] && (a + b)[1..] == a[1..] + b;
      HexDigitsAppend(a[1..], b);
      assert HexDigits(a + b) == HexByte(a[0]) + (HexDigits(a[1..]) + HexDigits(b));
    } else {
      assert a + b == b;
    }
  }

  lemma {:induction false} HexDigitsAt(bs: seq<byte>, j: nat)
    requires j < |bs|
    ensures HexDigits(bs)[2 * j..2 * j + 2] == HexByte(bs[j])
  {
    if j > 0 {
      HexDigitsAt(bs[1..], j - 1);
      assert HexDigits(bs)[2 * j..2 * j + 2] == HexDigits(bs[1..])[2 * (j - 1)..2 * (j - 1) + 2];
    }
  }

  /** The digits of `hex_readable(bs)` without its spaces. */
  lemma {:induction false} HexReadableDigits(bs: seq<byte>)
    ensures RemoveSpaces(HexReadable(bs)) == HexDigits(bs)
  {
    var h := HexByte(if bs == [] then 0 else bs[0]);
    assert NoSpace(h) by {
      HexByteRoundTrip(if bs == [] then 0 else bs[0]);
    }
    if |bs| == 1 {
      RemoveSpacesNone(h);
      assert HexDigits(bs[1..]) == "";
    } else if |bs| > 1 {
      HexReadableDigits(bs[1..]);
      RemoveSpacesNone(h);
      RemoveSpacesAppend(h + " ", HexReadable(bs[1..]));
      RemoveSpacesAppend(h, " ");
    }
  }

  lemma {:induction false} RepeatZeros(n: int)
    ensures Repeat("00", n) == HexDigits(Zeros(n))
    decreases n
  {
    if n > 0 {
      RepeatZeros(n - 1);
      assert Zeros(n)[1..] == Zeros(n - 1);
    }
  }

  /** `hex_readable(bs)` cut after `k` groups is `hex_readable` of the first `k` bytes. */
  lemma {:induction false} HexReadablePrefix(bs: seq<byte>, k: nat)
    requires 1 <= k <= |bs|
    ensures 3 * k - 1 <= |HexReadable(bs)| && HexReadable(bs)[..3 * k - 1] == HexReadable(bs[..k])
  {
    if k == 1 {
      assert bs[..1] == [bs[0]];
    } else {
      HexReadablePrefix(bs[1..], k - 1);
      assert bs[..k][1..] == bs[1..][..k - 1];
      assert HexReadable(bs[..k]) == HexByte(bs[0]) + " " + HexReadable(bs[1..][..k - 1]);
    }
  }

  /** The digit pairs of `HexDigits(bs)` between bytes `j` and `k` are those bytes' digits. */
  lemma {:induction false} ChunkPairsOfDigits(bs: seq<byte>, j: nat, k: nat)
    requires j <= k <= |bs|
    decreases k - j
    ensures ChunkPairs(HexDigits(bs), 2 * k, 2 * j) == HexGroups(bs[j..k])
  {
    if j < k {
      HexDigitsAt(bs, j);
      ChunkPairsOfDigits(bs, j + 1, k);
      assert bs[j..k][1..] == bs[j + 1..k];
    }
  }

  /** The digit pair of each byte. */
  function HexGroups(bs: seq<byte>): (groups: seq<string>)
    ensures |groups| == |bs|
  {
    if bs == [] then [] else [HexByte(bs[0])] + HexGroups(bs[1..])
  }

  lemma {:induction false} JoinHexGroups(bs: seq<byte>)
    ensures Join(HexGroups(bs)) == HexReadable(bs)
  {
    if |bs| > 1 {
      JoinHexGroups(bs[1..]);
    }
  }

  /** Regrouping the digits of twelve or more bytes gives back the text of the first twelve. */
  lemma RegroupDigits(bs: seq<byte>)
    requires |bs| >= 12
    ensures Join(ChunkPairs(HexDigits(bs), Min(MaxDigits, |HexDigits(bs)|), 0)) == HexReadable(bs[..12])
  {
    ChunkPairsOfDigits(bs, 0, 12);
    assert bs[0..12] == bs[..12];
    JoinHexGroups(bs[..12]);
  }

  /** The digits of `E2 00`, a short tag and its padding are those of the padded bytes. */
  lemma ShortReadableDigits(bs: seq<byte>)
    requires |bs| < 12
    ensures SuggestedDigits(HexReadable(bs)) == HexDigits(PaddedBytes(bs))
  {
    ShortReadableParts(bs);
    PaddedBytesDigits(bs);
  }

  /** The suggestion's digits for a short tag, part by part. */
  lemma ShortReadableParts(bs: seq<byte>)
    requires |bs| < 12
    ensures SuggestedDigits(HexReadable(bs)) == HexDigits(PrefixBytes) + HexDigits(bs) + HexDigits(Zeros(10 - |bs|))
  {
    var padding := 10 - |bs|;
    var tagHex := HexReadable(bs);
    HexReadableDigits(bs);
    assert Padding(|RemoveSpaces(tagHex)|) == padding;
    ShortDigits(tagHex);
    PrefixDigits();
    RepeatZeros(padding);
  }

  /** The digits of the padded bytes, part by part. */
  lemma PaddedBytesDigits(bs: seq<byte>)
    ensures HexDigits(PaddedBytes(bs)) == HexDigits(PrefixBytes) + HexDigits(bs) + HexDigits(Zeros(10 - |bs|))
  {
    HexDigitsAppend(PrefixBytes, bs);
    HexDigitsAppend(PrefixBytes + bs, Zeros(10 - |bs|));
  }

  /**
   * For a tag shown as `hex_readable(bs)` the suggestion is again
   * `hex_readable` text: of `E2 00`, the tag and zero padding, cut to
   * twelve bytes, when the tag is shorter than twelve bytes, and of the
   * tag's first twelve bytes otherwise.
   */
  lemma EpcOfReadableTag(bs: seq<byte>)
    ensures GenerateSuggestedEpc(HexReadable(bs)) == HexReadable(SuggestedBytes(bs))
  {
    var tagHex := HexReadable(bs);
    if |bs| < 12 {
      ShortReadableDigits(bs);
      RegroupDigits(PaddedBytes(bs));
    } else {
      HexReadableDigits(bs);
      HexReadablePrefix(bs, 12);
      assert Suggested(tagHex) == HexReadable(bs[..12]);
      HexReadableDigits(bs[..12]);
      RegroupDigits(bs[..12]);
      assert bs[..12][..12] == bs[..12];
    }
  }

  /** The first tag of the script: `04 00 00 00` is suggested as `E2 00 04 00 00 00 00 00 00 00 00 00`. */
  lemma FourByteTagSuggestion()
    ensures GenerateSuggestedEpc("04 00 00 00") == "E2 00 04 00 00 00 00 00 00 00 00 00"
  {
    var bs: seq<byte> := [0x04, 0x00, 0x00, 0x00];
    FourByteTagText();
    EpcOfReadableTag(bs);
    FourByteTagBytes();
    SuggestionText();
  }

  lemma FourByteTagText()
    ensures HexReadable([0x04, 0x00, 0x00, 0x00]) == "04 00 00 00"
  {
  }

  lemma FourByteTagBytes()
    ensures SuggestedBytes([0x04, 0x00, 0x00, 0x00]) == [0xE2, 0x00, 0x04, 0x00, 0x00, 0x00, 0x00, 0x00, 0x00, 0x00, 0x00, 0x00]
  {
  }

  lemma SuggestionText()
    ensures HexReadable([0xE2, 0x00, 0x04, 0x00, 0x00, 0x00, 0x00, 0x00, 0x00, 0x00, 0x00, 0x00])
      == "E2 00 04 00 00 00 00 00 00 00 00 00"
  {
    var a: seq<byte> := [0xE2, 0x00, 0x04, 0x00];
    var z: seq<byte> := [0x00, 0x00, 0x00, 0x00];
    SuggestionHeadText();
    ZeroWordText();
    HexReadableAppend(a, z);
    HexReadableAppend(a + z, z);
    assert a + z + z == [0xE2, 0x00, 0x04, 0x00, 0x00, 0x00, 0x00, 0x00, 0x00, 0x00, 0x00, 0x00];
    SuggestionTextParts();
  }

  lemma SuggestionHeadText()
    ensures HexReadable([0xE2, 0x00, 0x04, 0x00]) == "E2 00 04 00"
  {
  }

  lemma ZeroWordText()
    ensures HexReadable([0x00, 0x00, 0x00, 0x00]) == "00 00 00 00"
  {
  }

  lemma SuggestionTextParts()
    ensures "E2 00 04 00" + " " + "00 00 00 00" + " " + "00 00 00 00" == "E2 00 04 00 00 00 00 00 00 00 00 00"
  {
  }

  /** The text of two non-empty byte strings one after the other is their texts joined by a space. */
  lemma {:induction false} HexReadableAppend(a: seq<byte>, b: seq<byte>)
    requires a != [] && b != []
    ensures HexReadable(a + b) == HexReadable(a) + " " + HexReadable(b)
  {
    assert (a + b)[0] == a[0] && (a + b)[1..] == a[1..] + b;
    if |a| > 1 {
      HexReadableAppend(a[1..], b);
    }
  }
}
