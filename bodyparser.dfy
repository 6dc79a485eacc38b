/**
 * Recovery of the message text from an `attributedBody` typedstream blob
 * (Services/AttributedBodyParser.swift): a structured decoder first, and a
 * scan of the raw bytes for the last `NSString` class tag as the fallback.
 */
module BodyParser {
  import opened Wrappers

  /** The ASCII bytes of `NSString`. */
  const Marker: seq<byte> := [0x4E, 0x53, 0x53, 0x74, 0x72, 0x69, 0x6E, 0x67]

  /** `sub` occurs in `data` starting at index `i`. */
  predicate MatchAt(data: seq<byte>, sub: seq<byte>, i: int) {
    0 <= i && i + |sub| <= |data| && data[i..i + |sub|] == sub
  }

  /** Two occurrences of `NSString` never overlap: its first letter does not recur in it. */
  lemma MarkersDoNotOverlap(data: seq<byte>, i: int, j: int)
    requires MatchAt(data, Marker, i) && i < j < i + |Marker|
    ensures !MatchAt(data, Marker, j)
  {
    assert data[j] == data[i..i + |Marker|][j - i] == Marker[j - i] != Marker[0];
    if j + |Marker| <= |data| {
      assert data[j..j + |Marker|][0] != Marker[0];
    }
  }

  /**
   * The first occurrence of `sub` in `data` at or after `startingAt`, by the
   * naive nested scan; an empty `sub` is found at `startingAt` itself.
   */
  method FindSubsequence(data: seq<byte>, sub: seq<byte>, startingAt: nat) returns (r: Option<nat>)
    ensures sub == [] ==> r == Some(startingAt)
    ensures sub != [] && r.Some? ==>
              startingAt <= r.value && MatchAt(data, sub, r.value) &&
              forall k :: startingAt <= k < r.value ==> !MatchAt(data, sub, k)
    ensures sub != [] && r.None? ==> forall k :: startingAt <= k ==> !MatchAt(data, sub, k)
  {
    if sub == [] {
      return Some(startingAt);
    }
    var end := |data| - |sub|;
    if startingAt > end {
      return None;
    }
    for i := startingAt to end + 1
      invariant forall k :: startingAt <= k < i ==> !MatchAt(data, sub, k)
    {
      var matched := true;
      for j := 0 to |sub|
        invariant data[i..i + j] == sub[..j]
      {
        if data[i + j] != sub[j] {
          assert data[i..i + |sub|][j] != sub[j];
          matched := false;
          break;
        }
        assert data[i..i + j + 1] == data[i..i + j] + [data[i + j]];
      }
      if matched {
        return Some(i);
      }
    }
    return None;
  }

  /** The last occurrence of `sub` that starts below `k`. */
  function LastMatchBelow(data: seq<byte>, sub: seq<byte>, k: nat): (r: Option<nat>)
    ensures r.Some? ==>
              r.value < k && MatchAt(data, sub, r.value) &&
              forall j :: r.value < j < k ==> !MatchAt(data, sub, j)
    ensures r.None? ==> forall j :: 0 <= j < k ==> !MatchAt(data, sub, j)
  {
    if k == 0 then None
    else if MatchAt(data, sub, k - 1) then Some(k - 1)
    else LastMatchBelow(data, sub, k - 1)
  }

  /** Where the last `NSString` tag of the blob starts. */
  function LastMarker(data: seq<byte>): (r: Option<nat>)
    ensures r.Some? ==> MatchAt(data, Marker, r.value) && forall j :: r.value < j ==> !MatchAt(data, Marker, j)
    ensures r.None? ==> forall j :: !MatchAt(data, Marker, j)
  {
    LastMatchBelow(data, Marker, |data|)
  }

  /** A typedstream type-descriptor byte: 0x84, 0x85, 0x86, or 0x90 and above. */
  predicate IsTypeByte(x: byte) {
    x == 0x84 || x == 0x85 || x == 0x86 || x >= 0x90
  }

  /** The first position at or after `p` that does not hold a type-descriptor byte. */
  function SkipTypeBytes(data: seq<byte>, p: nat): (q: nat)
    requires p <= |data|
    ensures p <= q <= |data|
    ensures forall k :: p <= k < q ==> IsTypeByte(data[k])
    ensures q == |data| || !IsTypeByte(data[q])
    decreases |data| - p
  {
    if p < |data| && IsTypeByte(data[p]) then SkipTypeBytes(data, p + 1) else p
  }

  /**
   * The length field at `pos`: `0x81` and two more bytes hold a
   * little-endian 16-bit length; a byte below `0x80` is the length itself.
   * The result pairs the length with where the payload starts.
   */
  function DecodeLength(data: seq<byte>, pos: nat): (r: Option<(nat, nat)>)
    requires pos < |data|
    ensures r.Some? <==> (data[pos] == 0x81 && pos + 2 < |data|) || data[pos] < 0x80
    ensures data[pos] == 0x81 && pos + 2 < |data| ==>
              r.value.1 == pos + 3 && r.value.0 < 0x1_0000 &&
              r.value.0 % 256 == data[pos + 1] as int && r.value.0 / 256 == data[pos + 2] as int
    ensures data[pos] < 0x80 ==> r.value == (data[pos] as nat, pos + 1)
  {
    if data[pos] == 0x81 && pos + 2 < |data| then
      // `b1 | b2 << 8` on two bytes is `b1 + 256 * b2`.
      Some((data[pos + 1] as nat + data[pos + 2] as nat * 256, pos + 3))
    else if data[pos] < 0x80 then
      Some((data[pos] as nat, pos + 1))
    else
      None
  }

  /** The payload of the string whose class tag ends at `e`, if it can be read. */
  function PayloadAfter(data: seq<byte>, e: nat): (r: Option<seq<byte>>)
    requires e <= |data|
  {
    var pos := SkipTypeBytes(data, e);
    if pos < |data| then
      match DecodeLength(data, pos)
      case None => None
      case Some((length, start)) =>
        if start + length <= |data| && length > 0 then Some(data[start..start + length]) else None
    else
      None
  }

  /** What the binary scan recovers: the payload after the last `NSString` tag. */
  function ScanPayload(data: seq<byte>): (r: Option<seq<byte>>)
  {
    match LastMarker(data)
    case None => None
    case Some(i) => PayloadAfter(data, i + |Marker|)
  }

  /** A tag that ends exactly where another one starts leaves nothing readable. */
  lemma AdjacentMarkerHasNoPayload(data: seq<byte>, e: nat)
    requires e <= |data| && MatchAt(data, Marker, e)
    requires e + |Marker| == |data|
    ensures PayloadAfter(data, e) == None
  {
    assert data[e] == data[e..e + |Marker|][0] == 0x4E;
  }

  /**
   * `extractViaBinaryScan`: find the last `NSString` tag by repeated forward
   * searches, skip the type bytes after it, decode the length and slice out
   * the payload. The search loop stops while a tag may still lie at the very
   * end of the blob, but such a tag only ever follows another one directly,
   * and neither leaves a readable payload, so the result is that of the true
   * last tag.
   */
  method ExtractViaBinaryScan(bytes: seq<byte>) returns (r: Option<seq<byte>>)
    ensures r == ScanPayload(bytes)
  {
    var lastMarkerEnd := FindLastMarkerEnd(bytes);
    if lastMarkerEnd <= 0 {
      return None;
    }
    r := ReadPayload(bytes, lastMarkerEnd);
  }

  /**
   * The search loop of `extractViaBinaryScan`: where the last tag it finds
   * ends, or -1 when it finds none. Past that end only a payload-less tag
   * can follow.
   */
  method FindLastMarkerEnd(bytes: seq<byte>) returns (lastMarkerEnd: int)
    ensures lastMarkerEnd <= 0 ==> ScanPayload(bytes) == None
    ensures lastMarkerEnd > 0 ==> lastMarkerEnd <= |bytes| && ScanPayload(bytes) == PayloadAfter(bytes, lastMarkerEnd)
  {
    var searchStart := 0;
    lastMarkerEnd := -1;
    var exhausted := false;
    while searchStart < |bytes| - |Marker|
      invariant 0 <= searchStart <= |bytes|
      invariant lastMarkerEnd == -1 ==> searchStart == 0
      invariant lastMarkerEnd != -1 ==>
                  lastMarkerEnd == searchStart >= |Marker| && MatchAt(bytes, Marker, searchStart - |Marker|)
      invariant exhausted ==> forall k :: searchStart <= k ==> !MatchAt(bytes, Marker, k)
      decreases |bytes| - searchStart, if exhausted then 0 else 1
    {
      var idx := FindSubsequence(bytes, Marker, searchStart);
      if idx.Some? {
        lastMarkerEnd := idx.value + |Marker|;
        searchStart := lastMarkerEnd;
      } else {
        exhausted := true;
        break;
      }
    }

    assert exhausted || searchStart >= |bytes| - |Marker|;
    if lastMarkerEnd <= 0 {
      NoTagFound(bytes);
    } else {
      LastTagFound(bytes, lastMarkerEnd);
    }
  }

  /** A blob with no tag before its last possible position has no payload. */
  lemma NoTagFound(bytes: seq<byte>)
    requires forall k :: 0 <= k < |bytes| - |Marker| ==> !MatchAt(bytes, Marker, k)
    ensures ScanPayload(bytes) == None
  {
    if LastMarker(bytes).Some? {
      var m := LastMarker(bytes).value;
      assert m == |bytes| - |Marker|;
      assert PayloadAfter(bytes, m + |Marker|) == None;
    }
  }

  /**
   * A tag ending at `e` is the one whose payload the scan reads when no tag
   * starts at or after `e`, or when `e` is already at the last position a
   * tag could start.
   */
  lemma LastTagFound(bytes: seq<byte>, e: nat)
    requires |Marker| <= e <= |bytes| && MatchAt(bytes, Marker, e - |Marker|)
    requires e >= |bytes| - |Marker| || forall k :: e <= k ==> !MatchAt(bytes, Marker, k)
    ensures ScanPayload(bytes) == PayloadAfter(bytes, e)
  {
    var tag := e - |Marker|;
    forall j | tag < j < e
      ensures !MatchAt(bytes, Marker, j)
    {
      MarkersDoNotOverlap(bytes, tag, j);
    }
    if LastMarker(bytes).value != tag {
      assert LastMarker(bytes).value == e;
      AdjacentMarkerHasNoPayload(bytes, e);
    }
  }

  /** The rest of `extractViaBinaryScan`: skip the type bytes, decode the length, slice. */
  method ReadPayload(bytes: seq<byte>, lastMarkerEnd: nat) returns (r: Option<seq<byte>>)
    requires lastMarkerEnd <= |bytes|
    ensures r == PayloadAfter(bytes, lastMarkerEnd)
  {
    var pos := lastMarkerEnd;
    while pos < |bytes| && IsTypeByte(bytes[pos])
      invariant lastMarkerEnd <= pos <= |bytes|
      invariant SkipTypeBytes(bytes, pos) == SkipTypeBytes(bytes, lastMarkerEnd)
    {
      pos := pos + 1;
    }

    if pos < |bytes| {
      var length: nat;
      if bytes[pos] == 0x81 && pos + 2 < |bytes| {
        length := bytes[pos + 1] as nat + bytes[pos + 2] as nat * 256;
        pos := pos + 3;
      } else if bytes[pos] < 0x80 {
        length := bytes[pos] as nat;
        pos := pos + 1;
      } else {
        return None;
      }
      if !(pos + length <= |bytes| && length > 0) {
        return None;
      }
      return Some(bytes[pos..pos + length]);
    }
    return None;
  }

  /** The objects the structured decoder (`NSUnarchiver`) can hand back. */
  datatype Unarchived =
    | AttributedString(plain: string)
    | PlainString(text: string)
    | OtherObject
    | NotDecoded

  /**
   * `extractViaUnarchiver` after the foreign decode: the plain text of an
   * attributed string or the string itself, with an empty text read as none.
   */
  function ViaUnarchiver(o: Unarchived): (r: Option<string>)
    ensures r.Some? ==> r.value != []
    ensures r.None? <==> o.OtherObject? || o.NotDecoded? || (o.AttributedString? && o.plain == []) || (o.PlainString? && o.text == [])
  {
    match o
    case AttributedString(s) => if s == [] then None else Some(s)
    case PlainString(s) => if s == [] then None else Some(s)
    case OtherObject => None
    case NotDecoded => None
  }

  /** The text `extractText` recovers: the structured decode, else the binary scan's payload as UTF-8. */
  function TextOf(data: seq<byte>, unarchive: seq<byte> -> Unarchived, utf8: seq<byte> -> Option<string>): Option<string>
  {
    match ViaUnarchiver(unarchive(data))
    case Some(text) => Some(text)
    case None =>
      match ScanPayload(data)
      case None => None
      case Some(payload) => utf8(payload)
  }

  /**
   * `extractText`. The foreign `NSUnarchiver` and the UTF-8 decoder
   * (`String(data:encoding:)`) are the parameters `unarchive` and `utf8`.
   */
  method ExtractText(data: seq<byte>, unarchive: seq<byte> -> Unarchived, utf8: seq<byte> -> Option<string>)
    returns (r: Option<string>)
    ensures ViaUnarchiver(unarchive(data)).Some? ==> r == ViaUnarchiver(unarchive(data))
    ensures ViaUnarchiver(unarchive(data)).None? ==>
              r == (if ScanPayload(data).Some? then utf8(ScanPayload(data).value) else None)
    ensures r == TextOf(data, unarchive, utf8)
  {
    r := ViaUnarchiver(unarchive(data));
    if r.None? {
      var payload := ExtractViaBinaryScan(data);
      if payload.Some? {
        r := utf8(payload.value);
      }
    }
  }

  /** A blob of at most eight bytes holds no recoverable text. */
  lemma {:induction false} ShortBlobHasNoPayload(data: seq<byte>)
    requires |data| <= |Marker|
    ensures ScanPayload(data) == None
  {
    match LastMarker(data)
    case None =>
    case Some(i) =>
      assert i == 0 && |data| == |Marker|;
  }

  /** A blob without an `NSString` tag holds no recoverable text. */
  lemma NoMarkerNoPayload(data: seq<byte>)
    requires forall j :: !MatchAt(data, Marker, j)
    ensures ScanPayload(data) == None
  {
  }

  predicate SliceAt(data: seq<byte>, p: seq<byte>, start: int) {
    0 <= start && start + |p| <= |data| && p == data[start..start + |p|]
  }

  /**
   * Whatever the scan recovers is a non-empty slice of at most 65535 bytes
   * that lies after the last `NSString` tag and the bytes that follow it.
   */
  lemma {:induction false} PayloadIsSliceAfterLastTag(data: seq<byte>)
    requires ScanPayload(data).Some?
    ensures var p := ScanPayload(data).value;
            1 <= |p| < 0x1_0000 &&
            exists start :: LastMarker(data).value + |Marker| < start && SliceAt(data, p, start)
  {
    var i := LastMarker(data).value;
    var pos := SkipTypeBytes(data, i + |Marker|);
    var d := DecodeLength(data, pos);
    var start := d.value.1;
    assert SliceAt(data, ScanPayload(data).value, start);
  }

  /** A typical tail of a blob: the tag, two type bytes, a length of 5 and `Hello`. */
  lemma ScanExample()
    ensures ScanPayload(Marker + [0x84, 0x92, 0x05, 0x48, 0x65, 0x6C, 0x6C, 0x6F]) == Some([0x48, 0x65, 0x6C, 0x6C, 0x6F])
  {
    var data := Marker + [0x84, 0x92, 0x05, 0x48, 0x65, 0x6C, 0x6C, 0x6F];
    assert MatchAt(data, Marker, 0);
    forall j | 0 < j
      ensures !MatchAt(data, Marker, j)
    {
      if j < |Marker| {
        MarkersDoNotOverlap(data, 0, j);
      } else if j == |Marker| {
        assert data[j..j + |Marker|][0] == 0x84;
      }
    }
    assert LastMarker(data) == Some(0);
    assert SkipTypeBytes(data, 10) == 10;
    assert SkipTypeBytes(data, 9) == 10;
    assert SkipTypeBytes(data, 8) == 10;
    assert DecodeLength(data, 10) == Some((5, 11));
    assert data[11..16] == [0x48, 0x65, 0x6C, 0x6C, 0x6F];
  }
}
