/**
 * One row of the archive's `message` table (Models/MessageRecord.swift) and
 * the computed properties that classify reaction rows.
 */
module Messages {
  import opened Wrappers

  const Heart: string := "\U{2764}\U{FE0F}"
  const ThumbsUp: string := "\U{1F44D}"
  const ThumbsDown: string := "\U{1F44E}"
  const Laughing: string := "\U{1F602}"
  const DoubleExclamation: string := "\U{2757}\U{2757}"
  const QuestionMark: string := "\U{2753}"

  /**
   * The glyph of an association code when the row carries no explicit one:
   * an add code 200k and its removal code 300k share the glyph of reaction
   * kind k, for k in 0..5; every other code (2006 and 3006 included) has none.
   */
  function DefaultGlyph(code: int): (r: Option<string>)
    ensures r.Some? <==> 2000 <= code <= 2005 || 3000 <= code <= 3005
  {
    match code
    case 2000 => Some(Heart)
    case 3000 => Some(Heart)
    case 2001 => Some(ThumbsUp)
    case 3001 => Some(ThumbsUp)
    case 2002 => Some(ThumbsDown)
    case 3002 => Some(ThumbsDown)
    case 2003 => Some(Laughing)
    case 3003 => Some(Laughing)
    case 2004 => Some(DoubleExclamation)
    case 3004 => Some(DoubleExclamation)
    case 2005 => Some(QuestionMark)
    case 3005 => Some(QuestionMark)
    case _ => None
  }

  /** Add code 200k and removal code 300k name the same glyph. */
  lemma AddAndRemovalShareGlyph(k: int)
    requires 0 <= k <= 5
    ensures DefaultGlyph(2000 + k).Some?
    ensures DefaultGlyph(2000 + k) == DefaultGlyph(3000 + k)
  {
  }

  /** Two codes give the same default glyph only when they are the same reaction kind. */
  lemma {:induction false} GlyphDeterminesKind(a: int, b: int)
    requires DefaultGlyph(a).Some? && DefaultGlyph(a) == DefaultGlyph(b)
    ensures a % 1000 == b % 1000
  {
    assert Heart[0] != ThumbsUp[0] && Heart[0] != ThumbsDown[0] && Heart[0] != Laughing[0];
    assert Heart[0] != DoubleExclamation[0] && Heart[0] != QuestionMark[0];
    assert ThumbsUp[0] != ThumbsDown[0] && ThumbsUp[0] != Laughing[0] && ThumbsUp[0] != DoubleExclamation[0];
    assert ThumbsUp[0] != QuestionMark[0] && ThumbsDown[0] != Laughing[0] && ThumbsDown[0] != DoubleExclamation[0];
    assert ThumbsDown[0] != QuestionMark[0] && Laughing[0] != DoubleExclamation[0] && Laughing[0] != QuestionMark[0];
    assert DoubleExclamation[0] != QuestionMark[0];
  }

  /** The position of the first `c` in `s`, if any (`firstIndex(of:)`). */
  function FirstIndexOf(s: string, c: char): (r: Option<nat>)
    ensures r.None? <==> c !in s
    ensures r.Some? ==> r.value < |s| && s[r.value] == c && c !in s[..r.value]
  {
    if s == [] then None
    else if s[0] == c then Some(0)
    else
      match FirstIndexOf(s[1..], c)
      case None => None
      case Some(i) =>
        assert s[..i + 1] == [s[0]] + s[1..][..i];
        Some(i + 1)
  }

  datatype MessageRecord = MessageRecord(
    rowID: int,
    guid: string,
    text: Option<string>,
    attributedBody: Option<seq<byte>>,
    handleID: int,
    service: Option<string>,
    date: Option<int>,
    dateRead: Option<int>,
    dateDelivered: Option<int>,
    isFromMe: bool,
    isDelivered: bool,
    isRead: bool,
    isSent: bool,
    isSystemMessage: bool,
    cacheHasAttachments: bool,
    associatedMessageGUID: Option<string>,
    associatedMessageType: int,
    associatedMessageEmoji: Option<string>,
    associatedMessageRangeLocation: int,
    replyToGUID: Option<string>,
    threadOriginatorGUID: Option<string>,
    threadOriginatorPart: Option<string>,
    groupTitle: Option<string>,
    groupActionType: int,
    dateRetracted: Option<int>,
    dateEdited: Option<int>,
    expressiveSendStyleID: Option<string>)
  {
    /** An add-reaction event: a code in 2000..2006; never also a removal. */
    function IsReaction(): (b: bool)
      ensures b ==> !IsReactionRemoval()
    {
      2000 <= associatedMessageType <= 2006
    }

    /** A remove-reaction event: a code in 3000..3006. */
    predicate IsReactionRemoval() {
      3000 <= associatedMessageType <= 3006
    }

    /** A reaction event of either kind; every other row is content. */
    predicate IsReactionEvent() {
      IsReaction() || IsReactionRemoval()
    }

    /**
     * The reaction glyph: a non-empty explicit emoji wins whatever the code;
     * otherwise the code's default glyph.
     */
    function ReactionType(): (r: Option<string>)
      ensures associatedMessageEmoji.Some? && associatedMessageEmoji.value != [] ==> r == associatedMessageEmoji
      ensures (associatedMessageEmoji.None? || associatedMessageEmoji.value == []) ==>
                (r.Some? <==> 2000 <= associatedMessageType <= 2005 || 3000 <= associatedMessageType <= 3005)
    {
      match associatedMessageEmoji
      case Some(emoji) => if emoji != [] then Some(emoji) else DefaultGlyph(associatedMessageType)
      case None => DefaultGlyph(associatedMessageType)
    }

    /**
     * The GUID of the message a reaction points at: the reference
     * `p:N/GUID` with everything up to and including its first `/` removed,
     * or the whole reference when it has no `/`.
     */
    function TargetMessageGUID(): (r: Option<string>)
      ensures r.None? <==> associatedMessageGUID.None?
      ensures r.Some? && '/' !in associatedMessageGUID.value ==> r.value == associatedMessageGUID.value
      ensures r.Some? && '/' in associatedMessageGUID.value ==>
                var raw := associatedMessageGUID.value;
                exists i :: 0 <= i < |raw| && raw[i] == '/' && '/' !in raw[..i] && r.value == raw[i + 1..]
    {
      match associatedMessageGUID
      case None => None
      case Some(raw) =>
        match FirstIndexOf(raw, '/')
        case Some(slash) => Some(raw[slash + 1..])
        case None => Some(raw)
    }
  }

  /** One row of the `handle` table: the phone number or e-mail address behind a `handle_id`. */
  datatype HandleRecord = HandleRecord(rowID: int, id: string, service: string, country: Option<string>)

  /**
   * A removal undoes the addition it mirrors: the removal row with code
   * 300k names the same glyph, and the same target, as the add row with
   * code 200k would, and that add row is a reaction.
   */
  lemma RemovalMatchesItsAdd(r: MessageRecord)
    requires r.IsReactionRemoval()
    ensures var add := r.(associatedMessageType := r.associatedMessageType - 1000);
            add.IsReaction() && !r.IsReaction() &&
            add.ReactionType() == r.ReactionType() && add.TargetMessageGUID() == r.TargetMessageGUID()
  {
    if r.associatedMessageType < 3006 {
      AddAndRemovalShareGlyph(r.associatedMessageType - 3000);
    }
  }
}
