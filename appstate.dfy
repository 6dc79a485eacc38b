/**
 * The application state (`AppState`): the conversation list and its search
 * filter, and the two loaders that fill the conversation list and the
 * message pane from the database in batches. The database reads, the
 * foreign decoders and the file-system helpers are parameters; the detached
 * tasks are run as sequential loops, with cancellation as an explicit point
 * at which the running load is found to be cancelled.
 */
module App {
  import opened Wrappers
  import opened Strings
  import opened Messages
  import opened BodyParser
  import opened Contacts
  import opened Reactions
  import opened Attachments
  import opened Display
  import opened Batching

  /** Conversations handed to the list per update. */
  const ConversationBatchSize: nat := 50
  /** Messages handed to the pane per update. */
  const MessageBatchSize: nat := 200
  /** The `chat.style` of a group chat. */
  const GroupChatStyle: int := 43
  /** The service assumed when a row names none. */
  const DefaultService: string := "iMessage"

  const ConversationsFailure: string := "Failed to load conversations: "
  const MessagesFailure: string := "Failed to load messages: "

  /** One `chat` row with its message count and latest message date. */
  datatype RawConversation = RawConversation(
    rowID: int,
    guid: string,
    style: int,
    chatIdentifier: Option<string>,
    serviceName: Option<string>,
    displayName: Option<string>,
    messageCount: int,
    lastMessageDate: Option<int>)

  /**
   * A conversation as the list shows it. The latest message date keeps the
   * raw Apple timestamp.
   */
  datatype ConversationInfo = ConversationInfo(
    chatRowID: int,
    chatGUID: string,
    displayName: string,
    participants: seq<string>,
    participantNames: seq<string>,
    messageCount: int,
    lastMessageDate: Option<int>,
    lastMessagePreview: Option<string>,
    isGroupChat: bool,
    serviceName: string)

  /**
   * An open, read-only `chat.db`. Each query is the answer the file gives,
   * `Failed` when the query throws. The service holds nothing it changes, so
   * it is a value.
   */
  datatype DatabaseService = DatabaseService(
    handles: Fetch<map<int, HandleRecord>>,
    conversations: Fetch<seq<RawConversation>>,
    handlesForChat: int -> Fetch<seq<HandleRecord>>,
    lastMessagePreview: int -> Fetch<Option<string>>,
    messages: int -> Fetch<seq<MessageRecord>>,
    attachments: int -> Fetch<seq<AttachmentRecord>>)

  /** The foreign helpers the message loader calls. */
  datatype Foreign = Foreign(
    unarchive: seq<byte> -> Unarchived,
    utf8: seq<byte> -> Option<string>,
    expandTilde: string -> string,
    formatSize: int -> string)

  /** How a message load ended. */
  datatype LoadOutcome = NoDatabase | Completed | Cancelled | LoadFailed(reason: string)

  // ---------------------------------------------------------------------------
  // The search filter

  /** The conversation mentions the (lowercased) query in one of the searched fields. */
  predicate Mentions(conv: ConversationInfo, query: string) {
    IsSubstring(query, Lower(conv.displayName))
    || (exists p :: p in conv.participants && IsSubstring(query, Lower(p)))
    || (exists p :: p in conv.participantNames && IsSubstring(query, Lower(p)))
    || (conv.lastMessagePreview.Some? && IsSubstring(query, Lower(conv.lastMessagePreview.value)))
  }

  /** The conversations that mention `query`, in list order. */
  function Matching(conversations: seq<ConversationInfo>, query: string): seq<ConversationInfo> {
    if conversations == [] then []
    else
      var last := conversations[|conversations| - 1];
      Matching(conversations[..|conversations| - 1], query) + (if Mentions(last, query) then [last] else [])
  }

  /** `filteredConversations`: everything for an empty search, else the matches of the lowercased search. */
  function FilteredConversations(conversations: seq<ConversationInfo>, searchText: string): (r: seq<ConversationInfo>)
    ensures searchText == [] ==> r == conversations
    ensures |r| <= |conversations|
    ensures forall c :: c in r ==> c in conversations
  {
    MatchingLength(conversations, Lower(searchText));
    MatchingWithin(conversations, Lower(searchText));
    if searchText == [] then conversations else Matching(conversations, Lower(searchText))
  }

  /** A conversation survives the filter exactly when it is listed and mentions the query. */
  lemma {:induction false} MatchingMembers(conversations: seq<ConversationInfo>, query: string, c: ConversationInfo)
    ensures c in Matching(conversations, query) <==> c in conversations && Mentions(c, query)
  {
    if conversations != [] {
      var front := conversations[..|conversations| - 1];
      MatchingMembers(front, query, c);
      assert conversations == front + [conversations[|conversations| - 1]];
    }
  }

  /** The filter only ever keeps listed conversations. */
  lemma MatchingWithin(conversations: seq<ConversationInfo>, query: string)
    ensures forall c :: c in Matching(conversations, query) ==> c in conversations
  {
    forall c | c in Matching(conversations, query)
      ensures c in conversations
    {
      MatchingMembers(conversations, query, c);
    }
  }

  /** Filtering keeps list order: it filters the two parts of a list separately. */
  lemma {:induction false} MatchingAppend(a: seq<ConversationInfo>, b: seq<ConversationInfo>, query: string)
    ensures Matching(a + b, query) == Matching(a, query) + Matching(b, query)
    decreases |b|
  {
    if b == [] {
      assert a + b == a;
    } else {
      var front := b[..|b| - 1];
      assert (a + b)[..|a + b| - 1] == a + front;
      MatchingAppend(a, front, query);
    }
  }

  /** A list whose every conversation matches comes back whole. */
  lemma {:induction false} MatchingKeepsAll(conversations: seq<ConversationInfo>, query: string)
    requires forall i :: 0 <= i < |conversations| ==> Mentions(conversations[i], query)
    ensures Matching(conversations, query) == conversations
  {
    if conversations != [] {
      MatchingKeepsAll(conversations[..|conversations| - 1], query);
    }
  }

  /**
   * The filter's contract: an empty search shows every conversation; any
   * other search shows exactly the listed conversations that mention the
   * lowercased search, and never more than there are.
   */
  lemma FilteredSpec(conversations: seq<ConversationInfo>, searchText: string, c: ConversationInfo)
    ensures searchText == [] ==> FilteredConversations(conversations, searchText) == conversations
    ensures searchText != [] ==>
              (c in FilteredConversations(conversations, searchText) <==> c in conversations && Mentions(c, Lower(searchText)))
    ensures |FilteredConversations(conversations, searchText)| <= |conversations|
  {
    MatchingMembers(conversations, Lower(searchText), c);
    MatchingLength(conversations, Lower(searchText));
  }

  lemma {:induction false} MatchingLength(conversations: seq<ConversationInfo>, query: string)
    ensures |Matching(conversations, query)| <= |conversations|
  {
    if conversations != [] {
      MatchingLength(conversations[..|conversations| - 1], query);
    }
  }

  // ---------------------------------------------------------------------------
  // Building one conversation

  /**
   * The name a conversation is listed under: a non-empty stored name, else
   * the participants' names (the sole name, or all of them joined with
   * ", "), else the chat identifier, else "Unknown".
   */
  function ConversationDisplayName(stored: Option<string>, participantNames: seq<string>, chatIdentifier: Option<string>): (r: string)
    ensures stored.Some? && stored.value != [] ==> r == stored.value
    ensures (stored.None? || stored.value == []) && participantNames != [] ==> r == Join(participantNames, ", ")
    ensures (stored.None? || stored.value == []) && participantNames == [] ==> r == chatIdentifier.GetOr("Unknown")
  {
    if stored.Some? && stored.value != [] then stored.value
    else if |participantNames| == 1 then participantNames[0]
    else if participantNames != [] then Join(participantNames, ", ")
    else chatIdentifier.GetOr("Unknown")
  }

  /** The handle identifiers of a chat's participants. */
  function Ids(handles: seq<HandleRecord>): seq<string> {
    seq(|handles|, i requires 0 <= i < |handles| => handles[i].id)
  }

  /** The names the resolver gives a list of identifiers. */
  function NamesOf(ids: seq<string>, names: Naming): seq<string> {
    seq(|ids|, i requires 0 <= i < |ids| => names.Name(ids[i]))
  }

  /** The list entry built from a chat row, its participants and its preview. */
  function ConversationOf(raw: RawConversation, handles: seq<HandleRecord>, preview: Option<string>, names: Naming): ConversationInfo {
    var participants := Ids(handles);
    var participantNames := NamesOf(participants, names);
    ConversationInfo(
      raw.rowID, raw.guid,
      ConversationDisplayName(raw.displayName, participantNames, raw.chatIdentifier),
      participants, participantNames, raw.messageCount, raw.lastMessageDate, preview,
      raw.style == GroupChatStyle, raw.serviceName.GetOr(DefaultService))
  }

  /** What one chat row yields: its entry, or the failure of one of its two queries. */
  function RowInfo(raw: RawConversation, db: DatabaseService, names: Naming): Fetch<ConversationInfo> {
    match db.handlesForChat(raw.rowID)
    case Failed(e) => Failed(e)
    case Fetched(handles) =>
      match db.lastMessagePreview(raw.rowID)
      case Failed(e) => Failed(e)
      case Fetched(preview) => Fetched(ConversationOf(raw, handles, preview, names))
  }

  /** Rows built so far, and the failure that stopped the loader if any. */
  datatype Built<T> = Built(rows: seq<T>, failure: Option<string>)

  /** The entries of the chat rows, in order, up to the first row that fails. */
  function BuildAll(raws: seq<RawConversation>, db: DatabaseService, names: Naming): Built<ConversationInfo> {
    if raws == [] then Built([], None)
    else
      var built := BuildAll(raws[..|raws| - 1], db, names);
      if built.failure.Some? then built
      else
        match RowInfo(raws[|raws| - 1], db, names)
        case Failed(e) => Built(built.rows, Some(e))
        case Fetched(info) => Built(built.rows + [info], None)
  }

  /**
   * The loader lists row `k` at position `k`: every built entry is the entry
   * of the row at its position; without a failure every row is built, and a
   * failure is the failure of the first row not built.
   */
  lemma {:induction false} BuildAllSpec(raws: seq<RawConversation>, db: DatabaseService, names: Naming)
    ensures var b := BuildAll(raws, db, names);
            |b.rows| <= |raws| &&
            (forall k :: 0 <= k < |b.rows| ==> RowInfo(raws[k], db, names) == Fetched(b.rows[k])) &&
            (b.failure.None? ==> |b.rows| == |raws|) &&
            (b.failure.Some? ==> |b.rows| < |raws| && RowInfo(raws[|b.rows|], db, names) == Failed(b.failure.value))
  {
    if raws != [] {
      var front := raws[..|raws| - 1];
      BuildAllSpec(front, db, names);
      var b := BuildAll(front, db, names);
      forall k | 0 <= k < |b.rows|
        ensures raws[k] == front[k]
      {
      }
    }
  }

  /**
   * Entry `k` of the list describes chat row `k`: its participants are the
   * ids of the chat's handles, in order, each shown under the name the
   * resolver gives that id; a chat without a stored name is listed under
   * its participants' names joined with ", "; it is a group chat exactly
   * for style 43; and its preview is the chat's latest message preview.
   */
  lemma ListedConversations(raws: seq<RawConversation>, db: DatabaseService, names: Naming, k: nat)
    requires k < |BuildAll(raws, db, names).rows|
    ensures var c := BuildAll(raws, db, names).rows[k];
            k < |raws| && c.chatRowID == raws[k].rowID &&
            db.handlesForChat(raws[k].rowID).Fetched? && db.lastMessagePreview(raws[k].rowID).Fetched? &&
            var handles := db.handlesForChat(raws[k].rowID).value;
            |c.participants| == |c.participantNames| == |handles| &&
            (forall i :: 0 <= i < |handles| ==> c.participants[i] == handles[i].id) &&
            (forall i :: 0 <= i < |c.participants| ==> c.participantNames[i] == names.Name(c.participants[i])) &&
            ((raws[k].displayName.None? || raws[k].displayName.value == []) && handles != [] ==>
               c.displayName == Join(c.participantNames, ", ")) &&
            (c.isGroupChat <==> raws[k].style == 43) &&
            c.lastMessagePreview == db.lastMessagePreview(raws[k].rowID).value
  {
    BuildAllSpec(raws, db, names);
  }

  /** The participant names, resolved one handle at a time. */
  method ResolveNames(ids: seq<string>, resolver: ContactResolver, ghost names: Naming) returns (r: seq<string>)
    requires resolver.Names().Agrees(names)
    modifies resolver
    ensures r == NamesOf(ids, names)
    ensures resolver.Names().Agrees(names)
  {
    r := [];
    for i := 0 to |ids|
      invariant |r| == i
      invariant forall k :: 0 <= k < i ==> r[k] == names.Name(ids[k])
      invariant resolver.Names().Agrees(names)
    {
      ghost var before := resolver.Names();
      var name := resolver.DisplayName(ids[i]);
      AgreesTransitive(resolver.Names(), before, names);
      r := r + [name];
    }
  }

  /** The body of the conversation loop for one row. */
  method BuildConversation(raw: RawConversation, db: DatabaseService, resolver: ContactResolver, ghost names: Naming)
    returns (r: Fetch<ConversationInfo>)
    requires resolver.Names().Agrees(names)
    modifies resolver
    ensures r == RowInfo(raw, db, names)
    ensures resolver.Names().Agrees(names)
  {
    var chatHandles := db.handlesForChat(raw.rowID);
    if chatHandles.Failed? {
      return Failed(chatHandles.reason);
    }
    var participants := Ids(chatHandles.value);
    var participantNames := ResolveNames(participants, resolver, names);
    var displayName: string;
    if raw.displayName.Some? && raw.displayName.value != [] {
      displayName := raw.displayName.value;
    } else if |participantNames| == 1 {
      displayName := participantNames[0];
    } else if participantNames != [] {
      displayName := Join(participantNames, ", ");
    } else {
      displayName := raw.chatIdentifier.GetOr("Unknown");
    }
    var preview := db.lastMessagePreview(raw.rowID);
    if preview.Failed? {
      return Failed(preview.reason);
    }
    r := Fetched(ConversationInfo(
      raw.rowID, raw.guid, displayName, participants, participantNames, raw.messageCount,
      raw.lastMessageDate, preview.value, raw.style == GroupChatStyle, raw.serviceName.GetOr(DefaultService)));
  }

  // ---------------------------------------------------------------------------
  // Building one message

  /** The handle identifier shown next to a sender: "Me", the handle's id, or "Unknown". */
  function SenderID(record: MessageRecord, handleMap: map<int, HandleRecord>): string {
    if record.isFromMe then "Me"
    else if record.handleID in handleMap then handleMap[record.handleID].id
    else "Unknown"
  }

  /**
   * The text shown for a row: the inline text, unless it is missing or
   * empty and the row has an attributed body, in which case the body decoder
   * is consulted.
   */
  function TextFor(record: MessageRecord, env: Foreign): (t: Option<string>)
    ensures record.text.Some? && record.text.value != [] ==> t == record.text
    ensures record.attributedBody.None? ==> t == record.text
    ensures t != record.text ==>
              record.attributedBody.Some? && t == TextOf(record.attributedBody.value, env.unarchive, env.utf8)
  {
    if (record.text.None? || record.text.value == []) && record.attributedBody.Some? then
      TextOf(record.attributedBody.value, env.unarchive, env.utf8)
    else record.text
  }

  /** The file a preview is loaded from: only a downloaded image with a path gets one. */
  function PreviewPath(att: AttachmentRecord, env: Foreign): Option<string> {
    var path := att.ResolvedPath(env.expandTilde);
    if att.IsImage() && path.Some? && att.IsDownloaded() then path else None
  }

  /** An attachment row as the pane shows it. */
  function AttachmentOf(att: AttachmentRecord, env: Foreign): DisplayAttachment {
    DisplayAttachment(att.rowID, att.filename, att.transferName, att.mimeType, att.totalBytes,
                      att.IsImage(), att.ResolvedPath(env.expandTilde), env.formatSize(att.totalBytes),
                      PreviewPath(att, env))
  }

  /**
   * A preview is loaded exactly for a downloaded image that has a file name,
   * from its resolved path: never for a video, and never while the transfer
   * is still under way (any state other than 0 or 5).
   */
  lemma PreviewOnlyForDownloadedImages(att: AttachmentRecord, env: Foreign)
    ensures var d := AttachmentOf(att, env);
            (d.previewPath.Some? <==> att.IsImage() && att.filename.Some? && att.IsDownloaded()) &&
            (d.previewPath.Some? ==> d.previewPath == d.resolvedPath && d.isImage && !att.IsVideo()) &&
            (att.transferState != 0 && att.transferState != 5 ==> d.previewPath.None?)
  {
  }

  /** The attachment rows of a message as the pane shows them. */
  function AttachmentsOf(atts: seq<AttachmentRecord>, env: Foreign): (r: seq<DisplayAttachment>)
    ensures |r| == |atts|
  {
    seq(|atts|, i requires 0 <= i < |atts| => AttachmentOf(atts[i], env))
  }

  /** A date column that is set and positive marks the message. */
  predicate Marked(date: Option<int>) {
    date.Some? && date.value > 0
  }

  /** The reactions attached to a row, none when it has no entry. */
  function ReactionsFor(record: MessageRecord, reactionMap: map<int, seq<Reaction>>): seq<Reaction> {
    if record.rowID in reactionMap then reactionMap[record.rowID] else []
  }

  /** The message shown for a row, from the parts the loader works out for it. */
  function MessageOf(record: MessageRecord, text: Option<string>, senderName: string, senderID: string,
                     reactions: seq<Reaction>, attachments: seq<DisplayAttachment>): DisplayMessage
  {
    DisplayMessage(
      record.rowID, record.guid, text, senderName, senderID, record.isFromMe,
      record.date, record.dateRead, record.dateDelivered, record.service.GetOr(DefaultService),
      record.isDelivered, record.isRead, record.isSent, record.isSystemMessage,
      Marked(record.dateEdited), Marked(record.dateRetracted),
      record.replyToGUID, record.threadOriginatorGUID, record.groupTitle, record.groupActionType,
      reactions, attachments)
  }

  /** The message built from a content row, or the failure of its attachment query. */
  function MessageFor(record: MessageRecord, db: DatabaseService, handleMap: map<int, HandleRecord>, names: Naming,
                      reactionMap: map<int, seq<Reaction>>, env: Foreign): Fetch<DisplayMessage>
  {
    var fetched := if record.cacheHasAttachments then db.attachments(record.rowID) else Fetched([]);
    match fetched
    case Failed(e) => Failed(e)
    case Fetched(atts) =>
      Fetched(MessageOf(record, TextFor(record, env), SenderName(record, handleMap, names), SenderID(record, handleMap),
                        ReactionsFor(record, reactionMap), AttachmentsOf(atts, env)))
  }

  /**
   * A built message keeps its row's identity and flags: edited and unsent
   * exactly when the matching date is set and positive, one attachment per
   * attachment row, and it has content exactly when its text is non-empty,
   * it has attachments, or the row is a system message or carries a group
   * title.
   */
  lemma MessageForSpec(record: MessageRecord, db: DatabaseService, handleMap: map<int, HandleRecord>, names: Naming,
                       reactionMap: map<int, seq<Reaction>>, env: Foreign)
    requires MessageFor(record, db, handleMap, names, reactionMap, env).Fetched?
    ensures var m := MessageFor(record, db, handleMap, names, reactionMap, env).value;
            m.id == record.rowID && m.guid == record.guid && m.text == TextFor(record, env) &&
            (m.isEdited <==> record.dateEdited.Some? && record.dateEdited.value > 0) &&
            (m.isRetracted <==> record.dateRetracted.Some? && record.dateRetracted.value > 0) &&
            (!record.cacheHasAttachments ==> m.attachments == []) &&
            (record.cacheHasAttachments ==> |m.attachments| == |db.attachments(record.rowID).value|) &&
            (m.HasContent() <==> (m.text.Some? && m.text.value != []) || m.attachments != [] ||
                                 record.isSystemMessage || record.groupTitle.Some?)
  {
  }

  /** Messages emitted so far, the row each came from, and the failure that stopped the loader if any. */
  datatype Emitted = Emitted(messages: seq<DisplayMessage>, rows: seq<nat>, failure: Option<string>)

  /** The messages of the content rows, in order, up to the first row that fails. */
  function EmitAll(records: seq<MessageRecord>, db: DatabaseService, handleMap: map<int, HandleRecord>, names: Naming,
                   reactionMap: map<int, seq<Reaction>>, env: Foreign): Emitted
  {
    if records == [] then Emitted([], [], None)
    else
      var e := EmitAll(records[..|records| - 1], db, handleMap, names, reactionMap, env);
      var record := records[|records| - 1];
      if e.failure.Some? || record.IsReactionEvent() then e
      else
        match MessageFor(record, db, handleMap, names, reactionMap, env)
        case Failed(x) => Emitted(e.messages, e.rows, Some(x))
        case Fetched(m) => Emitted(e.messages + [m], e.rows + [|records| - 1], None)
  }

  /** The positions of the rows that are not reaction events, in order. */
  function ContentRows(records: seq<MessageRecord>): seq<nat> {
    if records == [] then []
    else ContentRows(records[..|records| - 1]) + (if records[|records| - 1].IsReactionEvent() then [] else [|records| - 1])
  }

  /** The content rows are listed once each, in increasing order, and nothing else is. */
  lemma {:induction false} ContentRowsSpec(records: seq<MessageRecord>)
    ensures forall k, l :: 0 <= k < l < |ContentRows(records)| ==> ContentRows(records)[k] < ContentRows(records)[l]
    ensures forall j :: j in ContentRows(records) <==> 0 <= j < |records| && !records[j].IsReactionEvent()
  {
    if records != [] {
      var front := records[..|records| - 1];
      ContentRowsSpec(front);
      forall j | 0 <= j < |front|
        ensures records[j] == front[j]
      {
      }
      var rows := ContentRows(front);
      forall k | 0 <= k < |rows|
        ensures rows[k] < |front|
      {
        assert rows[k] in rows;
      }
    }
  }

  /**
   * Each emitted message is the message of the row recorded for it, and
   * without a failure the rows recorded are exactly the content rows, so the
   * pane shows one message per content row, in row order, and no reaction row.
   */
  lemma {:induction false} EmitAllSpec(records: seq<MessageRecord>, db: DatabaseService, handleMap: map<int, HandleRecord>,
                                       names: Naming, reactionMap: map<int, seq<Reaction>>, env: Foreign)
    ensures var e := EmitAll(records, db, handleMap, names, reactionMap, env);
            |e.rows| == |e.messages| &&
            (forall k :: 0 <= k < |e.rows| ==>
               e.rows[k] < |records| && !records[e.rows[k]].IsReactionEvent() &&
               MessageFor(records[e.rows[k]], db, handleMap, names, reactionMap, env) == Fetched(e.messages[k])) &&
            (e.failure.None? ==> e.rows == ContentRows(records))
  {
    if records != [] {
      var n := |records| - 1;
      var front := records[..n];
      EmitAllSpec(front, db, handleMap, names, reactionMap, env);
      var e := EmitAll(front, db, handleMap, names, reactionMap, env);
      forall k | 0 <= k < |e.rows|
        ensures records[e.rows[k]] == front[e.rows[k]]
      {
      }
      if e.failure.None? && records[n].IsReactionEvent() {
        assert ContentRows(records) == ContentRows(front) + [];
      } else if e.failure.None? {
        match MessageFor(records[n], db, handleMap, names, reactionMap, env)
        case Failed(_) =>
        case Fetched(m) =>
          assert EmitAll(records, db, handleMap, names, reactionMap, env) == Emitted(e.messages + [m], e.rows + [n], None);
          assert ContentRows(records) == ContentRows(front) + [n];
      }
    }
  }

  /**
   * Every message in the pane names its sender by the row's author: "Me"
   * for the owner's rows, the handle's id under the name the resolver gives
   * it for a known handle, and "Unknown" otherwise.
   */
  lemma EmittedSenders(records: seq<MessageRecord>, db: DatabaseService, handleMap: map<int, HandleRecord>,
                       names: Naming, reactionMap: map<int, seq<Reaction>>, env: Foreign, k: nat)
    requires k < |EmitAll(records, db, handleMap, names, reactionMap, env).messages|
    ensures var e := EmitAll(records, db, handleMap, names, reactionMap, env);
            k < |e.rows| && e.rows[k] < |records| &&
            var m, author := e.messages[k], records[e.rows[k]];
            m.isFromMe == author.isFromMe &&
            (author.isFromMe ==> m.senderID == "Me" && m.senderName == "Me") &&
            (!author.isFromMe && author.handleID in handleMap ==>
               m.senderID == handleMap[author.handleID].id && m.senderName == names.Name(m.senderID)) &&
            (!author.isFromMe && author.handleID !in handleMap ==> m.senderID == "Unknown" && m.senderName == "Unknown")
  {
    EmitAllSpec(records, db, handleMap, names, reactionMap, env);
  }

  /**
   * A reaction is listed under the same name the pane shows on a message by
   * the same author: the aggregator and the message loop name senders alike.
   */
  lemma ReactionSenderMatchesMessage(content: MessageRecord, reaction: MessageRecord, db: DatabaseService,
                                     handleMap: map<int, HandleRecord>, names: Naming,
                                     reactionMap: map<int, seq<Reaction>>, env: Foreign)
    requires MessageFor(content, db, handleMap, names, reactionMap, env).Fetched?
    requires EntryOf(reaction, handleMap, names).Some?
    requires content.isFromMe == reaction.isFromMe && content.handleID == reaction.handleID
    ensures EntryOf(reaction, handleMap, names).value.1.senderName ==
            MessageFor(content, db, handleMap, names, reactionMap, env).value.senderName
  {
  }

  /** One attachment row after another becomes a displayed attachment. */
  method DisplayAttachments(atts: seq<AttachmentRecord>, env: Foreign) returns (r: seq<DisplayAttachment>)
    ensures r == AttachmentsOf(atts, env)
  {
    r := [];
    for i := 0 to |atts|
      invariant |r| == i
      invariant forall k :: 0 <= k < i ==> r[k] == AttachmentOf(atts[k], env)
    {
      var att := atts[i];
      var path := att.ResolvedPath(env.expandTilde);
      var image: Option<string> := None;
      if att.IsImage() && path.Some? && att.IsDownloaded() {
        image := path;
      }
      r := r + [DisplayAttachment(att.rowID, att.filename, att.transferName, att.mimeType, att.totalBytes,
                                  att.IsImage(), path, env.formatSize(att.totalBytes), image)];
    }
  }

  /** The text fallback of the message loop. */
  method RowText(record: MessageRecord, env: Foreign) returns (text: Option<string>)
    ensures text == TextFor(record, env)
  {
    text := record.text;
    if (text.None? || text.value == []) && record.attributedBody.Some? {
      text := ExtractText(record.attributedBody.value, env.unarchive, env.utf8);
    }
  }

  /** The sender of a content row, asking the resolver when the row has a known handle. */
  method RowSender(record: MessageRecord, handleMap: map<int, HandleRecord>, resolver: ContactResolver, ghost names: Naming)
    returns (senderID: string, senderName: string)
    requires resolver.Names().Agrees(names)
    modifies resolver
    ensures senderID == SenderID(record, handleMap) && senderName == SenderName(record, handleMap, names)
    ensures resolver.Names().Agrees(names)
  {
    if record.isFromMe {
      senderID, senderName := "Me", "Me";
    } else if record.handleID in handleMap {
      senderID := handleMap[record.handleID].id;
      senderName := resolver.DisplayName(senderID);
    } else {
      senderID, senderName := "Unknown", "Unknown";
    }
  }

  /** The body of the message loop for one content row. */
  method BuildMessage(record: MessageRecord, db: DatabaseService, handleMap: map<int, HandleRecord>,
                      reactionMap: map<int, seq<Reaction>>, env: Foreign, resolver: ContactResolver, ghost names: Naming)
    returns (r: Fetch<DisplayMessage>)
    requires resolver.Names().Agrees(names)
    modifies resolver
    ensures r == MessageFor(record, db, handleMap, names, reactionMap, env)
    ensures resolver.Names().Agrees(names)
  {
    var text := RowText(record, env);
    var senderID, senderName := RowSender(record, handleMap, resolver, names);
    var displayAttachments: seq<DisplayAttachment> := [];
    if record.cacheHasAttachments {
      var fetched := db.attachments(record.rowID);
      if fetched.Failed? {
        return Failed(fetched.reason);
      }
      displayAttachments := DisplayAttachments(fetched.value, env);
    }
    var reactions := if record.rowID in reactionMap then reactionMap[record.rowID] else [];
    r := Fetched(MessageOf(record, text, senderName, senderID, reactions, displayAttachments));
  }

  /**
   * A load over `count` rows that is cancelled once `cancelAt` rows are
   * processed finds out at a cancellation check: before the first row, at
   * the start of each row, or after the last.
   */
  predicate CancelledWithin(cancelAt: Option<nat>, count: nat) {
    cancelAt.Some? && cancelAt.value <= count
  }

  /** How many rows a load gets through before it finds itself cancelled. */
  function CancelPoint(cancelAt: Option<nat>, count: nat): (n: nat)
    ensures n <= count
    ensures n < count ==> cancelAt == Some(n)
  {
    if CancelledWithin(cancelAt, count) then cancelAt.value else count
  }

  /** The rows counted as processed when the first `flushed` messages were handed over. */
  function LoadedCount(e: Emitted, flushed: nat): int
    requires flushed <= |e.rows|
  {
    if flushed == 0 then 0 else e.rows[flushed - 1] + 1
  }

  // ---------------------------------------------------------------------------
  // The application state

  class AppState {
    var hasFullDiskAccess: bool
    var conversations: seq<ConversationInfo>
    var selectedConversation: Option<ConversationInfo>
    var messages: seq<DisplayMessage>
    var searchText: string
    var isLoadingConversations: bool
    var isLoadingMessages: bool
    var errorMessage: Option<string>
    var loadedMessageCount: int
    var totalMessageCount: int
    var loadedConversationCount: int
    var totalConversationCount: int
    var databaseService: Option<DatabaseService>
    const contactResolver: ContactResolver
    var handleMap: map<int, HandleRecord>
    /** The runs appended to `conversations` by the current load. */
    ghost var conversationBatches: seq<seq<ConversationInfo>>
    /** The runs appended to `messages` by the current load. */
    ghost var messageBatches: seq<seq<DisplayMessage>>

    /** The message pane: what only `loadMessages` writes. */
    ghost function PaneFields(): (Option<ConversationInfo>, seq<DisplayMessage>, seq<seq<DisplayMessage>>, bool, int, int)
      reads this
    {
      (selectedConversation, messages, messageBatches, isLoadingMessages, loadedMessageCount, totalMessageCount)
    }

    /** The conversation list: what only `loadConversations` writes. */
    ghost function ListFields(): (seq<ConversationInfo>, seq<seq<ConversationInfo>>, bool, int, int)
      reads this
    {
      (conversations, conversationBatches, isLoadingConversations, loadedConversationCount, totalConversationCount)
    }

    /** What neither loop writes: the search, the access flag, the open database and the handles. */
    ghost function SharedFields(): (string, bool, Option<DatabaseService>, map<int, HandleRecord>)
      reads this
    {
      (searchText, hasFullDiskAccess, databaseService, handleMap)
    }

    /** What the conversation row loop leaves alone. */
    ghost function RowLoopFrame(): (bool, int, Option<string>, (Option<ConversationInfo>, seq<DisplayMessage>, seq<seq<DisplayMessage>>, bool, int, int), (string, bool, Option<DatabaseService>, map<int, HandleRecord>))
      reads this
    {
      (isLoadingConversations, totalConversationCount, errorMessage, PaneFields(), SharedFields())
    }

    constructor()
      ensures !hasFullDiskAccess && conversations == [] && selectedConversation.None? && messages == []
      ensures searchText == [] && !isLoadingConversations && !isLoadingMessages && errorMessage.None?
      ensures loadedMessageCount == 0 && totalMessageCount == 0 && loadedConversationCount == 0 && totalConversationCount == 0
      ensures databaseService.None? && handleMap == map[] && fresh(contactResolver)
      ensures conversationBatches == [] && messageBatches == []
    {
      hasFullDiskAccess := false;
      conversations := [];
      selectedConversation := None;
      messages := [];
      searchText := [];
      isLoadingConversations := false;
      isLoadingMessages := false;
      errorMessage := None;
      loadedMessageCount := 0;
      totalMessageCount := 0;
      loadedConversationCount := 0;
      totalConversationCount := 0;
      databaseService := None;
      contactResolver := new ContactResolver();
      handleMap := map[];
      conversationBatches := [];
      messageBatches := [];
    }

    /**
     * `loadConversations`, with the opening of the database as `connection`.
     * Without disk access nothing happens. A failure to open the database or
     * to read the handles, the chat list or a chat's rows sets the error
     * message; the conversations already handed over stay listed.
     */
    method LoadConversations(connection: Fetch<DatabaseService>)
      modifies this, contactResolver
      ensures !old(hasFullDiskAccess) ==> unchanged(this) && unchanged(contactResolver)
      ensures old(hasFullDiskAccess) ==>
                !isLoadingConversations && loadedConversationCount == |conversations| &&
                conversationBatches == Chunks(conversations, ConversationBatchSize)
      ensures old(hasFullDiskAccess) && (connection.Failed? || connection.value.handles.Failed?) ==>
                conversations == [] && totalConversationCount == 0 &&
                databaseService == old(databaseService) && handleMap == old(handleMap) &&
                errorMessage == Some(ConversationsFailure + (if connection.Failed? then connection.reason else connection.value.handles.reason))
      ensures old(hasFullDiskAccess) && connection.Fetched? && connection.value.handles.Fetched? ==>
                databaseService == Some(connection.value) && handleMap == connection.value.handles.value
      ensures old(hasFullDiskAccess) && connection.Fetched? && connection.value.handles.Fetched? && connection.value.conversations.Failed? ==>
                conversations == [] && totalConversationCount == 0 &&
                errorMessage == Some(ConversationsFailure + connection.value.conversations.reason)
      ensures old(hasFullDiskAccess) && connection.Fetched? && connection.value.handles.Fetched? && connection.value.conversations.Fetched? ==>
                var raws := connection.value.conversations.value;
                var built := BuildAll(raws, connection.value, old(contactResolver.Names()));
                totalConversationCount == |raws| &&
                (built.failure.None? ==> conversations == built.rows && errorMessage.None?) &&
                (built.failure.Some? ==>
                   conversations == built.rows[..|built.rows| - |built.rows| % ConversationBatchSize] &&
                   errorMessage == Some(ConversationsFailure + built.failure.value))
      ensures selectedConversation == old(selectedConversation) && messages == old(messages) && searchText == old(searchText)
      ensures isLoadingMessages == old(isLoadingMessages) && hasFullDiskAccess == old(hasFullDiskAccess)
      ensures loadedMessageCount == old(loadedMessageCount) && totalMessageCount == old(totalMessageCount)
      ensures messageBatches == old(messageBatches)
      ensures contactResolver.Names().Agrees(old(contactResolver.Names()))
    {
      if !hasFullDiskAccess {
        return;
      }
      StartConversationsLoad();
      if connection.Failed? {
        ReportConversationsFailure(connection.reason);
        return;
      }
      var db := connection.value;
      if db.handles.Failed? {
        ReportConversationsFailure(db.handles.reason);
        return;
      }
      databaseService := Some(db);
      handleMap := db.handles.value;
      if db.conversations.Failed? {
        ReportConversationsFailure(db.conversations.reason);
        return;
      }
      StreamConversations(db, db.conversations.value, contactResolver.Names());
    }

    /** The start of `loadConversations`: the list, its counts and the error are cleared and loading begins. */
    method StartConversationsLoad()
      modifies this
      ensures isLoadingConversations && errorMessage.None?
      ensures conversations == [] && conversationBatches == [] && loadedConversationCount == 0 && totalConversationCount == 0
      ensures PaneFields() == old(PaneFields()) && SharedFields() == old(SharedFields())
    {
      isLoadingConversations := true;
      errorMessage := None;
      conversations := [];
      loadedConversationCount := 0;
      totalConversationCount := 0;
      conversationBatches := [];
    }

    /**
     * One pass of the conversation loop: chat row `i` is built and added to
     * the batch, and a batch that reaches 50 is handed to the list. A failure
     * of the row's queries ends the loop, and then it is the failure of the
     * whole row list.
     */
    method ConversationRow(db: DatabaseService, raws: seq<RawConversation>, i: nat, batch: seq<ConversationInfo>,
                           ghost names: Naming)
      returns (batch': seq<ConversationInfo>, failure: Option<string>)
      requires i < |raws| && contactResolver.Names().Agrees(names)
      requires BuildAll(raws[..i], db, names) == Built(conversations + batch, None)
      requires FullConversationBatches() && |batch| < ConversationBatchSize && loadedConversationCount == |conversations|
      requires |conversations| + |batch| == i
      modifies this, contactResolver
      ensures failure.None? ==> BuildAll(raws[..i + 1], db, names) == Built(conversations + batch', None)
      ensures failure.Some? ==> BuildAll(raws, db, names) == Built(conversations + batch', failure)
      ensures FullConversationBatches() && |batch'| < ConversationBatchSize && loadedConversationCount == |conversations|
      ensures failure.None? ==> |conversations| + |batch'| == i + 1
      ensures RowLoopFrame() == old(RowLoopFrame())
      ensures contactResolver.Names().Agrees(names)
    {
      var info := BuildConversation(raws[i], db, contactResolver, names);
      if info.Failed? {
        BuildAllStops(raws, db, names, i);
        return batch, Some(info.reason);
      }
      BuildAllSnoc(raws, db, names, i, conversations + batch, info.value);
      assert conversations + (batch + [info.value]) == conversations + batch + [info.value];
      batch' := batch + [info.value];
      failure := None;
      if |batch'| >= ConversationBatchSize {
        AppendConversations(batch', i + 1);
        batch' := [];
      }
    }

    /** A full batch handed to the list, with the number of chat rows processed so far. */
    method AppendConversations(toAppend: seq<ConversationInfo>, count: int)
      modifies this
      ensures conversations == old(conversations) + toAppend && conversationBatches == old(conversationBatches) + [toAppend]
      ensures loadedConversationCount == count
      ensures isLoadingConversations == old(isLoadingConversations) && totalConversationCount == old(totalConversationCount)
      ensures errorMessage == old(errorMessage) && PaneFields() == old(PaneFields()) && SharedFields() == old(SharedFields())
    {
      conversations := conversations + toAppend;
      conversationBatches := conversationBatches + [toAppend];
      loadedConversationCount := count;
    }

    /** A full batch handed to the pane, with the number of message rows processed so far. */
    method AppendMessages(toAppend: seq<DisplayMessage>, count: int)
      modifies this
      ensures messages == old(messages) + toAppend && messageBatches == old(messageBatches) + [toAppend]
      ensures loadedMessageCount == count
      ensures selectedConversation == old(selectedConversation) && totalMessageCount == old(totalMessageCount)
      ensures isLoadingMessages == old(isLoadingMessages) && errorMessage == old(errorMessage)
      ensures ListFields() == old(ListFields()) && SharedFields() == old(SharedFields())
    {
      messages := messages + toAppend;
      messageBatches := messageBatches + [toAppend];
      loadedMessageCount := count;
    }

    /** The conversations handed over so far form full batches of 50. */
    ghost predicate FullConversationBatches()
      reads this
    {
      conversations == Flatten(conversationBatches) &&
      (forall k :: 0 <= k < |conversationBatches| ==> |conversationBatches[k]| == ConversationBatchSize) &&
      |conversations| == ConversationBatchSize * |conversationBatches|
    }

    /** The tail of `loadConversations`: the batching loop over the chat rows and the final flush. */
    method StreamConversations(db: DatabaseService, raws: seq<RawConversation>, ghost names: Naming)
      requires contactResolver.Names().Agrees(names)
      requires conversations == [] && conversationBatches == [] && loadedConversationCount == 0 && errorMessage.None?
      modifies this, contactResolver
      ensures !isLoadingConversations && loadedConversationCount == |conversations| && totalConversationCount == |raws|
      ensures conversationBatches == Chunks(conversations, ConversationBatchSize)
      ensures var built := BuildAll(raws, db, names);
              (built.failure.None? ==> conversations == built.rows && errorMessage.None?) &&
              (built.failure.Some? ==>
                 conversations == built.rows[..|built.rows| - |built.rows| % ConversationBatchSize] &&
                 errorMessage == Some(ConversationsFailure + built.failure.value))
      ensures PaneFields() == old(PaneFields()) && SharedFields() == old(SharedFields())
      ensures contactResolver.Names().Agrees(names)
    {
      totalConversationCount := |raws|;
      var batch, failure := ConversationRows(db, raws, names);
      if failure.Some? {
        FullRunsAreChunks(conversationBatches, ConversationBatchSize);
        FullPart(conversations, batch, |conversationBatches|, ConversationBatchSize);
        ReportConversationsFailure(failure.value);
        return;
      }
      FinishConversations(batch);
    }

    /** The handler of a failed conversation load: the error is shown and loading stops. */
    method ReportConversationsFailure(reason: string)
      modifies this
      ensures errorMessage == Some(ConversationsFailure + reason) && !isLoadingConversations
      ensures conversations == old(conversations) && conversationBatches == old(conversationBatches)
      ensures loadedConversationCount == old(loadedConversationCount) && totalConversationCount == old(totalConversationCount)
      ensures PaneFields() == old(PaneFields()) && SharedFields() == old(SharedFields())
    {
      errorMessage := Some(ConversationsFailure + reason);
      isLoadingConversations := false;
    }

    /**
     * The end of a conversation load that ran through: the remaining batch,
     * if any, is handed over, the loaded count becomes the number of
     * conversations listed and loading stops.
     */
    method FinishConversations(batch: seq<ConversationInfo>)
      requires FullConversationBatches() && |batch| < ConversationBatchSize
      modifies this
      ensures conversations == old(conversations) + batch && conversationBatches == Chunks(conversations, ConversationBatchSize)
      ensures loadedConversationCount == |conversations| && !isLoadingConversations
      ensures errorMessage == old(errorMessage) && totalConversationCount == old(totalConversationCount)
      ensures PaneFields() == old(PaneFields()) && SharedFields() == old(SharedFields())
    {
      if batch != [] {
        ChunksSnoc(conversationBatches, batch, ConversationBatchSize);
        conversations := conversations + batch;
        conversationBatches := conversationBatches + [batch];
      } else {
        FullRunsAreChunks(conversationBatches, ConversationBatchSize);
        assert conversations + batch == conversations;
      }
      loadedConversationCount := |conversations|;
      isLoadingConversations := false;
    }

    /**
     * The batching loop of `loadConversations`: each chat row is built and
     * every 50 built rows are handed to the list. It stops at the first row
     * whose queries fail, with that failure; `batch` is what was built and
     * not yet handed over.
     */
    method ConversationRows(db: DatabaseService, raws: seq<RawConversation>, ghost names: Naming)
      returns (batch: seq<ConversationInfo>, failure: Option<string>)
      requires contactResolver.Names().Agrees(names)
      requires conversations == [] && conversationBatches == [] && loadedConversationCount == 0
      modifies this, contactResolver
      ensures BuildAll(raws, db, names) == Built(conversations + batch, failure)
      ensures FullConversationBatches() && |batch| < ConversationBatchSize && loadedConversationCount == |conversations|
      ensures RowLoopFrame() == old(RowLoopFrame())
      ensures contactResolver.Names().Agrees(names)
    {
      batch := [];
      for i := 0 to |raws|
        invariant BuildAll(raws[..i], db, names) == Built(conversations + batch, None)
        invariant FullConversationBatches() && |batch| < ConversationBatchSize && loadedConversationCount == |conversations|
        invariant |conversations| + |batch| == i
        invariant RowLoopFrame() == old(RowLoopFrame())
        invariant contactResolver.Names().Agrees(names)
      {
        batch, failure := ConversationRow(db, raws, i, batch, names);
        if failure.Some? {
          return;
        }
      }
      assert raws[..|raws|] == raws;
      failure := None;
    }

    /**
     * `loadMessages`, for the chosen conversation. Without an open database
     * nothing happens. Otherwise the pane is cleared and refilled in runs of
     * 200 with the messages of the content rows; a cancelled load stops
     * quietly and leaves the loading flag set, any other failure sets the
     * error message and clears it. Cancellation is found at one of the
     * task's checks: `cancelledAtFetch` is the check right after the rows
     * are fetched, before the total is set; `cancelAt` counts the rows
     * processed before a later check (the one at the start of each row, or
     * the one after the last) finds the load cancelled.
     */
    method LoadMessages(conversation: ConversationInfo, cancelledAtFetch: bool, cancelAt: Option<nat>, env: Foreign)
      returns (outcome: LoadOutcome)
      modifies this, contactResolver
      ensures old(databaseService).None? ==> outcome == NoDatabase && unchanged(this) && unchanged(contactResolver)
      ensures old(databaseService).Some? ==>
                selectedConversation == Some(conversation) && messageBatches == Chunks(messages, MessageBatchSize)
      ensures old(databaseService).Some? && old(databaseService).value.messages(conversation.chatRowID).Failed? ==>
                var reason := old(databaseService).value.messages(conversation.chatRowID).reason;
                outcome == LoadFailed(reason) && messages == [] && !isLoadingMessages &&
                loadedMessageCount == 0 && totalMessageCount == 0 && errorMessage == Some(MessagesFailure + reason)
      ensures old(databaseService).Some? && old(databaseService).value.messages(conversation.chatRowID).Fetched? && cancelledAtFetch ==>
                outcome == Cancelled && messages == [] && isLoadingMessages &&
                loadedMessageCount == 0 && totalMessageCount == 0 && errorMessage == old(errorMessage)
      ensures old(databaseService).Some? && old(databaseService).value.messages(conversation.chatRowID).Fetched? && !cancelledAtFetch ==>
                var db := old(databaseService).value;
                var records := db.messages(conversation.chatRowID).value;
                var reactionMap := AggregateSpec(records, handleMap, old(contactResolver.Names()));
                var e := EmitAll(records[..CancelPoint(cancelAt, |records|)], db, handleMap, old(contactResolver.Names()), reactionMap, env);
                var flushed := |e.messages| - |e.messages| % MessageBatchSize;
                |e.rows| == |e.messages| &&
                totalMessageCount == |records| &&
                (e.failure.Some? ==>
                   outcome == LoadFailed(e.failure.value) && messages == e.messages[..flushed] &&
                   loadedMessageCount == LoadedCount(e, flushed) && !isLoadingMessages &&
                   errorMessage == Some(MessagesFailure + e.failure.value)) &&
                (e.failure.None? && CancelledWithin(cancelAt, |records|) ==>
                   outcome == Cancelled && messages == e.messages[..flushed] &&
                   loadedMessageCount == LoadedCount(e, flushed) && isLoadingMessages && errorMessage == old(errorMessage)) &&
                (e.failure.None? && !CancelledWithin(cancelAt, |records|) ==>
                   outcome == Completed && messages == e.messages && loadedMessageCount == |messages| &&
                   !isLoadingMessages && errorMessage == old(errorMessage))
      ensures conversations == old(conversations) && conversationBatches == old(conversationBatches)
      ensures searchText == old(searchText) && hasFullDiskAccess == old(hasFullDiskAccess)
      ensures isLoadingConversations == old(isLoadingConversations)
      ensures loadedConversationCount == old(loadedConversationCount) && totalConversationCount == old(totalConversationCount)
      ensures databaseService == old(databaseService) && handleMap == old(handleMap)
      ensures contactResolver.Names().Agrees(old(contactResolver.Names()))
    {
      if databaseService.None? {
        return NoDatabase;
      }
      var db := databaseService.value;
      StartMessagesLoad(conversation);
      var records := db.messages(conversation.chatRowID);
      if records.Failed? {
        ReportMessagesFailure(records.reason);
        return LoadFailed(records.reason);
      }
      ghost var names := contactResolver.Names();
      if cancelledAtFetch {
        return Cancelled;
      }
      totalMessageCount := |records.value|;
      var reactionMap := Aggregate(records.value, handleMap, contactResolver);
      outcome := StreamMessages(db, records.value, reactionMap, cancelAt, env, names);
    }

    /** The start of `loadMessages`: the conversation is selected, the pane and its counts are cleared and loading begins. */
    method StartMessagesLoad(conversation: ConversationInfo)
      modifies this
      ensures selectedConversation == Some(conversation) && isLoadingMessages
      ensures messages == [] && messageBatches == [] && loadedMessageCount == 0 && totalMessageCount == 0
      ensures errorMessage == old(errorMessage) && ListFields() == old(ListFields()) && SharedFields() == old(SharedFields())
    {
      selectedConversation := Some(conversation);
      isLoadingMessages := true;
      messages := [];
      loadedMessageCount := 0;
      totalMessageCount := 0;
      messageBatches := [];
    }

    /** The messages handed over so far form full batches of 200. */
    ghost predicate FullMessageBatches()
      reads this
    {
      messages == Flatten(messageBatches) &&
      (forall k :: 0 <= k < |messageBatches| ==> |messageBatches[k]| == MessageBatchSize) &&
      |messages| == MessageBatchSize * |messageBatches|
    }

    /**
     * The handed-over messages and the current batch are what the first
     * rows yield, and the loaded count is the rows processed up to the last
     * hand-over.
     */
    ghost predicate MessagesSoFar(e: Emitted, batch: seq<DisplayMessage>)
      reads this
    {
      e.messages == messages + batch && |e.rows| == |e.messages| && |batch| < MessageBatchSize &&
      loadedMessageCount == LoadedCount(e, |messages|) && FullMessageBatches()
    }

    /** The tail of `loadMessages`: the row loop, the last cancellation check and the final flush. */
    method StreamMessages(db: DatabaseService, records: seq<MessageRecord>, reactionMap: map<int, seq<Reaction>>,
                          cancelAt: Option<nat>, env: Foreign, ghost names: Naming)
      returns (outcome: LoadOutcome)
      requires contactResolver.Names().Agrees(names)
      requires messages == [] && messageBatches == [] && loadedMessageCount == 0 && isLoadingMessages
      modifies this, contactResolver
      ensures messageBatches == Chunks(messages, MessageBatchSize)
      ensures var e := EmitAll(records[..CancelPoint(cancelAt, |records|)], db, handleMap, names, reactionMap, env);
              var flushed := |e.messages| - |e.messages| % MessageBatchSize;
              |e.rows| == |e.messages| &&
              (e.failure.Some? ==>
                 outcome == LoadFailed(e.failure.value) && messages == e.messages[..flushed] &&
                 loadedMessageCount == LoadedCount(e, flushed) && !isLoadingMessages &&
                 errorMessage == Some(MessagesFailure + e.failure.value)) &&
              (e.failure.None? && CancelledWithin(cancelAt, |records|) ==>
                 outcome == Cancelled && messages == e.messages[..flushed] &&
                 loadedMessageCount == LoadedCount(e, flushed) && isLoadingMessages && errorMessage == old(errorMessage)) &&
              (e.failure.None? && !CancelledWithin(cancelAt, |records|) ==>
                 outcome == Completed && messages == e.messages && loadedMessageCount == |messages| &&
                 !isLoadingMessages && errorMessage == old(errorMessage))
      ensures selectedConversation == old(selectedConversation) && totalMessageCount == old(totalMessageCount)
      ensures ListFields() == old(ListFields()) && SharedFields() == old(SharedFields())
      ensures contactResolver.Names().Agrees(names)
    {
      var batch, failure := MessageRows(db, records, reactionMap, cancelAt, env, names);
      ghost var e := EmitAll(records[..CancelPoint(cancelAt, |records|)], db, handleMap, names, reactionMap, env);
      if failure.Some? || CancelledWithin(cancelAt, |records|) {
        FullRunsAreChunks(messageBatches, MessageBatchSize);
        FullPart(messages, batch, |messageBatches|, MessageBatchSize);
        if failure.Some? {
          ReportMessagesFailure(failure.value);
          return LoadFailed(failure.value);
        }
        return Cancelled;
      }
      assert records[..|records|] == records;
      FinishMessages(batch);
      outcome := Completed;
    }

    /** The handler of a failed message load: the error is shown and loading stops. */
    method ReportMessagesFailure(reason: string)
      modifies this
      ensures errorMessage == Some(MessagesFailure + reason) && !isLoadingMessages
      ensures messages == old(messages) && messageBatches == old(messageBatches) && loadedMessageCount == old(loadedMessageCount)
      ensures selectedConversation == old(selectedConversation) && totalMessageCount == old(totalMessageCount)
      ensures ListFields() == old(ListFields()) && SharedFields() == old(SharedFields())
    {
      errorMessage := Some(MessagesFailure + reason);
      isLoadingMessages := false;
    }

    /**
     * The end of a message load that ran through: the remaining batch, if
     * any, is handed over, the loaded count becomes the number of messages
     * shown and loading stops.
     */
    method FinishMessages(batch: seq<DisplayMessage>)
      requires FullMessageBatches() && |batch| < MessageBatchSize
      modifies this
      ensures messages == old(messages) + batch && messageBatches == Chunks(messages, MessageBatchSize)
      ensures loadedMessageCount == |messages| && !isLoadingMessages && errorMessage == old(errorMessage)
      ensures selectedConversation == old(selectedConversation) && totalMessageCount == old(totalMessageCount)
      ensures ListFields() == old(ListFields()) && SharedFields() == old(SharedFields())
    {
      if batch != [] {
        ChunksSnoc(messageBatches, batch, MessageBatchSize);
        messages := messages + batch;
        messageBatches := messageBatches + [batch];
      } else {
        FullRunsAreChunks(messageBatches, MessageBatchSize);
        assert messages + batch == messages;
      }
      loadedMessageCount := |messages|;
      isLoadingMessages := false;
    }

    /**
     * The row loop of `loadMessages`. It checks for cancellation before each
     * row, skips reaction rows, builds the message of every other row and
     * hands every 200 messages to the pane. It ends at the cancellation
     * point, or at the first row whose attachment query fails, with that
     * failure; `batch` is what was built and not yet handed over.
     */
    method MessageRows(db: DatabaseService, records: seq<MessageRecord>, reactionMap: map<int, seq<Reaction>>,
                       cancelAt: Option<nat>, env: Foreign, ghost names: Naming)
      returns (batch: seq<DisplayMessage>, failure: Option<string>)
      requires contactResolver.Names().Agrees(names)
      requires messages == [] && messageBatches == [] && loadedMessageCount == 0
      modifies this, contactResolver
      ensures var e := EmitAll(records[..CancelPoint(cancelAt, |records|)], db, handleMap, names, reactionMap, env);
              e.failure == failure && MessagesSoFar(e, batch)
      ensures isLoadingMessages == old(isLoadingMessages) && errorMessage == old(errorMessage)
      ensures selectedConversation == old(selectedConversation) && totalMessageCount == old(totalMessageCount)
      ensures ListFields() == old(ListFields()) && SharedFields() == old(SharedFields())
      ensures contactResolver.Names().Agrees(names)
    {
      batch := [];
      for i := 0 to |records|
        invariant cancelAt.Some? ==> cancelAt.value >= i
        invariant var e := EmitAll(records[..i], db, handleMap, names, reactionMap, env);
                  e.failure.None? && MessagesSoFar(e, batch)
        invariant isLoadingMessages == old(isLoadingMessages) && errorMessage == old(errorMessage)
        invariant selectedConversation == old(selectedConversation) && totalMessageCount == old(totalMessageCount)
        invariant ListFields() == old(ListFields()) && SharedFields() == old(SharedFields())
        invariant contactResolver.Names().Agrees(names)
      {
        if cancelAt == Some(i) {
          return batch, None;
        }
        batch, failure := MessageRow(db, records, i, batch, reactionMap, env, names);
        if failure.Some? {
          EmitAllFailureSticksUpTo(records, db, handleMap, names, reactionMap, env, i + 1, CancelPoint(cancelAt, |records|));
          return;
        }
      }
      assert records[..|records|] == records;
      failure := None;
    }

    /**
     * One pass of the message loop: a reaction row is only counted; any
     * other row's message is built and added to the batch, and a batch that
     * reaches 200 is handed to the pane together with the count of rows
     * processed. A failing attachment query ends the loop with its failure.
     */
    method MessageRow(db: DatabaseService, records: seq<MessageRecord>, i: nat, batch: seq<DisplayMessage>,
                      reactionMap: map<int, seq<Reaction>>, env: Foreign, ghost names: Naming)
      returns (batch': seq<DisplayMessage>, failure: Option<string>)
      requires i < |records| && contactResolver.Names().Agrees(names)
      requires var e := EmitAll(records[..i], db, handleMap, names, reactionMap, env);
               e.failure.None? && MessagesSoFar(e, batch)
      modifies this, contactResolver
      ensures var e := EmitAll(records[..i + 1], db, handleMap, names, reactionMap, env);
              e.failure == failure && MessagesSoFar(e, batch')
      ensures isLoadingMessages == old(isLoadingMessages) && errorMessage == old(errorMessage)
      ensures selectedConversation == old(selectedConversation) && totalMessageCount == old(totalMessageCount)
      ensures ListFields() == old(ListFields()) && SharedFields() == old(SharedFields())
      ensures contactResolver.Names().Agrees(names)
    {
      ghost var e := EmitAll(records[..i], db, handleMap, names, reactionMap, env);
      EmitAllStep(records, db, handleMap, names, reactionMap, env, i);
      var record := records[i];
      if record.IsReaction() || record.IsReactionRemoval() {
        return batch, None;
      }
      var built := BuildMessage(record, db, handleMap, reactionMap, env, contactResolver, names);
      if built.Failed? {
        return batch, Some(built.reason);
      }
      batch' := PushMessage(e, batch, built.value, i);
      failure := None;
    }

    /**
     * The message of row `i` joins the batch; a batch that reaches 200 is
     * handed to the pane with `i + 1` rows processed.
     */
    method PushMessage(ghost e: Emitted, batch: seq<DisplayMessage>, m: DisplayMessage, i: nat) returns (batch': seq<DisplayMessage>)
      requires MessagesSoFar(e, batch)
      modifies this
      ensures MessagesSoFar(Emitted(e.messages + [m], e.rows + [i], None), batch')
      ensures isLoadingMessages == old(isLoadingMessages) && errorMessage == old(errorMessage)
      ensures selectedConversation == old(selectedConversation) && totalMessageCount == old(totalMessageCount)
      ensures ListFields() == old(ListFields()) && SharedFields() == old(SharedFields())
    {
      ghost var e' := Emitted(e.messages + [m], e.rows + [i], None);
      assert messages + (batch + [m]) == e'.messages;
      batch' := batch + [m];
      if |batch'| >= MessageBatchSize {
        AppendMessages(batch', i + 1);
        batch' := [];
      } else {
        assert LoadedCount(e', |messages|) == LoadedCount(e, |messages|);
      }
    }
  }

  /** The loader's view of one more row: reaction rows add nothing, any other row adds its message or its failure. */
  lemma EmitAllStep(records: seq<MessageRecord>, db: DatabaseService, handleMap: map<int, HandleRecord>,
                    names: Naming, reactionMap: map<int, seq<Reaction>>, env: Foreign, i: nat)
    requires i < |records| && EmitAll(records[..i], db, handleMap, names, reactionMap, env).failure.None?
    ensures var e := EmitAll(records[..i], db, handleMap, names, reactionMap, env);
            var e' := EmitAll(records[..i + 1], db, handleMap, names, reactionMap, env);
            (records[i].IsReactionEvent() ==> e' == e) &&
            (!records[i].IsReactionEvent() ==>
               match MessageFor(records[i], db, handleMap, names, reactionMap, env)
               case Failed(x) => e' == Emitted(e.messages, e.rows, Some(x))
               case Fetched(m) => e' == Emitted(e.messages + [m], e.rows + [i], None))
  {
    assert records[..i + 1][..i] == records[..i];
  }

  /** A failure among the first `j` rows is the outcome of any longer prefix. */
  lemma EmitAllFailureSticksUpTo(records: seq<MessageRecord>, db: DatabaseService, handleMap: map<int, HandleRecord>,
                                 names: Naming, reactionMap: map<int, seq<Reaction>>, env: Foreign, j: nat, stop: nat)
    requires j <= stop <= |records| && EmitAll(records[..j], db, handleMap, names, reactionMap, env).failure.Some?
    ensures EmitAll(records[..stop], db, handleMap, names, reactionMap, env) == EmitAll(records[..j], db, handleMap, names, reactionMap, env)
  {
    assert records[..stop][..j] == records[..j];
    EmitAllFailureSticks(records[..stop], db, handleMap, names, reactionMap, env, j);
  }

  /** Once a message row has failed, later rows change nothing. */
  lemma {:induction false} EmitAllFailureSticks(records: seq<MessageRecord>, db: DatabaseService, handleMap: map<int, HandleRecord>,
                                                names: Naming, reactionMap: map<int, seq<Reaction>>, env: Foreign, j: nat)
    requires j <= |records| && EmitAll(records[..j], db, handleMap, names, reactionMap, env).failure.Some?
    ensures EmitAll(records, db, handleMap, names, reactionMap, env) == EmitAll(records[..j], db, handleMap, names, reactionMap, env)
    decreases |records| - j
  {
    if j < |records| {
      assert records[..j + 1][..j] == records[..j];
      EmitAllFailureSticks(records, db, handleMap, names, reactionMap, env, j + 1);
    } else {
      assert records[..j] == records;
    }
  }

  /** A chat row that builds extends the rows built before it. */
  lemma BuildAllSnoc(raws: seq<RawConversation>, db: DatabaseService, names: Naming, i: nat,
                     rows: seq<ConversationInfo>, info: ConversationInfo)
    requires i < |raws| && BuildAll(raws[..i], db, names) == Built(rows, None)
    requires RowInfo(raws[i], db, names) == Fetched(info)
    ensures BuildAll(raws[..i + 1], db, names) == Built(rows + [info], None)
  {
    assert raws[..i + 1][..i] == raws[..i];
  }

  /** The loader stops at the first failing chat row, having built the rows before it. */
  lemma BuildAllStops(raws: seq<RawConversation>, db: DatabaseService, names: Naming, i: nat)
    requires i < |raws| && BuildAll(raws[..i], db, names).failure.None?
    requires RowInfo(raws[i], db, names).Failed?
    ensures BuildAll(raws, db, names) == Built(BuildAll(raws[..i], db, names).rows, Some(RowInfo(raws[i], db, names).reason))
  {
    assert raws[..i + 1][..i] == raws[..i];
    BuildAllFailureSticks(raws, db, names, i + 1);
  }

  /** Once a chat row has failed, later rows change nothing. */
  lemma {:induction false} BuildAllFailureSticks(raws: seq<RawConversation>, db: DatabaseService, names: Naming, j: nat)
    requires j <= |raws| && BuildAll(raws[..j], db, names).failure.Some?
    ensures BuildAll(raws, db, names) == BuildAll(raws[..j], db, names)
    decreases |raws| - j
  {
    if j < |raws| {
      assert raws[..j + 1][..j] == raws[..j];
      BuildAllFailureSticks(raws, db, names, j + 1);
    } else {
      assert raws[..j] == raws;
    }
  }
}
