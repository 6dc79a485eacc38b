# iMessagePrinter core in Dafny

iMessagePrinter is a macOS application. It reads the Messages database
(`chat.db`) read-only, lists the conversations and shows a conversation's
messages with their reactions and attachments. This project models the
application's core and proves properties of the model:

- **Message rows** (`Messages`). A row of the `message` table and the derived
  facts about it: whether it is a tapback ("reaction"), whether it removes one,
  the glyph of a reaction, and the GUID of the message it targets.
- **The attributed body decoder** (`BodyParser`). `extractText` first asks the
  unarchiver and then falls back to a binary scan of the typedstream blob. The
  scan finds the last `NSString` tag, skips type bytes, reads a one- or
  two-byte length and takes the payload.
- **The contact resolver** (`Contacts`). A class that holds a name cache and two
  lookup tables, one keyed by phone digits and one by lowercased e-mail. It
  builds the tables from the address book, looks up names (falling back to the
  last ten digits) and formats unknown North American numbers.
- **The reaction aggregator** (`Reactions`). It groups add/remove events by
  target GUID and replays them into per-glyph sender sets. It lists them sorted
  by glyph and then by sender, and attaches the non-empty lists to the
  non-reaction rows.
- **The display model** (`Display`, `Attachments`). The predicates of
  `DisplayMessage` and `AttachmentRecord`, and the text-log line of a message.
- **The application state** (`App`). The class `AppState` with the search
  filter and its two loaders:
  - `loadConversations` fills the list in runs of 50;
  - `loadMessages` fills the pane in runs of 200, skips reaction rows, falls
    back to the attributed body for the text, resolves senders and fetches
    attachments.
  - Each loader handles the failure of every query and the cancellation of a
    running load.

Supporting modules:

- `Wrappers`: `Option`, `Fetch` (a query's answer or its failure) and the
  byte type.
- `Strings`: ASCII digits, lowercasing, whitespace trimming and substring search.
- `Ordering`: the lexicographic string order, and sorting a set under it.
- `Batching`: how a list is cut into runs of a fixed size (`Chunks`).

Each loop in the source is a method with loop invariants. The method is proved
equal to a specification function, and lemmas state what that function means:

- `BuildAll` / `EmitAll`: the rows built, up to the first failure;
- `AggregateSpec`: the reactions of each message;
- `Chunks`: the runs handed to the interface.

The ghost fields `conversationBatches` and `messageBatches` record the runs
appended during a load. The ensures clauses state that the runs are
`Chunks(list, 50)` and `Chunks(list, 200)`. The resolver's name function
(`Naming`) never changes a name once given, only caches it. So the loops are
specified against the names as they stood when the load began.

Two behaviours of the code worth noting:

- The reaction target is the part after the **first** `/` of
  `associated_message_guid`.
- A phone or e-mail key shared by two contacts maps to the contact enumerated
  **last**, because later contacts overwrite earlier ones. This is proved
  for phone keys and for e-mail keys alike.

## Model

| member | source | states |
|---|---|---|
| Messages.DefaultGlyph | Sources/iMessagePrinter/Models/MessageRecord.swift:75-83 | a built-in glyph exists exactly for the codes 2000–2005 and 3000–3005 |
| Messages.AddAndRemovalShareGlyph | Sources/iMessagePrinter/Models/MessageRecord.swift:76-81 | adding and removing the same tapback (2000+k, 3000+k) give the same glyph |
| Messages.GlyphDeterminesKind | Sources/iMessagePrinter/Models/MessageRecord.swift:76-81 | two codes with the same built-in glyph are the same tapback kind (equal modulo 1000) |
| Messages.FirstIndexOf | Sources/iMessagePrinter/Models/MessageRecord.swift:89 | finds the first occurrence of a character, or reports that there is none |
| Messages.MessageRecord.IsReaction | Sources/iMessagePrinter/Models/MessageRecord.swift:63-69 | a reaction row is never also a removal row |
| Messages.RemovalMatchesItsAdd | Sources/iMessagePrinter/Models/MessageRecord.swift:63-89 | a removal row (3000–3006) is not a reaction; the row with code 1000 lower is one, with the same glyph and the same target |
| Messages.MessageRecord.ReactionType | Sources/iMessagePrinter/Models/MessageRecord.swift:71-84 | a non-empty emoji wins; otherwise the glyph of the type code, if any |
| Messages.MessageRecord.TargetMessageGUID | Sources/iMessagePrinter/Models/MessageRecord.swift:86-93 | none without an associated GUID; otherwise the text after the first `/`, or all of it when there is no `/` |
| BodyParser.MarkersDoNotOverlap | Sources/iMessagePrinter/Services/AttributedBodyParser.swift:43-50 | two `NSString` tags cannot overlap, so resuming the search after a tag's end loses none |
| BodyParser.FindSubsequence | Sources/iMessagePrinter/Services/AttributedBodyParser.swift:84-100 | an empty pattern matches at the start; otherwise the first match at or after the start, or none anywhere after it |
| BodyParser.LastMarker | Sources/iMessagePrinter/Services/AttributedBodyParser.swift:39-50 | the position of the last `NSString` tag, or none when there is no tag |
| BodyParser.SkipTypeBytes | Sources/iMessagePrinter/Services/AttributedBodyParser.swift:55-59 | skips exactly the maximal run of type bytes (0x84, 0x85, 0x86, at least 0x90) |
| BodyParser.DecodeLength | Sources/iMessagePrinter/Services/AttributedBodyParser.swift:62-74 | 0x81 with two bytes after it gives a little-endian 16-bit length; a byte below 0x80 is the length itself; anything else fails |
| BodyParser.ExtractViaBinaryScan | Sources/iMessagePrinter/Services/AttributedBodyParser.swift:34-82 | the scan returns the payload after the last tag, which is the specification `ScanPayload` |
| BodyParser.FindLastMarkerEnd | Sources/iMessagePrinter/Services/AttributedBodyParser.swift:39-52 | the search loop ends at the end of the last tag, or finds none, and either way agrees with `ScanPayload` |
| BodyParser.NoTagFound | Sources/iMessagePrinter/Services/AttributedBodyParser.swift:43-52 | a blob with no tag before its last eight bytes has no payload, even when it ends in a tag |
| BodyParser.LastTagFound | Sources/iMessagePrinter/Services/AttributedBodyParser.swift:43-50 | where the loop stops, the tag it found is the last one that matters |
| BodyParser.ReadPayload | Sources/iMessagePrinter/Services/AttributedBodyParser.swift:54-81 | after the tag, the payload read is the one the specification describes |
| BodyParser.AdjacentMarkerHasNoPayload | Sources/iMessagePrinter/Services/AttributedBodyParser.swift:62-76 | a tag that ends the blob leaves no payload |
| BodyParser.ShortBlobHasNoPayload | Sources/iMessagePrinter/Services/AttributedBodyParser.swift:43-52 | a blob no longer than the tag has no payload |
| BodyParser.NoMarkerNoPayload | Sources/iMessagePrinter/Services/AttributedBodyParser.swift:52 | a blob without a tag has no payload |
| BodyParser.PayloadIsSliceAfterLastTag | Sources/iMessagePrinter/Services/AttributedBodyParser.swift:76-78 | a payload is non-empty, shorter than 65536 bytes, and a contiguous slice after the last tag |
| BodyParser.ScanExample | Sources/iMessagePrinter/Services/AttributedBodyParser.swift:55-78 | a tag, the type bytes 0x84 and 0x92, length 5 and "Hello" give "Hello" |
| BodyParser.ViaUnarchiver | Sources/iMessagePrinter/Services/AttributedBodyParser.swift:16-30 | text only from an attributed or plain string that is non-empty; anything else gives none |
| BodyParser.ExtractText | Sources/iMessagePrinter/Services/AttributedBodyParser.swift:5-12 | the unarchiver's text when it has one, else the UTF-8 decoding of the scanned payload |
| Contacts.ContactDisplayName | Sources/iMessagePrinter/Services/ContactResolver.swift:114-118 | a non-empty nickname wins; a name, when given, is never empty |
| Contacts.NamelessIffBlank | Sources/iMessagePrinter/Services/ContactResolver.swift:116-117 | without a nickname, a contact is nameless exactly when the given and family names are blank |
| Contacts.PhoneKeysOfMembers | Sources/iMessagePrinter/Services/ContactResolver.swift:72-82 | a phone's keys are its digits (when at least 7) and their last ten (when more than 10), all digit strings of length at least 7 |
| Contacts.PhoneKeysMembers | Sources/iMessagePrinter/Services/ContactResolver.swift:72-82 | a contact's phone keys are exactly the keys of its phones |
| Contacts.EmailKeysMembers | Sources/iMessagePrinter/Services/ContactResolver.swift:85-87 | a contact's e-mail keys are exactly its lowercased addresses |
| Contacts.StoringPhoneKeys | Sources/iMessagePrinter/Services/ContactResolver.swift:73-81 | the per-phone stores equal adding the phone's key set |
| Contacts.FormatKeepsDigits | Sources/iMessagePrinter/Services/ContactResolver.swift:120-129 | formatting an identifier never changes its digits |
| Contacts.FormatIdempotent | Sources/iMessagePrinter/Services/ContactResolver.swift:120-129 | formatting a formatted identifier changes nothing |
| Contacts.FormatNorthAmerican | Sources/iMessagePrinter/Services/ContactResolver.swift:121-126 | "+1" and ten digits become "+1-AAA-EEE-NNNN" |
| Contacts.LookupFallsBackToLastTen | Sources/iMessagePrinter/Services/ContactResolver.swift:99-103 | a phone identifier whose digits are unknown resolves through its last ten digits |
| Contacts.EmailLookupOnly | Sources/iMessagePrinter/Services/ContactResolver.swift:99-111 | an identifier with `@` is looked up only as a lowercased e-mail |
| Contacts.IndexedPhoneResolves | Sources/iMessagePrinter/Services/ContactResolver.swift:69-82 | after indexing a named contact, any identifier with the same digits as one of its phones (at least 7) resolves to its name |
| Contacts.CountryCodeResolves | Sources/iMessagePrinter/Services/ContactResolver.swift:77-80 | a ten-digit stored phone is found from an identifier that adds a country code |
| Contacts.IndexedEmailResolves | Sources/iMessagePrinter/Services/ContactResolver.swift:85-87 | after indexing, an e-mail identifier resolves to its contact's name regardless of case |
| Contacts.IndexClaimsPhoneKey | Sources/iMessagePrinter/Services/ContactResolver.swift:69-82 | indexing a named contact maps each of its phone keys to its name |
| Contacts.IndexKeepsPhoneKey | Sources/iMessagePrinter/Services/ContactResolver.swift:69-82 | indexing leaves every key the contact does not claim as it was |
| Contacts.LastContactWins | Sources/iMessagePrinter/Services/ContactResolver.swift:68-88 | a shared phone key ends with the name of the last named contact that claims it |
| Contacts.UnclaimedKeyKept | Sources/iMessagePrinter/Services/ContactResolver.swift:68-88 | a key no contact claims is left as it was by the whole enumeration |
| Contacts.IndexKeepsEmailKey | Sources/iMessagePrinter/Services/ContactResolver.swift:85-87 | indexing a named contact enters each of its lowercased e-mail addresses with its name |
| Contacts.LastContactWinsEmail | Sources/iMessagePrinter/Services/ContactResolver.swift:68-88 | a shared e-mail key ends with the name of the last named contact that claims it |
| Contacts.UnclaimedEmailKept | Sources/iMessagePrinter/Services/ContactResolver.swift:68-88 | an e-mail key no contact claims is left as it was by the whole enumeration |
| Contacts.EmailResolvesToLastOwner | Sources/iMessagePrinter/Services/ContactResolver.swift:68-109 | an e-mail identifier, in any letter case, resolves to the last contact that lists that address |
| Contacts.LookupName | Sources/iMessagePrinter/Services/ContactResolver.swift:97-112 | a found name is one of the table's names; a phone identifier whose digits are a key gets that key's name; no name means the digits, or the lowercased e-mail, are not a key |
| Contacts.FormatIdentifier | Sources/iMessagePrinter/Services/ContactResolver.swift:120-129 | an identifier is changed only when it starts with "+1" and has 11 digits, and then becomes the 15-character form `+1-XXX-XXX-XXXX` |
| Contacts.AgreesTransitive | Sources/iMessagePrinter/Services/ContactResolver.swift:40-48 | a cache that agrees with an earlier one agrees with everything that one agreed with |
| Contacts.ContactResolver.constructor | Sources/iMessagePrinter/Services/ContactResolver.swift:5-9 | a new resolver has an empty cache and empty tables, and has not built them |
| Contacts.ContactResolver.DisplayName | Sources/iMessagePrinter/Services/ContactResolver.swift:40-48 | a cached name is returned as is; otherwise the lookup or the formatted identifier is returned and cached; no name the resolver gives ever changes |
| Contacts.ContactResolver.AddContact | Sources/iMessagePrinter/Services/ContactResolver.swift:69-87 | one contact adds exactly its phone and e-mail keys under its name, and nothing when it is nameless |
| Contacts.ContactResolver.IndexPhones | Sources/iMessagePrinter/Services/ContactResolver.swift:72-82 | the phone loop stores the contact's name under exactly its phone keys |
| Contacts.ContactResolver.IndexEmails | Sources/iMessagePrinter/Services/ContactResolver.swift:85-87 | the e-mail loop stores the name under exactly the lowercased addresses |
| Contacts.ContactResolver.BuildLookupTable | Sources/iMessagePrinter/Services/ContactResolver.swift:52-93 | the tables become the contacts indexed in order, and the table is marked as built |
| Reactions.EntryOfRow | Sources/iMessagePrinter/Services/ReactionAggregator.swift:14-31 | a row yields an entry exactly when it is a reaction event with a target and a glyph; the entry is a removal exactly for codes 3000–3006 |
| Reactions.UnglyphedEventDropped | Sources/iMessagePrinter/Services/ReactionAggregator.swift:15-16 | a custom-emoji event (2006/3006) without an emoji is skipped |
| Reactions.GroupCollectsEntries | Sources/iMessagePrinter/Services/ReactionAggregator.swift:12-34 | each target gets exactly its own entries, in row order, and only targets with entries appear |
| Reactions.ApplyHas | Sources/iMessagePrinter/Services/ReactionAggregator.swift:40-46 | an addition makes its sender present, a removal makes them absent, and other pairs are unaffected |
| Reactions.RemovingAbsentIsNoOp | Sources/iMessagePrinter/Services/ReactionAggregator.swift:41-42 | removing a reaction that is not there changes nothing |
| Reactions.LastEventWins | Sources/iMessagePrinter/Services/ReactionAggregator.swift:38-46 | a sender's glyph is active exactly when that pair's last event is an addition |
| Reactions.PairsSpec | Sources/iMessagePrinter/Services/ReactionAggregator.swift:49-51 | the pairs for one glyph are sorted and hold exactly the sorted senders |
| Reactions.ListForSpec | Sources/iMessagePrinter/Services/ReactionAggregator.swift:47-52 | the listing over sorted glyphs is sorted by glyph then sender and holds exactly the active pairs |
| Reactions.ListingSpec | Sources/iMessagePrinter/Services/ReactionAggregator.swift:47-52 | a listing is sorted and duplicate-free, and holds a pair exactly when it is active |
| Reactions.EmptySetsListNothing | Sources/iMessagePrinter/Services/ReactionAggregator.swift:53-55 | the listing is empty exactly when every glyph's sender set is empty |
| Reactions.DistinctCount | Sources/iMessagePrinter/Services/ReactionAggregator.swift:47-52 | each listed reaction appears exactly once |
| Reactions.AddThenRemove | Sources/iMessagePrinter/Services/ReactionAggregator.swift:40-46 | an addition followed by its removal leaves the reaction unlisted |
| Reactions.AddRemoveAdd | Sources/iMessagePrinter/Services/ReactionAggregator.swift:40-46 | adding again after a removal lists the reaction once |
| Reactions.AttachSpec | Sources/iMessagePrinter/Services/ReactionAggregator.swift:59-64 | a row id gets reactions exactly when a non-reaction row with that id has a GUID with a non-empty list; the list is that GUID's list |
| Reactions.AggregateSpecMeaning | Sources/iMessagePrinter/Services/ReactionAggregator.swift:6-67 | every attached list belongs to a content row, is the replay of that row's events, is non-empty and is sorted |
| Reactions.EmptyTargetAbsent | Sources/iMessagePrinter/Services/ReactionAggregator.swift:53-55 | a target whose replay leaves no active sender gets no entry |
| Reactions.Sender | Sources/iMessagePrinter/Services/ReactionAggregator.swift:18-25 | "Me" for own rows, the resolver's name for a known handle, else "Unknown" |
| Reactions.GroupEvents | Sources/iMessagePrinter/Services/ReactionAggregator.swift:12-34 | the event loop builds exactly the grouping `Group` |
| Reactions.RecordEvent | Sources/iMessagePrinter/Services/ReactionAggregator.swift:15-33 | one event appends its entry to its target, or is skipped |
| Reactions.ApplyAll | Sources/iMessagePrinter/Services/ReactionAggregator.swift:39-46 | the replay loop computes the fold of the entries |
| Reactions.ListReactions | Sources/iMessagePrinter/Services/ReactionAggregator.swift:47-52 | the listing loop produces exactly the sorted listing |
| Reactions.AppendPairs | Sources/iMessagePrinter/Services/ReactionAggregator.swift:49-51 | the inner loop appends one pair per sender, in order |
| Reactions.ResolveAll | Sources/iMessagePrinter/Services/ReactionAggregator.swift:37-56 | the resolve loop keeps exactly the targets with a non-empty listing |
| Reactions.AttachAll | Sources/iMessagePrinter/Services/ReactionAggregator.swift:59-64 | the attach loop builds exactly the map keyed by row id |
| Reactions.Aggregate | Sources/iMessagePrinter/Services/ReactionAggregator.swift:6-67 | `aggregate` returns `AggregateSpec` for the names at entry; the resolver's names stay as they were |
| Display.DisplayMessage.SpecialLinesHaveContent | Sources/iMessagePrinter/Models/DisplayMessage.swift:45-68 | a rename or system line always has content; a message without content has empty text and no attachments |
| Display.DisplayMessage.FormattedLogLine | Sources/iMessagePrinter/Models/DisplayMessage.swift:49-68 | a group rename line, a system line, or "sender (id) [service]: text" with the edited and unsent suffixes |
| Attachments.AttachmentRecord.ResolvedPath | Sources/iMessagePrinter/Models/AttachmentRecord.swift:36-42 | none exactly without a file name; a name not starting with `~` is returned unchanged |
| Attachments.AttachmentRecord.IsImage | Sources/iMessagePrinter/Models/AttachmentRecord.swift:27-29 | an image has a MIME type and is never also a video |
| Attachments.AttachmentRecord.IsVideo | Sources/iMessagePrinter/Models/AttachmentRecord.swift:31-33 | a video has a MIME type that is not an image type |
| Ordering.LessIrreflexive | Sources/iMessagePrinter/Services/ReactionAggregator.swift:48 | no string is below itself |
| Ordering.LessTransitive | Sources/iMessagePrinter/Services/ReactionAggregator.swift:48 | the string order is transitive |
| Ordering.LessTotal | Sources/iMessagePrinter/Services/ReactionAggregator.swift:48 | any two distinct strings are ordered |
| Ordering.SortedUnique | Sources/iMessagePrinter/Services/ReactionAggregator.swift:48-49 | two strictly sorted lists with the same elements are equal, so the sorted order is unique |
| Ordering.Least | Sources/iMessagePrinter/Services/ReactionAggregator.swift:49 | returns the least element of a non-empty set |
| Ordering.SortSet | Sources/iMessagePrinter/Services/ReactionAggregator.swift:48-49 | `sorted()` of a set is its unique strictly sorted listing |
| Strings.DigitsAppend | Sources/iMessagePrinter/Services/ContactResolver.swift:73 | filtering digits distributes over concatenation |
| Strings.HasDigitIffDigits | Sources/iMessagePrinter/Services/ContactResolver.swift:99-100 | an identifier contains a digit exactly when its digit filter is non-empty |
| Strings.TrimEnds | Sources/iMessagePrinter/Services/ContactResolver.swift:116 | a trimmed name neither starts nor ends with whitespace |
| Strings.TrimEmpty | Sources/iMessagePrinter/Services/ContactResolver.swift:116-117 | trimming gives the empty string exactly for all-whitespace input |
| Batching.ChunksFlatten | Sources/iMessagePrinter/App/AppState.swift:101-118 | the runs handed over, put together, are the whole list |
| Batching.ChunkSizes | Sources/iMessagePrinter/App/AppState.swift:101-118 | every run is non-empty and at most the batch size, and all but the last are full |
| Batching.ChunksAfterFullRuns | Sources/iMessagePrinter/App/AppState.swift:101-109 | full runs followed by more items cut into those runs and the cuts of the rest |
| Batching.FullPart | Sources/iMessagePrinter/App/AppState.swift:101-109 | the full runs before a partial batch are the list up to its length rounded down to the batch size |
| App.FilteredSpec | Sources/iMessagePrinter/App/AppState.swift:25-34 | an empty search lists everything; otherwise exactly the conversations mentioning the lowercased search, never more |
| App.FilteredConversations | Sources/iMessagePrinter/App/AppState.swift:25-34 | an empty search shows the whole list; any search shows a sub-list of listed conversations, never more of them |
| App.MatchingMembers | Sources/iMessagePrinter/App/AppState.swift:28-33 | a conversation is kept exactly when it is listed and one of its four fields contains the query |
| App.MatchingAppend | Sources/iMessagePrinter/App/AppState.swift:28 | filtering keeps list order |
| App.MatchingKeepsAll | Sources/iMessagePrinter/App/AppState.swift:28-33 | a list in which every conversation matches is kept whole |
| App.ConversationDisplayName | Sources/iMessagePrinter/App/AppState.swift:75-84 | a non-empty stored name, else the participant names joined with ", ", else the chat identifier, else "Unknown" |
| App.BuildAllSpec | Sources/iMessagePrinter/App/AppState.swift:70-110 | row k becomes entry k; without a failure every row is built; a failure is the first unbuilt row's failure |
| App.ListedConversations | Sources/iMessagePrinter/App/AppState.swift:70-99 | listed entry k comes from row k with both its queries answered; its participants are the handles' ids and their names the resolver's names; without a stored name it is titled by those names joined with ", "; a group chat exactly for style 43 |
| App.BuildAllFailureSticks | Sources/iMessagePrinter/App/AppState.swift:124-129 | once a row fails, later rows add nothing |
| App.ResolveNames | Sources/iMessagePrinter/App/AppState.swift:72-73 | the participant names, one per handle, each the resolver's name at the load's start |
| App.BuildConversation | Sources/iMessagePrinter/App/AppState.swift:71-99 | one pass of the conversation loop yields the row's entry or its query's failure |
| App.EmittedSenders | Sources/iMessagePrinter/App/AppState.swift:182-193 | shown message k keeps its row's `isFromMe`; it is "Me"/"Me" for own rows, the handle's id and that id's resolved name for a known handle, else "Unknown"/"Unknown" |
| App.ReactionSenderMatchesMessage | Sources/iMessagePrinter/Services/ReactionAggregator.swift:18-25 | a reaction row and a content row from the same author (same `isFromMe`, same handle) carry the same sender name |
| App.TextFor | Sources/iMessagePrinter/App/AppState.swift:177-180 | non-empty inline text is kept; only a missing or empty text with a body is replaced by the decoded body |
| App.MessageForSpec | Sources/iMessagePrinter/App/AppState.swift:195-242 | a built message keeps the row's id, GUID and text; it is edited or unsent exactly for a set, positive date; it has one attachment per attachment row; and it has content as `hasContent` says |
| App.ContentRowsSpec | Sources/iMessagePrinter/App/AppState.swift:172-175 | the content rows are exactly the non-reaction rows, in increasing order |
| App.EmitAllSpec | Sources/iMessagePrinter/App/AppState.swift:169-257 | each shown message is the message of a content row; without a failure the pane shows one per content row, in order, and no reaction rows |
| App.EmitAllFailureSticks | Sources/iMessagePrinter/App/AppState.swift:273-280 | once an attachment query fails, later rows add nothing |
| App.DisplayAttachments | Sources/iMessagePrinter/App/AppState.swift:195-215 | one displayed attachment per attachment row, in order |
| App.PreviewOnlyForDownloadedImages | Sources/iMessagePrinter/App/AppState.swift:199-202 | a preview is loaded exactly for a downloaded image that has a file name (transfer state 0 or 5), from its resolved path, and never for a video |
| App.RowText | Sources/iMessagePrinter/App/AppState.swift:177-180 | the text fallback computes `TextFor` |
| App.RowSender | Sources/iMessagePrinter/App/AppState.swift:182-193 | the sender branch computes the id and name `EmittedSenders` describes, resolving through the cache without changing any name |
| App.BuildMessage | Sources/iMessagePrinter/App/AppState.swift:177-242 | one pass of the message loop yields the row's message or its attachment query's failure |
| App.CancelPoint | Sources/iMessagePrinter/App/AppState.swift:170 | a load stops at the first cancellation check after it is cancelled, or runs through every row |
| App.AppState.constructor | Sources/iMessagePrinter/App/AppState.swift:6-22 | a new state has no access, no conversations, no selection, no messages, no error, zero counts and no database |
| App.AppState.LoadConversations | Sources/iMessagePrinter/App/AppState.swift:40-131 | without access nothing changes; a failure to open the database or read the handles or chat list sets the error and lists nothing; otherwise the list is the built rows (only the full runs of 50 before a failing row, with the error set) handed over as `Chunks(list, 50)`, with the counts right and loading finished; the message pane is untouched |
| App.AppState.StartConversationsLoad | Sources/iMessagePrinter/App/AppState.swift:42-46 | starting a load clears the list, the counts and the error, and sets the loading flag |
| App.AppState.StreamConversations | Sources/iMessagePrinter/App/AppState.swift:61-123 | the row loop and the flush hand over `BuildAll` in runs of 50 and set the counts |
| App.AppState.ConversationRows | Sources/iMessagePrinter/App/AppState.swift:70-110 | after the loop, the list plus the pending batch is `BuildAll`, with only full runs handed over |
| App.AppState.ConversationRow | Sources/iMessagePrinter/App/AppState.swift:71-109 | one pass adds the row's entry to the batch and hands over a run of 50 when full |
| App.AppState.AppendConversations | Sources/iMessagePrinter/App/AppState.swift:104-107 | a hand-over appends the run and sets the loaded count |
| App.AppState.ReportConversationsFailure | Sources/iMessagePrinter/App/AppState.swift:124-128 | a failure sets "Failed to load conversations: " and the reason, and ends loading |
| App.AppState.FinishConversations | Sources/iMessagePrinter/App/AppState.swift:112-123 | the final flush appends the partial batch; the runs stay `Chunks(list, 50)` and the loaded count is the list's length |
| App.AppState.LoadMessages | Sources/iMessagePrinter/App/AppState.swift:133-282 | without a database nothing changes; a failing query sets the error; a cancellation found right after the fetch leaves the pane empty with no total; otherwise the total is the row count and the pane shows `EmitAll` of the rows before the row at which the load is found cancelled (row 0 included, after the reactions are aggregated), in runs of 200. A failure or a cancellation keeps only the full runs already handed over; a cancellation is silent and leaves loading set; the list is untouched |
| App.AppState.StartMessagesLoad | Sources/iMessagePrinter/App/AppState.swift:139-143 | starting a load selects the conversation, clears the pane and its counts, and sets the loading flag |
| App.AppState.StreamMessages | Sources/iMessagePrinter/App/AppState.swift:164-272 | the row loop, the final check and the flush hand over `EmitAll` in runs of 200 with the outcome and counts of each ending |
| App.AppState.MessageRows | Sources/iMessagePrinter/App/AppState.swift:169-257 | after the loop, the pane plus the pending batch is `EmitAll` of the rows processed |
| App.AppState.MessageRow | Sources/iMessagePrinter/App/AppState.swift:170-256 | one pass skips a reaction row or adds the row's message, and hands over a run of 200 when full |
| App.AppState.PushMessage | Sources/iMessagePrinter/App/AppState.swift:244-256 | appending a message keeps the hand-over invariant and sets the loaded count to the rows processed |
| App.AppState.AppendMessages | Sources/iMessagePrinter/App/AppState.swift:251-254 | a hand-over appends the run and sets the loaded count |
| App.AppState.ReportMessagesFailure | Sources/iMessagePrinter/App/AppState.swift:275-279 | a failure sets "Failed to load messages: " and the reason, and ends loading |
| App.AppState.FinishMessages | Sources/iMessagePrinter/App/AppState.swift:261-272 | the final flush appends the partial batch; the runs stay `Chunks(pane, 200)` and the loaded count is the pane's length |

## Left out

- The database layer (`DatabaseService.swift`) is not part of this model. Each query is a field of the `DatabaseService` value and answers `Fetched` or `Failed`. The SQL, the file opening and the column decoding are not modelled.
- `NSUnarchiver`, UTF-8 decoding, `NSString.expandingTildeInPath` and `ByteCountFormatter` are foreign code. They are function parameters (`Foreign`, `ResolvedPath`'s `expandTilde`), so `formattedSize` is not modelled beyond calling the parameter.
- `NSImage` decoding of attachment previews is left out: it is file I/O. The preview is modelled as the path it would be loaded from (`previewPath`).
- `DateFormatting` is not part of this model: dates stay raw Apple timestamps, and the log line takes its timestamp text as a parameter.
- Concurrency: the detached tasks and the `MainActor` hops run as one sequential loop. Task cancellation is given by parameters: for a message load, `cancelledAtFetch` is the check right after the rows are fetched, and `cancelAt` the row count at which the per-row check (or the final check) first finds the load cancelled. `messageLoadTask` is not modelled.
- Contacts authorisation (`CNContactStore`, `ensureAccess`, `hasAccess`, the resolver's `init`) is left out because it is a system service. The address book is given as a sequence of contacts. A failing enumeration is not modelled, so BuildLookupTable always marks the table as built.
- `checkAccess` and `FullDiskAccessChecker` are left out because they query the system. `hasFullDiskAccess` is a field the caller sets.
- `exportPDF` and `PDFExportService` are left out: they need a save panel and PDF rendering. The views are user interface and are left out as well.
- Character classes are ASCII only: `isNumber`, `lowercased()` and the `.whitespaces` set are not Unicode-aware in the model.
- Swift's `String` `<` is modelled as lexicographic order on characters. Swift compares by Unicode canonical ordering, and the two agree only on normalised text.
- `MessageRecord` is hashed and compared by `rowID`. The attached map is therefore keyed by row id, and a later row with the same id overwrites an earlier one.
- String equality, hashing, `hasPrefix` and `contains` compare sequences of characters. Swift compares strings by canonical equivalence, so keys of the name cache, `phoneLookup`, `emailLookup` and `reactionsByGUID` that differ only in Unicode normalisation are distinct in the model.
- `loadConversations` awaits `ensureAccess` after the handles are fetched, and that call may build the lookup table while the load runs. This is not modelled: a load resolves every name with the resolver's names as they stood when it began.
- `ContactDisplayName` joins the names with a space and trims spaces and tabs. It does not model other Unicode whitespace.
