/**
 * `ReactionAggregator.aggregate` (Services/ReactionAggregator.swift): the
 * reaction rows of a conversation are grouped by the message they point at,
 * each group's adds and removals are replayed in order, the surviving
 * (glyph, sender) pairs are listed sorted by glyph and then by sender, and
 * the lists are attached to the content rows by row id.
 */
module Reactions {
  import opened Wrappers
  import opened Ordering
  import opened Messages
  import opened Contacts

  /** One reaction shown under a message. */
  datatype Reaction = Reaction(emoji: string, senderName: string)

  /** One add or removal event, as recorded for its target. */
  datatype Entry = Entry(emoji: string, senderName: string, isRemoval: bool)

  /** The glyph-to-senders table of one target while its events are replayed. */
  type Active = map<string, set<string>>

  // ---------------------------------------------------------------------------
  // Collecting the events

  /**
   * Who reacted: `Me` for the owner's own rows, else the resolved name of
   * the row's handle, else `Unknown` when the handle is not in the table.
   */
  function SenderName(msg: MessageRecord, handleMap: map<int, HandleRecord>, names: Naming): string
  {
    if msg.isFromMe then "Me"
    else if msg.handleID in handleMap then names.Name(handleMap[msg.handleID].id)
    else "Unknown"
  }

  /**
   * The target and the entry a row contributes: only reaction rows with a
   * target GUID and a glyph contribute one.
   */
  function EntryOf(msg: MessageRecord, handleMap: map<int, HandleRecord>, names: Naming): Option<(string, Entry)>
  {
    if !msg.IsReactionEvent() then None
    else
      match (msg.TargetMessageGUID(), msg.ReactionType())
      case (Some(target), Some(emoji)) =>
        Some((target, Entry(emoji, SenderName(msg, handleMap, names), msg.IsReactionRemoval())))
      case _ => None
  }

  /** What a row contributes and under which target, in terms of the row's own properties. */
  lemma EntryOfRow(msg: MessageRecord, handleMap: map<int, HandleRecord>, names: Naming)
    ensures EntryOf(msg, handleMap, names).Some? <==>
              msg.IsReactionEvent() && msg.TargetMessageGUID().Some? && msg.ReactionType().Some?
    ensures EntryOf(msg, handleMap, names).Some? ==>
              var (target, e) := EntryOf(msg, handleMap, names).value;
              target == msg.TargetMessageGUID().value && e.emoji == msg.ReactionType().value &&
              (e.isRemoval <==> 3000 <= msg.associatedMessageType <= 3006) &&
              (msg.isFromMe ==> e.senderName == "Me") &&
              (!msg.isFromMe && msg.handleID !in handleMap ==> e.senderName == "Unknown")
  {
  }

  /** An event with code 2006 or 3006 and no explicit emoji has no glyph and is dropped. */
  lemma UnglyphedEventDropped(msg: MessageRecord, handleMap: map<int, HandleRecord>, names: Naming)
    requires msg.associatedMessageType == 2006 || msg.associatedMessageType == 3006
    requires msg.associatedMessageEmoji.None? || msg.associatedMessageEmoji.value == []
    ensures EntryOf(msg, handleMap, names).None?
  {
  }

  /** One row's contribution to `reactionsByGUID`: its entry appended under its target. */
  function Record(grouped: map<string, seq<Entry>>, msg: MessageRecord, handleMap: map<int, HandleRecord>, names: Naming): map<string, seq<Entry>>
  {
    match EntryOf(msg, handleMap, names)
    case None => grouped
    case Some((target, e)) => grouped[target := (if target in grouped then grouped[target] else []) + [e]]
  }

  /**
   * `reactionsByGUID`: each target's entries in the order of the rows
   * (phase one of `aggregate`).
   */
  function Group(messages: seq<MessageRecord>, handleMap: map<int, HandleRecord>, names: Naming): map<string, seq<Entry>>
  {
    if messages == [] then map[]
    else Record(Group(messages[..|messages| - 1], handleMap, names), messages[|messages| - 1], handleMap, names)
  }

  /** The entries aimed at `target`, one per contributing row, in row order. */
  function EntriesFor(messages: seq<MessageRecord>, handleMap: map<int, HandleRecord>, names: Naming, target: string): seq<Entry>
  {
    if messages == [] then []
    else
      var before := EntriesFor(messages[..|messages| - 1], handleMap, names, target);
      match EntryOf(messages[|messages| - 1], handleMap, names)
      case Some((t, e)) => if t == target then before + [e] else before
      case None => before
  }

  /** The grouping holds, for every target, exactly the entries aimed at it; no other target appears. */
  lemma {:induction false} GroupCollectsEntries(messages: seq<MessageRecord>, handleMap: map<int, HandleRecord>, names: Naming, target: string)
    ensures target in Group(messages, handleMap, names) <==> EntriesFor(messages, handleMap, names, target) != []
    ensures target in Group(messages, handleMap, names) ==>
              Group(messages, handleMap, names)[target] == EntriesFor(messages, handleMap, names, target)
  {
    if messages != [] {
      GroupCollectsEntries(messages[..|messages| - 1], handleMap, names, target);
    }
  }

  // ---------------------------------------------------------------------------
  // Replaying one target's events

  /**
   * One event: an add inserts the sender under the glyph, creating the
   * glyph's set if needed; a removal deletes it from the glyph's set, if the
   * glyph has one.
   */
  function Apply(active: Active, e: Entry): Active
  {
    if e.isRemoval then
      if e.emoji in active then active[e.emoji := active[e.emoji] - {e.senderName}] else active
    else
      active[e.emoji := (if e.emoji in active then active[e.emoji] else {}) + {e.senderName}]
  }

  /** The table after the entries are applied in order to an empty one. */
  function Fold(entries: seq<Entry>): Active
  {
    if entries == [] then map[] else Apply(Fold(entries[..|entries| - 1]), entries[|entries| - 1])
  }

  /** `sender` currently reacts with `glyph`. */
  predicate Has(active: Active, glyph: string, sender: string) {
    glyph in active && sender in active[glyph]
  }

  /** An event about the same glyph and sender. */
  predicate About(e: Entry, glyph: string, sender: string) {
    e.emoji == glyph && e.senderName == sender
  }

  /** An event decides its own (glyph, sender) pair and leaves every other pair as it was. */
  lemma ApplyHas(active: Active, e: Entry, glyph: string, sender: string)
    ensures Has(Apply(active, e), glyph, sender) <==>
              if About(e, glyph, sender) then !e.isRemoval else Has(active, glyph, sender)
  {
  }

  /** Removing a sender that does not react with the glyph, or a glyph nobody used, changes nothing. */
  lemma RemovingAbsentIsNoOp(active: Active, glyph: string, sender: string)
    requires !Has(active, glyph, sender)
    ensures Apply(active, Entry(glyph, sender, true)) == active
  {
    if glyph in active {
      assert active[glyph] - {sender} == active[glyph];
    }
  }

  /** No event after position `i` is about the pair. */
  predicate QuietAfter(entries: seq<Entry>, i: nat, glyph: string, sender: string) {
    forall j :: i < j < |entries| ==> !About(entries[j], glyph, sender)
  }

  /** The last event about the pair exists and is an add. */
  predicate LastIsAdd(entries: seq<Entry>, glyph: string, sender: string) {
    exists i :: 0 <= i < |entries| && About(entries[i], glyph, sender) && !entries[i].isRemoval &&
      QuietAfter(entries, i, glyph, sender)
  }

  /** An event about the pair at the end decides whether the last one is an add. */
  lemma LastIsAddAtEnd(entries: seq<Entry>, glyph: string, sender: string)
    requires entries != [] && About(entries[|entries| - 1], glyph, sender)
    ensures LastIsAdd(entries, glyph, sender) <==> !entries[|entries| - 1].isRemoval
  {
    var n := |entries| - 1;
    if !entries[n].isRemoval {
      assert QuietAfter(entries, n, glyph, sender);
    }
  }

  /** An event about another pair at the end does not change which event about the pair is last. */
  lemma LastIsAddPast(entries: seq<Entry>, glyph: string, sender: string)
    requires entries != [] && !About(entries[|entries| - 1], glyph, sender)
    ensures LastIsAdd(entries, glyph, sender) <==> LastIsAdd(entries[..|entries| - 1], glyph, sender)
  {
    if LastIsAdd(entries[..|entries| - 1], glyph, sender) {
      LastIsAddExtends(entries, glyph, sender);
    }
    if LastIsAdd(entries, glyph, sender) {
      LastIsAddShrinks(entries, glyph, sender);
    }
  }

  lemma LastIsAddExtends(entries: seq<Entry>, glyph: string, sender: string)
    requires entries != [] && !About(entries[|entries| - 1], glyph, sender)
    requires LastIsAdd(entries[..|entries| - 1], glyph, sender)
    ensures LastIsAdd(entries, glyph, sender)
  {
    var n := |entries| - 1;
    var front := entries[..n];
    var i :| 0 <= i < n && About(front[i], glyph, sender) && !front[i].isRemoval && QuietAfter(front, i, glyph, sender);
    forall j | i < j < |entries|
      ensures !About(entries[j], glyph, sender)
    {
      if j < n {
        assert entries[j] == front[j];
      }
    }
    assert entries[i] == front[i];
  }

  lemma LastIsAddShrinks(entries: seq<Entry>, glyph: string, sender: string)
    requires entries != [] && !About(entries[|entries| - 1], glyph, sender)
    requires LastIsAdd(entries, glyph, sender)
    ensures LastIsAdd(entries[..|entries| - 1], glyph, sender)
  {
    var n := |entries| - 1;
    var front := entries[..n];
    var i :| 0 <= i < |entries| && About(entries[i], glyph, sender) && !entries[i].isRemoval &&
             QuietAfter(entries, i, glyph, sender);
    forall j | i < j < n
      ensures !About(front[j], glyph, sender)
    {
      assert front[j] == entries[j];
    }
    assert front[i] == entries[i];
  }

  /**
   * The last event wins: after replaying `entries`, a sender reacts with a
   * glyph exactly when the last event about that pair is an add.
   */
  lemma {:induction false} LastEventWins(entries: seq<Entry>, glyph: string, sender: string)
    ensures Has(Fold(entries), glyph, sender) <==> LastIsAdd(entries, glyph, sender)
  {
    if entries != [] {
      var n := |entries| - 1;
      LastEventWins(entries[..n], glyph, sender);
      ApplyHas(Fold(entries[..n]), entries[n], glyph, sender);
      if About(entries[n], glyph, sender) {
        LastIsAddAtEnd(entries, glyph, sender);
      } else {
        LastIsAddPast(entries, glyph, sender);
      }
    }
  }

  // ---------------------------------------------------------------------------
  // Listing the survivors

  /** The order of the listing: by glyph, then by sender. */
  predicate ReactionLess(a: Reaction, b: Reaction) {
    Less(a.emoji, b.emoji) || (a.emoji == b.emoji && Less(a.senderName, b.senderName))
  }

  predicate SortedReactions(rs: seq<Reaction>) {
    forall i, j :: 0 <= i < j < |rs| ==> ReactionLess(rs[i], rs[j])
  }

  /** One glyph's senders, in the given order. */
  function Pairs(glyph: string, senders: seq<string>): (rs: seq<Reaction>)
    ensures |rs| == |senders|
  {
    seq(|senders|, i requires 0 <= i < |senders| => Reaction(glyph, senders[i]))
  }

  /** The reactions of the glyphs `keys`, each glyph's senders sorted. */
  ghost function ListFor(active: Active, keys: seq<string>): seq<Reaction>
    requires forall k :: k in keys ==> k in active
  {
    if keys == [] then []
    else
      var n := |keys| - 1;
      ListFor(active, keys[..n]) + Pairs(keys[n], SortedOf(active[keys[n]]))
  }

  /** The loop over `active.sorted(by: key)` and each `senders.sorted()`. */
  ghost function Listing(active: Active): seq<Reaction>
  {
    ListFor(active, SortedOf(active.Keys))
  }

  /** What one target ends up showing. */
  ghost function ReactionsOf(entries: seq<Entry>): seq<Reaction>
  {
    Listing(Fold(entries))
  }

  lemma PairsSpec(glyph: string, senders: seq<string>)
    requires StrictlySorted(senders)
    ensures SortedReactions(Pairs(glyph, senders))
    ensures forall r :: r in Pairs(glyph, senders) <==> r.emoji == glyph && r.senderName in senders
  {
    var ps := Pairs(glyph, senders);
    forall r: Reaction | r.emoji == glyph && r.senderName in senders
      ensures r in ps
    {
      var i :| 0 <= i < |senders| && senders[i] == r.senderName;
      assert ps[i] == r;
    }
  }

  lemma SortedConcat(a: seq<Reaction>, b: seq<Reaction>)
    requires SortedReactions(a) && SortedReactions(b)
    requires forall x, y :: x in a && y in b ==> ReactionLess(x, y)
    ensures SortedReactions(a + b)
  {
    var ab := a + b;
    forall i, j | 0 <= i < j < |ab|
      ensures ReactionLess(ab[i], ab[j])
    {
      if j < |a| {
        assert ab[i] == a[i] && ab[j] == a[j];
      } else if i >= |a| {
        assert ab[i] == b[i - |a|] && ab[j] == b[j - |a|];
      } else {
        assert ab[i] == a[i] && ab[j] == b[j - |a|];
      }
    }
  }

  lemma {:induction false} ListForSpec(active: Active, keys: seq<string>)
    requires StrictlySorted(keys) && forall k :: k in keys ==> k in active
    ensures SortedReactions(ListFor(active, keys))
    ensures forall r :: r in ListFor(active, keys) <==> r.emoji in keys && r.senderName in active[r.emoji]
  {
    if keys != [] {
      var n := |keys| - 1;
      var front := keys[..n];
      var last := keys[n];
      assert StrictlySorted(front);
      ListForSpec(active, front);
      var senders := SortedOf(active[last]);
      PairsSpec(last, senders);
      forall x, y | x in ListFor(active, front) && y in Pairs(last, senders)
        ensures ReactionLess(x, y)
      {
        var i :| 0 <= i < n && front[i] == x.emoji;
        assert keys[i] == x.emoji;
      }
      SortedConcat(ListFor(active, front), Pairs(last, senders));
      forall r
        ensures r in ListFor(active, keys) <==> r.emoji in keys && r.senderName in active[r.emoji]
      {
        if r.emoji in keys && r.emoji != last {
          var i :| 0 <= i < |keys| && keys[i] == r.emoji;
          assert front[i] == r.emoji;
        }
      }
    }
  }

  /**
   * The listing is strictly sorted by glyph and then sender, so no pair
   * appears twice, and it holds exactly the pairs in the table.
   */
  lemma ListingSpec(active: Active)
    ensures SortedReactions(Listing(active))
    ensures forall r :: r in Listing(active) <==> Has(active, r.emoji, r.senderName)
    ensures forall i, j :: 0 <= i < j < |Listing(active)| ==> Listing(active)[i] != Listing(active)[j]
  {
    var keys := SortedOf(active.Keys);
    ListForSpec(active, keys);
    var rs := Listing(active);
    forall i, j | 0 <= i < j < |rs|
      ensures rs[i] != rs[j]
    {
      LessIrreflexive(rs[i].emoji);
      LessIrreflexive(rs[i].senderName);
    }
  }

  /** A table whose sets are all empty lists nothing. */
  lemma EmptySetsListNothing(active: Active)
    ensures Listing(active) == [] <==> forall glyph :: glyph in active ==> active[glyph] == {}
  {
    ListingSpec(active);
    if Listing(active) != [] {
      var r := Listing(active)[0];
      assert Has(active, r.emoji, r.senderName);
    } else {
      forall glyph | glyph in active
        ensures active[glyph] == {}
      {
        assert forall s :: s in active[glyph] ==> Reaction(glyph, s) in Listing(active);
      }
    }
  }

  lemma {:induction false} DistinctCount(rs: seq<Reaction>, x: Reaction)
    requires forall i, j :: 0 <= i < j < |rs| ==> rs[i] != rs[j]
    requires x in rs
    ensures multiset(rs)[x] == 1
  {
    var n := |rs| - 1;
    assert rs == rs[..n] + [rs[n]];
    if rs[n] == x {
      assert x !in rs[..n];
    } else {
      DistinctCount(rs[..n], x);
    }
  }

  /** Adding and then removing the same reaction leaves no such reaction. */
  lemma AddThenRemove(entries: seq<Entry>, glyph: string, sender: string)
    ensures Reaction(glyph, sender) !in ReactionsOf(entries + [Entry(glyph, sender, false), Entry(glyph, sender, true)])
  {
    var es := entries + [Entry(glyph, sender, false), Entry(glyph, sender, true)];
    assert es[..|es| - 1] == entries + [Entry(glyph, sender, false)];
    assert (entries + [Entry(glyph, sender, false)])[..|es| - 2] == entries;
    ListingSpec(Fold(es));
  }

  /** Adding, removing and adding again the same reaction leaves it listed exactly once. */
  lemma AddRemoveAdd(entries: seq<Entry>, glyph: string, sender: string)
    ensures var es := entries + [Entry(glyph, sender, false), Entry(glyph, sender, true), Entry(glyph, sender, false)];
            multiset(ReactionsOf(es))[Reaction(glyph, sender)] == 1
  {
    var es := entries + [Entry(glyph, sender, false), Entry(glyph, sender, true), Entry(glyph, sender, false)];
    assert es[..|es| - 1] == entries + [Entry(glyph, sender, false), Entry(glyph, sender, true)];
    ListingSpec(Fold(es));
    DistinctCount(ReactionsOf(es), Reaction(glyph, sender));
  }

  // ---------------------------------------------------------------------------
  // The result

  /** Every target's list, empty or not. */
  ghost function Lists(grouped: map<string, seq<Entry>>): map<string, seq<Reaction>>
  {
    map target | target in grouped :: ReactionsOf(grouped[target])
  }

  /** The targets of `done` whose list is not empty, with their lists. */
  function NonEmptyAmong(lists: map<string, seq<Reaction>>, done: set<string>): map<string, seq<Reaction>>
  {
    map target | target in lists && target in done && lists[target] != [] :: lists[target]
  }

  /** `result`: the targets that end up with at least one reaction, and their lists. */
  ghost function Resolved(grouped: map<string, seq<Entry>>): map<string, seq<Reaction>>
  {
    NonEmptyAmong(Lists(grouped), grouped.Keys)
  }

  /** `messageReactions`: each content row whose GUID has reactions, keyed by its row id. */
  function Attach(messages: seq<MessageRecord>, result: map<string, seq<Reaction>>): map<int, seq<Reaction>>
  {
    if messages == [] then map[]
    else
      var attached := Attach(messages[..|messages| - 1], result);
      var msg := messages[|messages| - 1];
      if !msg.IsReactionEvent() && msg.guid in result then attached[msg.rowID := result[msg.guid]] else attached
  }

  /** What `aggregate` returns when the resolver names identifiers as `names` does. */
  ghost function AggregateSpec(messages: seq<MessageRecord>, handleMap: map<int, HandleRecord>, names: Naming): map<int, seq<Reaction>>
  {
    Attach(messages, Resolved(Group(messages, handleMap, names)))
  }

  /** Row `i` is a content row with id `id` whose GUID has reactions. */
  predicate Carries(messages: seq<MessageRecord>, result: map<string, seq<Reaction>>, i: int, id: int) {
    0 <= i < |messages| && messages[i].rowID == id && !messages[i].IsReactionEvent() && messages[i].guid in result
  }

  /**
   * The result has a key only for the row id of a content row whose GUID
   * has reactions, and holds that GUID's reactions; events aimed at a GUID
   * no content row has are dropped.
   */
  lemma {:induction false} AttachSpec(messages: seq<MessageRecord>, result: map<string, seq<Reaction>>, id: int)
    ensures id in Attach(messages, result) <==> exists i :: Carries(messages, result, i, id)
    ensures id in Attach(messages, result) ==>
              exists i :: Carries(messages, result, i, id) && Attach(messages, result)[id] == result[messages[i].guid]
  {
    if messages != [] {
      var n := |messages| - 1;
      var front := messages[..n];
      AttachSpec(front, result, id);
      if Carries(messages, result, n, id) {
        assert Attach(messages, result)[id] == result[messages[n].guid];
      } else {
        assert id in Attach(messages, result) <==> id in Attach(front, result);
        if id in Attach(front, result) {
          var i :| Carries(front, result, i, id) && Attach(front, result)[id] == result[front[i].guid];
          assert Carries(messages, result, i, id);
          assert Attach(messages, result)[id] == Attach(front, result)[id];
        }
        if exists i :: Carries(messages, result, i, id) {
          var i :| Carries(messages, result, i, id);
          assert Carries(front, result, i, id);
        }
      }
    }
  }

  /**
   * A row's list, once attached, is the listing of every event aimed at its
   * GUID; it is never empty, sorted by glyph and then sender, and holds
   * exactly the pairs whose last event is an add.
   */
  lemma AggregateSpecMeaning(messages: seq<MessageRecord>, handleMap: map<int, HandleRecord>, names: Naming, id: int)
    requires id in AggregateSpec(messages, handleMap, names)
    ensures exists i :: 0 <= i < |messages| && messages[i].rowID == id && !messages[i].IsReactionEvent() &&
              AggregateSpec(messages, handleMap, names)[id] == ReactionsOf(EntriesFor(messages, handleMap, names, messages[i].guid))
    ensures AggregateSpec(messages, handleMap, names)[id] != []
    ensures SortedReactions(AggregateSpec(messages, handleMap, names)[id])
  {
    var grouped := Group(messages, handleMap, names);
    var result := Resolved(grouped);
    AttachSpec(messages, result, id);
    var i :| Carries(messages, result, i, id) && Attach(messages, result)[id] == result[messages[i].guid];
    var g := messages[i].guid;
    GroupCollectsEntries(messages, handleMap, names, g);
    ListingSpec(Fold(grouped[g]));
  }

  /** A content row gets no entry when every glyph's sender set for its GUID ends up empty. */
  lemma EmptyTargetAbsent(messages: seq<MessageRecord>, handleMap: map<int, HandleRecord>, names: Naming, target: string)
    requires forall glyph :: glyph in Fold(EntriesFor(messages, handleMap, names, target)) ==>
               Fold(EntriesFor(messages, handleMap, names, target))[glyph] == {}
    ensures target !in Resolved(Group(messages, handleMap, names))
  {
    GroupCollectsEntries(messages, handleMap, names, target);
    EmptySetsListNothing(Fold(EntriesFor(messages, handleMap, names, target)));
  }

  // ---------------------------------------------------------------------------
  // The method

  /** The sender of a reaction row, asking the resolver when the row has a known handle. */
  method Sender(msg: MessageRecord, handleMap: map<int, HandleRecord>, resolver: ContactResolver) returns (name: string)
    modifies resolver
    ensures name == SenderName(msg, handleMap, old(resolver.Names()))
    ensures resolver.Names().Agrees(old(resolver.Names()))
  {
    if msg.isFromMe {
      name := "Me";
    } else if msg.handleID in handleMap {
      name := resolver.DisplayName(handleMap[msg.handleID].id);
    } else {
      name := "Unknown";
    }
  }

  /** Phase one: group the events by target, in row order. */
  method GroupEvents(messages: seq<MessageRecord>, handleMap: map<int, HandleRecord>, resolver: ContactResolver)
    returns (reactionsByGUID: map<string, seq<Entry>>)
    modifies resolver
    ensures reactionsByGUID == Group(messages, handleMap, old(resolver.Names()))
    ensures resolver.Names().Agrees(old(resolver.Names()))
  {
    ghost var names := resolver.Names();
    reactionsByGUID := map[];
    for i := 0 to |messages|
      invariant reactionsByGUID == Group(messages[..i], handleMap, names)
      invariant resolver.Names().Agrees(names)
    {
      assert messages[..i + 1][..i] == messages[..i];
      reactionsByGUID := RecordEvent(reactionsByGUID, messages[i], handleMap, resolver, names);
    }
    assert messages[..|messages|] == messages;
  }

  /** The body of the first loop of `aggregate`, for one row. */
  method RecordEvent(grouped: map<string, seq<Entry>>, msg: MessageRecord, handleMap: map<int, HandleRecord>,
                     resolver: ContactResolver, ghost names: Naming)
    returns (reactionsByGUID: map<string, seq<Entry>>)
    requires resolver.Names().Agrees(names)
    modifies resolver
    ensures reactionsByGUID == Record(grouped, msg, handleMap, names)
    ensures resolver.Names().Agrees(names)
  {
    reactionsByGUID := grouped;
    if msg.IsReaction() || msg.IsReactionRemoval() {
      var target := msg.TargetMessageGUID();
      var emoji := msg.ReactionType();
      if target.Some? && emoji.Some? {
        var senderName := Sender(msg, handleMap, resolver);
        var entry := Entry(emoji.value, senderName, msg.IsReactionRemoval());
        var existing := if target.value in reactionsByGUID then reactionsByGUID[target.value] else [];
        reactionsByGUID := reactionsByGUID[target.value := existing + [entry]];
      }
    }
  }

  /** Replays one target's events on an empty table. */
  method ApplyAll(entries: seq<Entry>) returns (active: Active)
    ensures active == Fold(entries)
  {
    active := map[];
    for i := 0 to |entries|
      invariant active == Fold(entries[..i])
    {
      var entry := entries[i];
      assert entries[..i + 1][..i] == entries[..i];
      if entry.isRemoval {
        if entry.emoji in active {
          active := active[entry.emoji := active[entry.emoji] - {entry.senderName}];
        }
      } else {
        var senders := if entry.emoji in active then active[entry.emoji] else {};
        active := active[entry.emoji := senders + {entry.senderName}];
      }
    }
    assert entries[..|entries|] == entries;
  }

  /** Lists the table's reactions, glyphs in order and each glyph's senders in order. */
  method ListReactions(active: Active) returns (reactions: seq<Reaction>)
    ensures reactions == Listing(active)
  {
    var keys := SortSet(active.Keys);
    reactions := [];
    for i := 0 to |keys|
      invariant reactions == ListFor(active, keys[..i])
    {
      var emoji := keys[i];
      var senders := SortSet(active[emoji]);
      ListForStep(active, keys, i);
      reactions := AppendPairs(reactions, emoji, senders);
    }
    assert keys[..|keys|] == keys;
  }

  lemma ListForStep(active: Active, keys: seq<string>, i: nat)
    requires i < |keys| && forall k :: k in keys ==> k in active
    ensures ListFor(active, keys[..i + 1]) == ListFor(active, keys[..i]) + Pairs(keys[i], SortedOf(active[keys[i]]))
  {
    assert keys[..i + 1][..i] == keys[..i];
  }

  /** The inner loop: one glyph's senders, appended in order. */
  method AppendPairs(reactions: seq<Reaction>, emoji: string, senders: seq<string>) returns (r: seq<Reaction>)
    ensures r == reactions + Pairs(emoji, senders)
  {
    r := reactions;
    for j := 0 to |senders|
      invariant r == reactions + Pairs(emoji, senders[..j])
    {
      assert Pairs(emoji, senders[..j + 1]) == Pairs(emoji, senders[..j]) + [Reaction(emoji, senders[j])];
      r := r + [Reaction(emoji, senders[j])];
    }
    assert senders[..|senders|] == senders;
  }

  lemma NonEmptyAmongStep(lists: map<string, seq<Reaction>>, done: set<string>, guid: string)
    requires guid in lists
    ensures NonEmptyAmong(lists, done + {guid}) ==
              if lists[guid] != [] then NonEmptyAmong(lists, done)[guid := lists[guid]] else NonEmptyAmong(lists, done)
  {
    var after := NonEmptyAmong(lists, done + {guid});
    var before := NonEmptyAmong(lists, done);
    var expected := if lists[guid] != [] then before[guid := lists[guid]] else before;
    assert after.Keys == expected.Keys;
  }

  /** Moving one element from the remaining part of `all` to its done part. */
  lemma MoveToDone<T>(all: set<T>, remaining: set<T>, done: set<T>, x: T)
    requires remaining <= all && done == all - remaining && x in remaining
    ensures done + {x} == all - (remaining - {x})
  {
  }

  /** Phase two: resolve every target, keeping those left with reactions. */
  method ResolveAll(reactionsByGUID: map<string, seq<Entry>>) returns (result: map<string, seq<Reaction>>)
    ensures result == Resolved(reactionsByGUID)
  {
    result := map[];
    var remaining := reactionsByGUID.Keys;
    ghost var lists := Lists(reactionsByGUID);
    ghost var done: set<string> := {};
    while remaining != {}
      invariant remaining <= reactionsByGUID.Keys && done == reactionsByGUID.Keys - remaining
      invariant result == NonEmptyAmong(lists, done)
      decreases remaining
    {
      var guid :| guid in remaining;
      var active := ApplyAll(reactionsByGUID[guid]);
      var reactions := ListReactions(active);
      assert reactions == lists[guid];
      NonEmptyAmongStep(lists, done, guid);
      if reactions != [] {
        result := result[guid := reactions];
      }
      MoveToDone(reactionsByGUID.Keys, remaining, done, guid);
      remaining := remaining - {guid};
      done := done + {guid};
    }
    assert done == reactionsByGUID.Keys;
  }

  /** Phase three: attach the lists to the content rows, keyed by row id. */
  method AttachAll(messages: seq<MessageRecord>, result: map<string, seq<Reaction>>) returns (messageReactions: map<int, seq<Reaction>>)
    ensures messageReactions == Attach(messages, result)
  {
    messageReactions := map[];
    for i := 0 to |messages|
      invariant messageReactions == Attach(messages[..i], result)
    {
      var msg := messages[i];
      assert messages[..i + 1][..i] == messages[..i];
      if !msg.IsReaction() && !msg.IsReactionRemoval() {
        if msg.guid in result {
          messageReactions := messageReactions[msg.rowID := result[msg.guid]];
        }
      }
    }
    assert messages[..|messages|] == messages;
  }

  /**
   * `aggregate`: the reactions of each content row, computed with the names
   * the resolver gave on entry; the resolver may cache more names but gives
   * every identifier the same one as before.
   */
  method Aggregate(messages: seq<MessageRecord>, handleMap: map<int, HandleRecord>, resolver: ContactResolver)
    returns (messageReactions: map<int, seq<Reaction>>)
    modifies resolver
    ensures messageReactions == AggregateSpec(messages, handleMap, old(resolver.Names()))
    ensures resolver.Names().Agrees(old(resolver.Names()))
  {
    var reactionsByGUID := GroupEvents(messages, handleMap, resolver);
    var result := ResolveAll(reactionsByGUID);
    messageReactions := AttachAll(messages, result);
  }
}
