/**
 * The list of people the signed-in user has exchanged messages with: one entry per
 * counterpart, in order of the newest message with them, built from the user's messages
 * newest first.
 */
module ConversationList {
  import opened Wrappers
  import Seqs

  /**
   * A fetched message: who sent it, who received it, and the names of their profiles. The
   * query joins only the sender's profile, so the program can read only `senderName`;
   * `receiverName` is what joining the receiver's profile would give, and only the
   * corrected list below reads it.
   */
  datatype MessageRow = MessageRow(senderId: string, receiverId: string, senderName: string, receiverName: string)

  /** An entry of the list. */
  datatype Conversation = Conversation(id: string, fullName: string)

  /** The other party of a message: the receiver if the user sent it, else the sender. */
  function Counterpart(user: string, m: MessageRow): (id: string)
    ensures m.senderId == user ==> id == m.receiverId
    ensures m.senderId != user ==> id == m.senderId
  {
    if m.senderId == user then m.receiverId else m.senderId
  }

  function CounterpartOf(user: string): MessageRow -> string
  {
    m => Counterpart(user, m)
  }

  /**
   * The entry the loop records for a message, as written: the counterpart's id with the
   * sender's profile name. It agrees with the corrected entry on the id always, and on the
   * name only for a message the user received.
   */
  function EntryAsWritten(user: string, m: MessageRow): (c: Conversation)
    ensures c.id == Entry(user, m).id
    ensures c.fullName == m.senderName
    ensures m.senderId != user ==> c == Entry(user, m)
  {
    Conversation(Counterpart(user, m), m.senderName)
  }

  /** The entry for a message, named after the counterpart whose id it carries. */
  function Entry(user: string, m: MessageRow): (c: Conversation)
    ensures c.id == Counterpart(user, m)
    ensures c.fullName == (if m.senderId == user then m.receiverName else m.senderName)
  {
    if m.senderId == user then Conversation(m.receiverId, m.receiverName)
    else Conversation(m.senderId, m.senderName)
  }

  /**
   * The list as written: one entry per counterpart, from its newest message, named by that
   * message's sender. It has the corrected list's entries, ids and order; only names differ.
   */
  function ConversationsAsWritten(user: string, messages: seq<MessageRow>): (r: seq<Conversation>)
    ensures |r| == |Conversations(user, messages)|
    ensures forall i :: 0 <= i < |r| ==> r[i].id == Conversations(user, messages)[i].id
  {
    var firsts := Seqs.FirstByKey(messages, CounterpartOf(user));
    seq(|firsts|, i requires 0 <= i < |firsts| => EntryAsWritten(user, firsts[i]))
  }

  /** The list: one entry per counterpart, from its newest message, named after it. */
  function Conversations(user: string, messages: seq<MessageRow>): seq<Conversation>
  {
    var firsts := Seqs.FirstByKey(messages, CounterpartOf(user));
    seq(|firsts|, i requires 0 <= i < |firsts| => Entry(user, firsts[i]))
  }

  /** Every message's sender and receiver names are the names `names` gives their ids. */
  predicate NamesAgree(messages: seq<MessageRow>, names: map<string, string>)
  {
    forall i :: 0 <= i < |messages| ==>
      && messages[i].senderId in names && messages[i].senderName == names[messages[i].senderId]
      && messages[i].receiverId in names && messages[i].receiverName == names[messages[i].receiverId]
  }

  /**
   * As written, an entry is named after the sender of the newest message with that
   * counterpart: when the user sent it, the entry carries the user's own name; only when
   * the user received it does the entry carry the counterpart's name.
   */
  lemma AsWrittenShowsOwnName(user: string, messages: seq<MessageRow>, names: map<string, string>)
    requires NamesAgree(messages, names)
    ensures forall i :: 0 <= i < |ConversationsAsWritten(user, messages)| ==>
      var c := ConversationsAsWritten(user, messages)[i];
      && Seqs.HasKey(messages, c.id, CounterpartOf(user))
      && var n := Seqs.FirstIndex(messages, c.id, CounterpartOf(user));
      && (messages[n].senderId == user ==> user in names && c.fullName == names[user])
      && (messages[n].senderId != user ==> c.id in names && c.fullName == names[c.id])
  {
    var key := CounterpartOf(user);
    var firsts := Seqs.FirstByKey(messages, key);
    Seqs.FirstByKeySpec(messages, key);
    forall i | 0 <= i < |firsts|
      ensures Seqs.HasKey(messages, key(firsts[i]), key)
      ensures firsts[i] == messages[Seqs.FirstIndex(messages, key(firsts[i]), key)]
    {
    }
  }

  /**
   * The smallest case: Ann (id "a") wrote last to Bob (id "b"), and Bob's entry reads
   * "Ann", not "Bob".
   */
  lemma OwnNameExample()
    ensures var m := MessageRow("a", "b", "Ann", "Bob");
      && NamesAgree([m], map["a" := "Ann", "b" := "Bob"])
      && ConversationsAsWritten("a", [m]) == [Conversation("b", "Ann")]
      && Conversations("a", [m]) == [Conversation("b", "Bob")]
  {
    var m := MessageRow("a", "b", "Ann", "Bob");
    assert [m][..0] == [];
  }

  /**
   * With names taken from the counterpart, every entry carries its own person's name: when
   * all names are consistent, entry `i` is named `names[id]`.
   */
  lemma ConversationNamesCorrect(user: string, messages: seq<MessageRow>, names: map<string, string>)
    requires NamesAgree(messages, names)
    ensures forall c :: c in Conversations(user, messages) ==> c.id in names && c.fullName == names[c.id]
  {
    var key := CounterpartOf(user);
    var firsts := Seqs.FirstByKey(messages, key);
    Seqs.FirstByKeySpec(messages, key);
    forall c | c in Conversations(user, messages)
      ensures c.id in names && c.fullName == names[c.id]
    {
      var i :| 0 <= i < |firsts| && c == Entry(user, firsts[i]);
      var n := Seqs.FirstIndex(messages, key(firsts[i]), key);
      assert firsts[i] == messages[n];
    }
  }

  /**
   * Entries have distinct ids and are ordered by their counterpart's newest message (the
   * messages come newest first).
   */
  lemma ConversationsDistinctAndOrdered(user: string, messages: seq<MessageRow>)
    ensures forall i, j :: 0 <= i < j < |ConversationsAsWritten(user, messages)| ==>
      ConversationsAsWritten(user, messages)[i].id != ConversationsAsWritten(user, messages)[j].id
    ensures forall i :: 0 <= i < |ConversationsAsWritten(user, messages)| ==>
      Seqs.HasKey(messages, ConversationsAsWritten(user, messages)[i].id, CounterpartOf(user))
    ensures forall i, j :: 0 <= i < j < |ConversationsAsWritten(user, messages)| ==>
      Seqs.FirstIndex(messages, ConversationsAsWritten(user, messages)[i].id, CounterpartOf(user))
      < Seqs.FirstIndex(messages, ConversationsAsWritten(user, messages)[j].id, CounterpartOf(user))
  {
    Seqs.FirstByKeySpec(messages, CounterpartOf(user));
  }

  /** Every counterpart of a fetched message has an entry. */
  lemma ConversationsCoverAll(user: string, messages: seq<MessageRow>)
    ensures forall n :: 0 <= n < |messages| ==>
      exists i :: 0 <= i < |ConversationsAsWritten(user, messages)|
        && ConversationsAsWritten(user, messages)[i].id == Counterpart(user, messages[n])
  {
    var key := CounterpartOf(user);
    var firsts := Seqs.FirstByKey(messages, key);
    var convs := ConversationsAsWritten(user, messages);
    forall n | 0 <= n < |messages|
      ensures exists i :: 0 <= i < |convs| && convs[i].id == Counterpart(user, messages[n])
    {
      Seqs.FirstByKeyCovers(messages, key, n);
      var i := Seqs.FirstIndex(firsts, key(messages[n]), key);
      assert convs[i].id == EntryAsWritten(user, firsts[i]).id;
    }
  }

  /**
   * The loop in `loadConversations`: walk the messages newest first and record an entry
   * for a counterpart the first time it turns up, keeping the order of first insertion.
   * The recorded name is the joined sender profile's, as the program reads it.
   */
  method CollectConversations(user: string, messages: seq<MessageRow>) returns (convs: seq<Conversation>)
    ensures convs == ConversationsAsWritten(user, messages)
  {
    var uniqueUsers: map<string, Conversation> := map[];
    var order: seq<string> := [];
    var i := 0;
    while i < |messages|
      invariant 0 <= i <= |messages|
      invariant Recorded(user, messages[..i], uniqueUsers, order)
    {
      var m := messages[i];
      var other := Counterpart(user, m);
      assert messages[..i + 1] == messages[..i] + [m];
      RecordStep(user, messages[..i], m, uniqueUsers, order);
      if other !in uniqueUsers {
        uniqueUsers := uniqueUsers[other := EntryAsWritten(user, m)];
        order := order + [other];
      }
      i := i + 1;
    }
    assert messages[..i] == messages;
    RecordedConversations(user, messages, uniqueUsers, order);
    convs := seq(|order|, j requires 0 <= j < |order| => uniqueUsers[order[j]]);
  }

  /** The key order after a prefix of the messages: its counterparts in order of first appearance. */
  ghost predicate OrderRecorded(user: string, prefix: seq<MessageRow>, order: seq<string>)
  {
    var firsts := Seqs.FirstByKey(prefix, CounterpartOf(user));
    |order| == |firsts| && forall j :: 0 <= j < |order| ==> order[j] == Counterpart(user, firsts[j])
  }

  /** The map after a prefix: keyed by its counterparts, each holding its first message's entry. */
  ghost predicate EntriesRecorded(user: string, prefix: seq<MessageRow>, uniqueUsers: map<string, Conversation>)
  {
    var key := CounterpartOf(user);
    && (forall k :: k in uniqueUsers <==> Seqs.HasKey(prefix, k, key))
    && (forall k :: k in uniqueUsers ==> uniqueUsers[k] == EntryAsWritten(user, prefix[Seqs.FirstIndex(prefix, k, key)]))
  }

  /**
   * The loop's state after a prefix of the messages: the map keyed by the prefix's
   * counterparts, each holding the entry of its first message, and the keys in insertion
   * order.
   */
  ghost predicate Recorded(user: string, prefix: seq<MessageRow>, uniqueUsers: map<string, Conversation>, order: seq<string>)
  {
    OrderRecorded(user, prefix, order) && EntriesRecorded(user, prefix, uniqueUsers)
  }

  /** One iteration keeps the map and the key order accurate. */
  lemma RecordStep(user: string, prefix: seq<MessageRow>, m: MessageRow, uniqueUsers: map<string, Conversation>, order: seq<string>)
    requires Recorded(user, prefix, uniqueUsers, order)
    ensures var k := Counterpart(user, m);
      Recorded(user, prefix + [m],
        if k in uniqueUsers then uniqueUsers else uniqueUsers[k := EntryAsWritten(user, m)],
        if k in uniqueUsers then order else order + [k])
  {
    OrderStep(user, prefix, m, order);
    EntriesStep(user, prefix, m, uniqueUsers);
  }

  lemma OrderStep(user: string, prefix: seq<MessageRow>, m: MessageRow, order: seq<string>)
    requires OrderRecorded(user, prefix, order)
    ensures var k := Counterpart(user, m);
      OrderRecorded(user, prefix + [m], if Seqs.HasKey(prefix, k, CounterpartOf(user)) then order else order + [k])
  {
    Seqs.FirstByKeySnoc(prefix, m, CounterpartOf(user));
  }

  lemma EntriesStep(user: string, prefix: seq<MessageRow>, m: MessageRow, uniqueUsers: map<string, Conversation>)
    requires EntriesRecorded(user, prefix, uniqueUsers)
    ensures var k := Counterpart(user, m);
      EntriesRecorded(user, prefix + [m], if k in uniqueUsers then uniqueUsers else uniqueUsers[k := EntryAsWritten(user, m)])
  {
    var key := CounterpartOf(user);
    var k := Counterpart(user, m);
    var s := prefix + [m];
    var map' := if k in uniqueUsers then uniqueUsers else uniqueUsers[k := EntryAsWritten(user, m)];
    Seqs.HasKeySnoc(prefix, m, key);
    forall k' | k' in map'
      ensures map'[k'] == EntryAsWritten(user, s[Seqs.FirstIndex(s, k', key)])
    {
      if k' in uniqueUsers {
        Seqs.FirstIndexSnoc(prefix, m, k', key);
        assert s[Seqs.FirstIndex(prefix, k', key)] == prefix[Seqs.FirstIndex(prefix, k', key)];
      } else {
        Seqs.FirstIndexNew(prefix, m, key);
      }
    }
  }

  /** Once every message is seen, the map's values in insertion order are the list. */
  lemma RecordedConversations(user: string, messages: seq<MessageRow>, uniqueUsers: map<string, Conversation>, order: seq<string>)
    requires Recorded(user, messages, uniqueUsers, order)
    ensures forall j :: 0 <= j < |order| ==> order[j] in uniqueUsers
    ensures seq(|order|, j requires 0 <= j < |order| && order[j] in uniqueUsers => uniqueUsers[order[j]])
         == ConversationsAsWritten(user, messages)
  {
    var key := CounterpartOf(user);
    var firsts := Seqs.FirstByKey(messages, key);
    Seqs.FirstByKeySpec(messages, key);
    forall j | 0 <= j < |order|
      ensures order[j] in uniqueUsers && uniqueUsers[order[j]] == EntryAsWritten(user, firsts[j])
    {
      assert Seqs.HasKey(messages, key(firsts[j]), key);
    }
  }

  class ConversationListView {
    var conversations: seq<Conversation>
    var loading: bool

    constructor ()
      ensures conversations == [] && loading
    {
      conversations := [];
      loading := true;
    }

    /**
     * `loadConversations` with the query's answer given as `fetched`. Without a user, or
     * when the query fails, nothing changes (so the list keeps showing "Loading"); no rows
     * give the empty list; otherwise the list is built from the rows, as written.
     */
    method LoadConversations(user: Option<string>, fetched: Fetch<seq<MessageRow>>)
      modifies this
      ensures user.None? || fetched.Failed? ==>
        conversations == old(conversations) && loading == old(loading)
      ensures user.Some? && fetched == Loaded(None) ==> conversations == [] && !loading
      ensures user.Some? && fetched.Loaded? && fetched.data.Some? ==>
        conversations == ConversationsAsWritten(user.value, fetched.data.value) && !loading
    {
      if user.None? {
        return;
      }
      if fetched.Failed? {
        return;
      }
      var collected: seq<Conversation> := [];
      if fetched.data.Some? {
        collected := CollectConversations(user.value, fetched.data.value);
      }
      conversations := collected;
      loading := false;
    }
  }
}
