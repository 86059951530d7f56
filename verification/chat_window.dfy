/**
 * The chat pane of the messages page: the thread with the selected person, the messages
 * that arrive while it is open, and the draft the user sends.
 */
module ChatWindow {
  import opened Wrappers
  import Text
  import Store

  /** A message as the thread shows it. */
  datatype Message = Message(id: string, content: string, senderId: string, createdAt: string)

  /** The row the send inserts into `messages`. */
  datatype OutgoingMessage = OutgoingMessage(content: string, senderId: string, receiverId: string)

  /** A counterpart is selected: `null` and the empty string both count as no selection. */
  predicate IsSelected(selected: Option<string>)
  {
    selected.Some? && selected.value != ""
  }

  /** The send button is disabled exactly when the draft holds nothing but white space. */
  function SendDisabled(draft: string): (disabled: bool)
    ensures disabled <==> forall i :: 0 <= i < |draft| ==> Text.IsWhitespace(draft[i])
  {
    Text.Trim(draft) == ""
  }

  /**
   * What a send inserts, if anything: nothing without a user, without a selected
   * counterpart or with a blank draft; otherwise the trimmed draft from the user to the
   * selected counterpart.
   */
  function Outgoing(user: Option<string>, selected: Option<string>, draft: string): (r: Option<OutgoingMessage>)
    ensures r.None? <==> user.None? || !IsSelected(selected) || SendDisabled(draft)
    ensures r.Some? ==> r.value.senderId == user.value && r.value.receiverId == selected.value
    ensures r.Some? ==> r.value.content == Text.Trim(draft)
  {
    if user.None? || !IsSelected(selected) || Text.Trim(draft) == "" then None
    else Some(OutgoingMessage(Text.Trim(draft), user.value, selected.value))
  }

  /**
   * What is sent is never blank and has no white space at either end, so sending the sent
   * text again would send it unchanged.
   */
  lemma OutgoingContentClean(user: Option<string>, selected: Option<string>, draft: string)
    requires Outgoing(user, selected, draft).Some?
    ensures var c := Outgoing(user, selected, draft).value.content;
      c != "" && !Text.IsWhitespace(c[0]) && !Text.IsWhitespace(c[|c| - 1])
      && Outgoing(user, selected, c) == Outgoing(user, selected, draft)
  {
    Text.TrimIdempotent(draft);
  }

  /** With a user and a counterpart, a send goes out exactly when the button is enabled. */
  lemma ButtonMatchesSend(user: string, selected: string, draft: string)
    requires selected != ""
    ensures Outgoing(Some(user), Some(selected), draft).Some? <==> !SendDisabled(draft)
  {
  }

  class ChatWindowView {
    var messages: seq<Message>
    /** The draft in the text area. */
    var newMessage: string
    var loading: bool

    constructor ()
      ensures messages == [] && newMessage == "" && !loading
    {
      messages := [];
      newMessage := "";
      loading := false;
    }

    /**
     * The effect that loads the thread, the query's answer given as `fetched`. Without a
     * selected counterpart or a user nothing happens. Otherwise `loading` goes up; an
     * error leaves it up and the messages as they were; an answer replaces the messages
     * (no rows give the empty thread) and brings `loading` down.
     */
    method LoadMessages(user: Option<string>, selected: Option<string>, fetched: Fetch<seq<Message>>)
      modifies this
      ensures newMessage == old(newMessage)
      ensures !IsSelected(selected) || user.None? ==>
        messages == old(messages) && loading == old(loading)
      ensures IsSelected(selected) && user.Some? && fetched.Failed? ==>
        messages == old(messages) && loading
      ensures IsSelected(selected) && user.Some? && fetched.Loaded? ==>
        messages == (if fetched.data.Some? then fetched.data.value else []) && !loading
    {
      if !IsSelected(selected) || user.None? {
        return;
      }
      loading := true;
      if fetched.Failed? {
        return;
      }
      messages := if fetched.data.Some? then fetched.data.value else [];
      loading := false;
    }

    /** A message pushed by the subscription goes at the end of the thread. */
    method ReceiveMessage(m: Message)
      modifies this
      ensures messages == old(messages) + [m]
      ensures newMessage == old(newMessage) && loading == old(loading)
    {
      messages := messages + [m];
    }

    /** Typing in the text area. */
    method SetDraft(text: string)
      modifies this
      ensures newMessage == text
      ensures messages == old(messages) && loading == old(loading)
    {
      newMessage := text;
    }

    /**
     * `handleSendMessage`, the store's answer to the insert given as `outcome`. A send
     * that `Outgoing` refuses touches nothing. Otherwise the trimmed draft is inserted;
     * the draft is cleared only when the insert succeeds. The thread itself is never
     * changed by sending.
     */
    method HandleSendMessage(user: Option<string>, selected: Option<string>,
                             db: Store.Table<OutgoingMessage>, outcome: WriteOutcome)
      modifies this, db
      ensures messages == old(messages) && loading == old(loading)
      ensures Outgoing(user, selected, old(newMessage)).None? ==>
        db.rows == old(db.rows) && newMessage == old(newMessage)
      ensures Outgoing(user, selected, old(newMessage)).Some? && outcome == WriteOk ==>
        db.rows == old(db.rows) + [Outgoing(user, selected, old(newMessage)).value]
        && newMessage == "" && SendDisabled(newMessage)
      ensures Outgoing(user, selected, old(newMessage)).Some? && outcome == WriteError ==>
        db.rows == old(db.rows) && newMessage == old(newMessage)
    {
      if user.None? || !IsSelected(selected) || Text.Trim(newMessage) == "" {
        return;
      }
      var row := OutgoingMessage(Text.Trim(newMessage), user.value, selected.value);
      if outcome == WriteError {
        return;
      }
      db.Insert(row);
      newMessage := "";
    }
  }
}
