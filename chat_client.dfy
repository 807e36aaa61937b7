/**
 * The chat panel of a game page: the room it joins, the list of messages it
 * shows (history replaces it, new messages go on top), the mention highlight
 * and the send button.
 */
module ChatClient {
  import opened Wrappers
  import opened Schema
  import opened Strings
  import opened Sorting
  import opened MessageModel
  import RoomBroker

  /** The white space and line terminators that JavaScript's `trim` removes. */
  predicate IsSpace(c: char)
  {
    || c == '\t' || c == '\n' || c == '\U{B}' || c == '\U{C}' || c == '\r' || c == ' '
    || c == '\U{A0}' || c == '\U{1680}' || ('\U{2000}' <= c <= '\U{200A}')
    || c == '\U{2028}' || c == '\U{2029}' || c == '\U{202F}' || c == '\U{205F}' || c == '\U{3000}'
    || c == '\U{FEFF}'
  }

  function TrimStart(s: string): (r: string)
    ensures |r| <= |s| && r == s[|s| - |r|..]
    ensures forall k :: 0 <= k < |s| - |r| ==> IsSpace(s[k])
    ensures r != [] ==> !IsSpace(r[0])
  {
    if s != [] && IsSpace(s[0]) then TrimStart(s[1..]) else s
  }

  function TrimEnd(s: string): (r: string)
    ensures |r| <= |s| && r == s[..|r|]
    ensures forall k :: |r| <= k < |s| ==> IsSpace(s[k])
    ensures r != [] ==> !IsSpace(r[|r| - 1])
  {
    if s != [] && IsSpace(s[|s| - 1]) then TrimEnd(s[..|s| - 1]) else s
  }

  /**
   * `trim`: the longest infix that neither starts nor ends with white
   * space; everything cut off is white space.
   */
  function Trim(s: string): (r: string)
    ensures exists i, j ::
              && 0 <= i <= j <= |s| && r == s[i..j]
              && (forall k :: 0 <= k < i ==> IsSpace(s[k]))
              && (forall k :: j <= k < |s| ==> IsSpace(s[k]))
    ensures r != [] ==> !IsSpace(r[0]) && !IsSpace(r[|r| - 1])
  {
    var t := TrimStart(s);
    var r := TrimEnd(t);
    var i := |s| - |t|;
    assert r == s[i..i + |r|];
    assert forall k :: i + |r| <= k < |s| ==> s[k] == t[k - i];
    r
  }

  /** Only a text made of white space trims to nothing. */
  lemma TrimEmptyIff(s: string)
    ensures Trim(s) == [] <==> forall k :: 0 <= k < |s| ==> IsSpace(s[k])
  {
    var r := Trim(s);
    var i, j :| 0 <= i <= j <= |s| && r == s[i..j] &&
      (forall k :: 0 <= k < i ==> IsSpace(s[k])) && (forall k :: j <= k < |s| ==> IsSpace(s[k]));
    if r != [] {
      assert s[i] == r[0];
    }
  }

  /** Trimming twice is trimming once. */
  lemma TrimIdempotent(s: string)
    ensures Trim(Trim(s)) == Trim(s)
  {
    var r := Trim(s);
    if r != [] {
      assert TrimStart(r) == r;
      assert TrimEnd(r) == r;
    }
  }

  /** `pathname.split('/').pop()`: what follows the last slash (all of it if there is none). */
  function LastSegment(path: string): (seg: string)
    ensures |seg| <= |path| && seg == path[|path| - |seg|..]
    ensures '/' !in seg
    ensures |seg| < |path| ==> path[|path| - |seg| - 1] == '/'
  {
    if path == [] || path[|path| - 1] == '/' then []
    else LastSegment(path[..|path| - 1]) + [path[|path| - 1]]
  }

  /** The last segment of a path that ends in `/id`, with no slash in `id`, is `id`. */
  lemma {:induction false} LastSegmentOfGamePath(prefix: string, id: string)
    requires '/' !in id
    ensures LastSegment(prefix + "/" + id) == id
    decreases |id|
  {
    if id == [] {
    } else {
      var init := id[..|id| - 1];
      assert prefix + "/" + id == (prefix + "/" + init) + [id[|id| - 1]];
      assert (prefix + "/" + id)[..|prefix + "/" + id| - 1] == prefix + "/" + init;
      assert forall c :: c in init ==> c in id;
      LastSegmentOfGamePath(prefix, init);
      assert init + [id[|id| - 1]] == id;
    }
  }

  /** The text searched for: "@" and the stored user name, which prints as "null" when unset. */
  function MentionTag(username: Option<string>): string
  {
    "@" + (if username.Some? then username.value else "null")
  }

  /** A message mentions the viewer iff its text contains the tag. */
  predicate IsMention(text: string, username: Option<string>)
  {
    Contains(text, MentionTag(username))
  }

  lemma MentionIff(text: string, username: Option<string>)
    ensures IsMention(text, username) <==> exists i :: OccursAt(text, MentionTag(username), i)
  {
    ContainsIff(text, MentionTag(username));
  }

  datatype ChatLine = ChatLine(message: Message, mention: bool)

  function RenderLine(m: Message, username: Option<string>): ChatLine
  {
    ChatLine(m, IsMention(m.message, username))
  }

  /** `messages.map(getMessageHtml)`: one line per message, in the order received. */
  function RenderAll(ms: seq<Message>, username: Option<string>): (lines: seq<ChatLine>)
    ensures |lines| == |ms|
    ensures forall k :: 0 <= k < |ms| ==> lines[k].message == ms[k] &&
                                          lines[k].mention == IsMention(ms[k].message, username)
  {
    seq(|ms|, k requires 0 <= k < |ms| => RenderLine(ms[k], username))
  }

  /** What the client emits to the broker. */
  datatype ClientEvent =
    | Join(room: Id)
    | Send(gameId: Id, sender: Option<string>, message: string)

  class ChatView {
    const username: Option<string>
    const gameId: Id
    /** The chat is wired up only when `/game-info` answered with JSON. */
    const chatStarted: bool
    var lines: seq<ChatLine>
    var input: string
    /** The events emitted so far, in order. */
    var emitted: seq<ClientEvent>

    /**
     * Page load: the room is the last path segment; it is joined once, and
     * only when `/game-info` answers with a JSON body. A not-found answer is
     * JSON too (`{ message }`), so the room is joined even for an unknown
     * game; a server error answers with text and the chat never starts.
     */
    constructor (pathname: string, storedUsername: Option<string>, gameInfoIsJson: bool)
      ensures gameId == LastSegment(pathname) && username == storedUsername
      ensures chatStarted == gameInfoIsJson
      ensures emitted == (if gameInfoIsJson then [Join(gameId)] else []) && lines == [] && input == ""
    {
      username := storedUsername;
      gameId := LastSegment(pathname);
      chatStarted := gameInfoIsJson;
      lines := [];
      input := "";
      emitted := if gameInfoIsJson then [Join(LastSegment(pathname))] else [];
    }

    /** `previousMessages`: the batch replaces the whole list, in the order received. */
    method OnPreviousMessages(ms: seq<Message>)
      modifies this
      ensures lines == RenderAll(ms, username)
      ensures input == old(input) && emitted == old(emitted)
    {
      lines := RenderAll(ms, username);
    }

    /** `newMessage`: the message goes on top, the earlier ones stay in order below it. */
    method OnNewMessage(m: Message)
      modifies this
      ensures lines == [RenderLine(m, username)] + old(lines)
      ensures input == old(input) && emitted == old(emitted)
    {
      lines := [RenderLine(m, username)] + lines;
    }

    /** The user edits the input field. */
    method TypeText(text: string)
      modifies this
      ensures input == text && lines == old(lines) && emitted == old(emitted)
    {
      input := text;
    }

    /**
     * The send button: only a non-blank text is sent, trimmed, and the
     * field is cleared; before the chat has started the button does nothing.
     */
    method ClickSend()
      modifies this
      ensures lines == old(lines)
      ensures chatStarted && Trim(old(input)) != [] ==>
        emitted == old(emitted) + [Send(gameId, username, Trim(old(input)))] && input == ""
      ensures !chatStarted || Trim(old(input)) == [] ==> emitted == old(emitted) && input == old(input)
    {
      var message := Trim(input);
      if chatStarted && message != [] {
        emitted := emitted + [Send(gameId, username, message)];
        input := "";
      }
    }
  }

  /**
   * Whatever the client sends passes the message schema once the user name
   * is set and the room is named; without a stored user name the store rejects it.
   */
  lemma ClientSendStorable(gameId: Id, username: Option<string>, text: string, now: int)
    requires Trim(text) != []
    ensures var built := CreateMessage(MessageDraft(username, Some(Trim(text)), Some(gameId), Some(now)), now);
      built.Success? <==> Present(username) && gameId != ""
  {
  }

  /**
   * The list stays newest first when each new message is no older than
   * what is shown: the order the history arrives in survives live updates.
   */
  lemma {:induction false} NewestFirstPreserved(ms: seq<Message>, m: Message)
    requires Sorted(ms, RoomBroker.NewerOrSame)
    requires forall x :: x in ms ==> m.timestamp >= x.timestamp
    ensures Sorted([m] + ms, RoomBroker.NewerOrSame)
  {
    var r := [m] + ms;
    forall i, j | 0 <= i < j < |r| ensures RoomBroker.NewerOrSame(r[i], r[j]) {
      assert r[j] == ms[j - 1];
      assert ms[j - 1] in ms;
      if i > 0 {
        assert r[i] == ms[i - 1];
      }
    }
  }

  /** Right after the history arrives the list is the room's messages, newest first. */
  lemma ViewAfterJoin(store: seq<Message>, room: Id, username: Option<string>)
    ensures var lines := RenderAll(RoomBroker.History(store, room), username);
      && |lines| == |RoomBroker.InRoom(store, room)|
      && forall i, j :: 0 <= i < j < |lines| ==> lines[i].message.timestamp >= lines[j].message.timestamp
  {
    RoomBroker.HistoryNewestFirst(store, room);
  }
}
