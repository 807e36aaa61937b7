/**
 * The chat Message document: sender, text and room (the game id) are
 * required; the timestamp is required and defaults to the creation time.
 */
module MessageModel {
  import opened Wrappers
  import opened Schema

  datatype Message = Message(sender: string, message: string, gameId: Id, timestamp: int)

  datatype MessageDraft = MessageDraft(
    sender: Option<string>,
    message: Option<string>,
    gameId: Option<Id>,
    timestamp: Option<int>)

  predicate ValidMessage(m: Message)
  {
    m.sender != "" && m.message != "" && m.gameId != ""
  }

  /** Builds and validates a message at time `now`. */
  function CreateMessage(d: MessageDraft, now: int): (r: Result<Message, ValidationError>)
    ensures r.Success? <==> Present(d.sender) && Present(d.message) && Present(d.gameId)
    ensures r.Success? ==>
      && ValidMessage(r.value)
      && Some(r.value.sender) == d.sender && Some(r.value.message) == d.message
      && Some(r.value.gameId) == d.gameId
      && r.value.timestamp == (if d.timestamp.Some? then d.timestamp.value else now)
    ensures r.Failure? ==>
      && ("sender" in r.error.paths <==> !Present(d.sender))
      && ("message" in r.error.paths <==> !Present(d.message))
      && ("gameId" in r.error.paths <==> !Present(d.gameId))
  {
    var missing :=
      (if Present(d.sender) then {} else {"sender"}) +
      (if Present(d.message) then {} else {"message"}) +
      (if Present(d.gameId) then {} else {"gameId"});
    if missing == {} then
      Success(Message(d.sender.value, d.message.value, d.gameId.value,
                      if d.timestamp.Some? then d.timestamp.value else now))
    else
      Failure(ValidationError(missing))
  }

  /** A valid message is stored exactly as given, whatever the clock says. */
  lemma CreateMessageRoundTrip(m: Message, now: int)
    requires ValidMessage(m)
    ensures CreateMessage(MessageDraft(Some(m.sender), Some(m.message), Some(m.gameId), Some(m.timestamp)), now)
            == Success(m)
  {
  }
}
