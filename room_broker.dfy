/**
 * The chat room broker: which connections are in which game's room, the
 * append-only message store, the history a joining connection receives and
 * the broadcast that follows a stored message.
 */
module RoomBroker {
  import opened Wrappers
  import opened Schema
  import opened Sorting
  import opened MessageModel

  /** A client connection. */
  type ConnId = nat

  /** `a` may be listed before `b` in a newest-first history. */
  predicate NewerOrSame(a: Message, b: Message)
  {
    a.timestamp >= b.timestamp
  }

  lemma NewerOrSameTotalPreorder()
    ensures TotalPreorder(NewerOrSame)
  {
  }

  /** The stored messages of one room, in store order (`find({ gameId })`). */
  function InRoom(ms: seq<Message>, room: Id): (r: seq<Message>)
    ensures forall m :: m in r <==> m in ms && m.gameId == room
    ensures |r| <= |ms|
  {
    if ms == [] then []
    else if ms[0].gameId == room then [ms[0]] + InRoom(ms[1..], room)
    else InRoom(ms[1..], room)
  }

  /** The history sent to a joining connection: the room's messages, newest first. */
  function History(ms: seq<Message>, room: Id): seq<Message>
  {
    Sort(InRoom(ms, room), NewerOrSame)
  }

  /** The history holds every message of the room and nothing else, newest first. */
  lemma HistoryNewestFirst(ms: seq<Message>, room: Id)
    ensures Sorted(History(ms, room), NewerOrSame)
    ensures multiset(History(ms, room)) == multiset(InRoom(ms, room))
    ensures forall m :: m in History(ms, room) <==> m in ms && m.gameId == room
  {
    NewerOrSameTotalPreorder();
    SortSorted(InRoom(ms, room), NewerOrSame);
    assert forall m :: m in History(ms, room) <==> m in multiset(InRoom(ms, room));
  }

  lemma {:induction false} InRoomAppend(ms: seq<Message>, m: Message, room: Id)
    ensures InRoom(ms + [m], room) == InRoom(ms, room) + (if m.gameId == room then [m] else [])
    decreases |ms|
  {
    if ms == [] {
      assert [m][1..] == [];
    } else {
      assert (ms + [m])[1..] == ms[1..] + [m];
      InRoomAppend(ms[1..], m, room);
    }
  }

  /** Storing a message adds it to its own room's history and to no other. */
  lemma HistoryAfterStore(ms: seq<Message>, m: Message, room: Id)
    ensures m.gameId != room ==> History(ms + [m], room) == History(ms, room)
    ensures m.gameId == room ==>
      multiset(History(ms + [m], room)) == multiset(History(ms, room)) + multiset{m}
  {
    InRoomAppend(ms, m, room);
    if m.gameId != room {
      assert InRoom(ms + [m], room) == InRoom(ms, room);
    }
  }

  /** After `n` messages are stored in a room its history is at least `n` long. */
  lemma {:induction false} HistoryAfterStores(ms: seq<Message>, sent: seq<Message>, room: Id)
    requires forall m :: m in sent ==> m.gameId == room
    ensures |History(ms + sent, room)| == |History(ms, room)| + |sent|
    decreases |sent|
  {
    if sent != [] {
      var init := sent[..|sent| - 1];
      var last := sent[|sent| - 1];
      assert sent == init + [last];
      assert forall m :: m in init ==> m in sent;
      HistoryAfterStores(ms, init, room);
      assert ms + sent == (ms + init) + [last];
      InRoomAppend(ms + init, last, room);
      assert |InRoom(ms + sent, room)| == |InRoom(ms + init, room)| + 1;
    } else {
      assert ms + sent == ms;
    }
  }

  /** The rooms a connection is in (none if it never joined). */
  function RoomsOf(rooms: map<ConnId, set<Id>>, conn: ConnId): set<Id>
  {
    if conn in rooms then rooms[conn] else {}
  }

  /** The connections in a room: the receivers of its broadcasts. */
  function Members(rooms: map<ConnId, set<Id>>, room: Id): set<ConnId>
  {
    set c | c in rooms && room in rooms[c]
  }

  /** Joining puts the connection in the room and changes no other membership. */
  lemma MembersAfterJoin(rooms: map<ConnId, set<Id>>, conn: ConnId, room: Id, other: Id)
    ensures Members(rooms[conn := RoomsOf(rooms, conn) + {room}], room) == Members(rooms, room) + {conn}
    ensures other != room ==>
      Members(rooms[conn := RoomsOf(rooms, conn) + {room}], other) == Members(rooms, other)
  {
  }

  /** A disconnected connection is in no room; everyone else stays. */
  lemma MembersAfterDisconnect(rooms: map<ConnId, set<Id>>, conn: ConnId, room: Id)
    ensures Members(rooms - {conn}, room) == Members(rooms, room) - {conn}
  {
  }

  /** A stored message and the connections it is pushed to. */
  datatype Delivery = Delivery(to: set<ConnId>, message: Message)

  class Broker {
    /** Connection to the rooms it has joined. */
    var rooms: map<ConnId, set<Id>>
    /** The message store, in the order the saves completed. */
    var messages: seq<Message>

    ghost predicate Valid()
      reads this
    {
      forall m :: m in messages ==> ValidMessage(m)
    }

    constructor ()
      ensures Valid() && rooms == map[] && messages == []
    {
      rooms := map[];
      messages := [];
    }

    /**
     * `join`: the connection enters the room, then the room's history is
     * fetched and emitted to this connection alone. A failed fetch emits
     * nothing but the connection stays in the room.
     */
    method Join(conn: ConnId, room: Id, fetchSucceeds: bool) returns (previous: Option<seq<Message>>)
      requires Valid()
      modifies this
      ensures Valid()
      ensures rooms == old(rooms)[conn := RoomsOf(old(rooms), conn) + {room}]
      ensures messages == old(messages)
      ensures previous == if fetchSucceeds then Some(History(messages, room)) else None
    {
      rooms := rooms[conn := RoomsOf(rooms, conn) + {room}];
      if fetchSucceeds {
        previous := Some(Sort(InRoom(messages, room), NewerOrSame));
      } else {
        previous := None;
      }
    }

    /**
     * `sendMessage`: the message is stamped with the current time and saved;
     * only a successful save is broadcast, to every member of the room,
     * the sender included if it joined. A message the schema rejects is
     * never saved.
     */
    method SendMessage(gameId: Option<Id>, sender: Option<string>, message: Option<string>,
                       now: int, saveSucceeds: bool) returns (delivery: Option<Delivery>)
      requires Valid()
      modifies this
      ensures Valid()
      ensures rooms == old(rooms)
      ensures var built := CreateMessage(MessageDraft(sender, message, gameId, Some(now)), now);
        if built.Success? && saveSucceeds then
          && messages == old(messages) + [built.value]
          && delivery == Some(Delivery(Members(rooms, built.value.gameId), built.value))
        else
          messages == old(messages) && delivery == None
    {
      var built := CreateMessage(MessageDraft(sender, message, gameId, Some(now)), now);
      if built.Failure? || !saveSucceeds {
        return None;
      }
      var newMessage := built.value;
      messages := messages + [newMessage];
      delivery := Some(Delivery(Members(rooms, newMessage.gameId), newMessage));
    }

    /** `disconnect`: the connection leaves every room. */
    method Disconnect(conn: ConnId)
      modifies this
      ensures rooms == old(rooms) - {conn}
      ensures messages == old(messages)
    {
      rooms := rooms - {conn};
    }
  }
}
