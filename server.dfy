/**
 * The relay as the running server holds it: the global member list that the
 * handlers push to and reassign, the frames written to sockets so far, and
 * the sockets whose keep-alive timer is running. Each handler is proved to
 * perform exactly the step the pure model in `Relay` describes.
 */
module Server {
  import opened Wrappers
  import opened Seqs
  import opened Presence
  import opened Registry
  import opened Relay

  class ChatServer {
    /** `activeUsers`: one entry per successful join, in join order. */
    var users: seq<Entry>
    /** Every frame written to a socket so far, in the order it was written. */
    var outbox: seq<Send>
    /** Sockets whose 30-second ping interval is still set. */
    var pinging: set<Socket>

    ghost predicate Valid()
      reads this
    {
      RoomsNamed(users)
    }

    constructor ()
      ensures Valid()
      ensures users == [] && outbox == [] && pinging == {}
    {
      users, outbox, pinging := [], [], {};
    }

    /** The `connection` handler: start the keep-alive timer; no entry exists until a join. */
    method Connect(s: Socket)
      modifies this`pinging
      ensures pinging == old(pinging) + {s}
    {
      pinging := pinging + {s};
    }

    /** Writes `text` to each target in turn (the `forEach` that calls `send`). */
    method Broadcast(targets: seq<Entry>, text: string)
      modifies this`outbox
      ensures outbox == old(outbox) + Notify(targets, text)
    {
      var i := 0;
      while i < |targets|
        invariant 0 <= i <= |targets|
        invariant outbox == old(outbox) + Notify(targets[..i], text)
      {
        assert Notify(targets[..i + 1], text) == Notify(targets[..i], text) + [Send(targets[i].socket, text)];
        outbox := outbox + [Send(targets[i].socket, text)];
        i := i + 1;
      }
      assert targets[..i] == targets;
    }

    /** The `message` handler for a parsed frame from `s`; `id` is the identifier a join would draw. */
    method OnMessage(s: Socket, msg: Inbound, id: string)
      requires Valid()
      modifies this`users, this`outbox
      ensures Valid()
      ensures users == MessageStep(old(users), s, msg, id).users
      ensures outbox == old(outbox) + MessageStep(old(users), s, msg, id).sends
    {
      match msg
      case Join(roomId) =>
        if Falsy(roomId) {
          return;
        }
        var room := roomId.value;
        users := users + [Entry(s, room, id)];
        var n := Count(users, room);
        Broadcast(Members(users, room), Notice(Joined, n));
      case Chat(message) =>
        if Falsy(message) {
          return;
        }
        var current := FindRoom(users, s);
        if Falsy(current) {
          return;
        }
        Broadcast(Filter(users, PeerOf(current.value, s)), message.value);
      case Unknown(_) =>
      case Malformed =>
    }

    /** The `close` handler: stop the timer, drop the socket's entries, tell the rest of its room. */
    method OnClose(s: Socket)
      requires Valid()
      modifies this
      ensures Valid()
      ensures pinging == old(pinging) - {s}
      ensures users == CloseStep(old(users), s).users
      ensures outbox == old(outbox) + CloseStep(old(users), s).sends
    {
      pinging := pinging - {s};
      var room := FindRoom(users, s);
      users := Without(users, s);
      if !Falsy(room) {
        var n := Count(users, room.value);
        if n > 0 {
          Broadcast(Members(users, room.value), Notice(Left, n));
        }
      }
    }

    /** The `error` handler: stop the timer and drop the socket's entries, announcing nothing. */
    method OnError(s: Socket)
      requires Valid()
      modifies this
      ensures Valid()
      ensures pinging == old(pinging) - {s}
      ensures users == Without(old(users), s)
      ensures outbox == old(outbox)
    {
      pinging := pinging - {s};
      users := Without(users, s);
    }
  }

  /** An error and then a close on the same socket write no frame at all. */
  method ErrorThenClose(server: ChatServer, s: Socket)
    requires server.Valid()
    modifies server
    ensures server.Valid()
    ensures server.users == Without(old(server.users), s)
    ensures server.outbox == old(server.outbox)
    ensures server.pinging == old(server.pinging) - {s}
  {
    server.OnError(s);
    ErrorThenCloseIsSilent(old(server.users), s);
    server.OnClose(s);
  }

  /**
   * Two clients join room "abc", the first says "hi", the second disconnects:
   * the frames written, grouped by the event that wrote them.
   */
  method Walkthrough() returns (log: seq<Send>)
    ensures log ==
      [Send(1, "A new user has joined. (1 user in room)")]
      + [Send(1, "A new user has joined. (2 users in room)"), Send(2, "A new user has joined. (2 users in room)")]
      + [Send(2, "hi")]
      + [Send(1, "A user has left. (1 user in room)")]
  {
    var a, b := Entry(1, "abc", "a"), Entry(2, "abc", "b");
    var joinedOne, joinedTwo := "A new user has joined. (1 user in room)", "A new user has joined. (2 users in room)";
    JoinedOneText();
    JoinedTwoText();
    LeftOneText();
    var server := new ChatServer();
    server.Connect(1);
    server.Connect(2);
    ScenarioFirstJoin();
    server.OnMessage(1, Join(Some("abc")), "a");
    assert server.users == [a] && server.outbox == [Send(1, joinedOne)];
    ScenarioSecondJoin();
    server.OnMessage(2, Join(Some("abc")), "b");
    assert server.users == [a, b];
    assert server.outbox == [Send(1, joinedOne)] + [Send(1, joinedTwo), Send(2, joinedTwo)];
    ScenarioChat();
    server.OnMessage(1, Chat(Some("hi")), "");
    assert server.users == [a, b];
    ScenarioLeave();
    server.OnClose(2);
    log := server.outbox;
  }
}
