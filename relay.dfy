/**
 * The relay's event handlers as pure steps: each takes the member list and
 * one event on a socket and gives the new list and the sends the event
 * produces, in the order the handler issues them.
 */
module Relay {
  import opened Wrappers
  import opened Seqs
  import opened Presence
  import opened Registry

  /**
   * An inbound frame after parsing: a join with its `roomId`, a chat with its
   * `message` (each absent when the payload lacks the field), any other
   * `type`, or a frame that failed to parse or a join or chat frame without a payload.
   */
  datatype Inbound = Join(roomId: Option<string>) | Chat(message: Option<string>) | Unknown(kind: string) | Malformed

  /** The member list after an event and the sends it produced. */
  datatype Outcome = Outcome(users: seq<Entry>, sends: seq<Send>)

  /** JavaScript's `!v` on an optional string: missing or empty. */
  predicate Falsy(v: Option<string>) {
    v.None? || v.value == ""
  }

  /** Every entry names a non-empty room: what the join guard guarantees of the list. */
  predicate RoomsNamed(users: seq<Entry>) {
    forall e :: e in users ==> e.room != ""
  }

  /**
   * The `message` handler for a frame from socket `s`; `id` is the identifier
   * drawn for the entry a join would create.
   */
  function MessageStep(users: seq<Entry>, s: Socket, msg: Inbound, id: string): (r: Outcome)
    ensures r.users == users || (msg.Join? && !Falsy(msg.roomId) && r.users == users + [Entry(s, msg.roomId.value, id)])
    ensures msg.Chat? ==> forall m :: m in r.sends ==> m.to != s
  {
    match msg
    case Join(roomId) =>
      if Falsy(roomId) then Outcome(users, [])
      else
        var room := roomId.value;
        var joined := users + [Entry(s, room, id)];
        Outcome(joined, Notify(Members(joined, room), Notice(Joined, Count(joined, room))))
    case Chat(message) =>
      if Falsy(message) then Outcome(users, [])
      else
        var current := FindRoom(users, s);
        if Falsy(current) then Outcome(users, [])
        else
          var peers := Filter(users, PeerOf(current.value, s));
          NotifyReaches(peers, message.value);
          Outcome(users, Notify(peers, message.value))
    case Unknown(_) => Outcome(users, [])
    case Malformed => Outcome(users, [])
  }

  /** The `close` handler: drop every entry of `s`, then tell what is left of its room. */
  function CloseStep(users: seq<Entry>, s: Socket): (r: Outcome)
    ensures forall e :: e in r.users <==> e in users && e.socket != s
    ensures forall m :: m in r.sends ==> m.to != s
  {
    var room := FindRoom(users, s);
    var rest := Without(users, s);
    if Falsy(room) then Outcome(rest, [])
    else
      var n := Count(rest, room.value);
      if n > 0 then
        NotifyReaches(Members(rest, room.value), Notice(Left, n));
        Outcome(rest, Notify(Members(rest, room.value), Notice(Left, n)))
      else Outcome(rest, [])
  }

  /** Only a join with a non-empty room changes the list; every other frame leaves it as it was. */
  lemma ListChangesOnlyOnJoin(users: seq<Entry>, s: Socket, msg: Inbound, id: string)
    ensures MessageStep(users, s, msg, id).users != users <==> msg.Join? && !Falsy(msg.roomId)
  {
    if msg.Join? && !Falsy(msg.roomId) {
      assert |MessageStep(users, s, msg, id).users| == |users| + 1;
    }
  }

  /**
   * A frame the handler rejects (unparseable, unknown type, join without a
   * room, chat without text) changes nothing and sends nothing.
   */
  lemma RejectedFrameIsNoOp(users: seq<Entry>, s: Socket, msg: Inbound, id: string)
    requires msg.Malformed? || msg.Unknown? || (msg.Join? && Falsy(msg.roomId)) || (msg.Chat? && Falsy(msg.message))
    ensures MessageStep(users, s, msg, id) == Outcome(users, [])
  {
  }

  /** A valid join appends exactly one entry, the sender's, at the end and raises the room's count by one. */
  lemma JoinAppendsOne(users: seq<Entry>, s: Socket, room: string, id: string)
    requires room != ""
    ensures MessageStep(users, s, Join(Some(room)), id).users == users + [Entry(s, room, id)]
    ensures Count(users + [Entry(s, room, id)], room) == Count(users, room) + 1
  {
    CountAfterAppend(users, Entry(s, room, id), room);
  }

  /** A join leaves the count of every other room as it was. */
  lemma JoinKeepsOtherCounts(users: seq<Entry>, s: Socket, room: string, id: string, other: string)
    requires other != room
    ensures Count(users + [Entry(s, room, id)], other) == Count(users, other)
  {
    CountAfterAppend(users, Entry(s, room, id), other);
  }

  /** The frames of a valid join: the join notice with the post-join count, to each entry of the room. */
  lemma JoinSends(users: seq<Entry>, s: Socket, room: string, id: string)
    requires room != ""
    ensures MessageStep(users, s, Join(Some(room)), id).sends
      == Notify(Members(users + [Entry(s, room, id)], room), Notice(Joined, Count(users, room) + 1))
    ensures Members(users + [Entry(s, room, id)], room) == Members(users, room) + [Entry(s, room, id)]
  {
    CountAfterAppend(users, Entry(s, room, id), room);
  }

  /**
   * A valid join sends one join notice per entry of the room, the post-join
   * count `n` of them, the last one to the newcomer.
   */
  lemma JoinNoticeCount(users: seq<Entry>, s: Socket, room: string, id: string)
    requires room != ""
    ensures |MessageStep(users, s, Join(Some(room)), id).sends| == Count(users, room) + 1
    ensures MessageStep(users, s, Join(Some(room)), id).sends[Count(users, room)]
      == Send(s, Notice(Joined, Count(users, room) + 1))
  {
    JoinSends(users, s, room, id);
  }

  /** Every entry of the room, the newcomer included, receives the join notice carrying the post-join count. */
  lemma JoinNoticeReachesRoom(users: seq<Entry>, s: Socket, room: string, id: string, e: Entry)
    requires room != ""
    requires e in users + [Entry(s, room, id)] && e.room == room
    ensures Send(e.socket, Notice(Joined, Count(users, room) + 1)) in MessageStep(users, s, Join(Some(room)), id).sends
  {
    var text := Notice(Joined, Count(users, room) + 1);
    JoinSends(users, s, room, id);
    NotifyReaches(Members(users + [Entry(s, room, id)], room), text);
  }

  /** Every frame a join sends is the join notice, addressed to an entry of the room. */
  lemma JoinNoticeStaysInRoom(users: seq<Entry>, s: Socket, room: string, id: string, m: Send)
    requires room != ""
    requires m in MessageStep(users, s, Join(Some(room)), id).sends
    ensures m.text == Notice(Joined, Count(users, room) + 1)
    ensures exists e :: e in users + [Entry(s, room, id)] && e.room == room && e.socket == m.to
  {
    var text := Notice(Joined, Count(users, room) + 1);
    JoinSends(users, s, room, id);
    NotifyReaches(Members(users + [Entry(s, room, id)], room), text);
  }

  /** A chat from a socket that never joined is dropped. */
  lemma ChatFromOutsiderIsDropped(users: seq<Entry>, s: Socket, message: Option<string>, id: string)
    requires forall e :: e in users ==> e.socket != s
    ensures MessageStep(users, s, Chat(message), id) == Outcome(users, [])
  {
  }

  /**
   * A chat from a joined socket goes verbatim to every entry held by another socket in the
   * sender's first-found room, never back to the sender or out of the room,
   * and leaves the list as it was.
   */
  lemma ChatRelays(users: seq<Entry>, s: Socket, text: string, id: string)
    requires text != ""
    requires FindRoom(users, s).Some? && FindRoom(users, s).value != ""
    ensures var r := MessageStep(users, s, Chat(Some(text)), id);
      var room := FindRoom(users, s).value;
      && r.users == users
      && (forall e :: e in users && e.room == room && e.socket != s ==> Send(e.socket, text) in r.sends)
      && (forall m :: m in r.sends ==>
            m.text == text && m.to != s && exists e :: e in users && e.room == room && e.socket == m.to)
  {
    NotifyReaches(Filter(users, PeerOf(FindRoom(users, s).value, s)), text);
  }

  /**
   * A chat from a joined socket sends one frame per entry of its room held by another socket,
   * in list order: a socket that joined the room twice gets the text twice.
   */
  lemma ChatSends(users: seq<Entry>, s: Socket, text: string, id: string)
    requires text != ""
    requires !Falsy(FindRoom(users, s))
    ensures var room := FindRoom(users, s).value;
      var sends := MessageStep(users, s, Chat(Some(text)), id).sends;
      && sends == Notify(Filter(users, PeerOf(room, s)), text)
      && |sends| == |set i: nat | i < |users| && users[i].room == room && users[i].socket != s|
  {
    var room := FindRoom(users, s).value;
    FilterSize(users, PeerOf(room, s));
    assert Positions(users, PeerOf(room, s)) == set i: nat | i < |users| && users[i].room == room && users[i].socket != s;
    NotifyReaches(Filter(users, PeerOf(room, s)), text);
  }

  /** Close drops every entry of the socket, keeps the others in order, and leaves the socket without a room. */
  lemma CloseRemovesSocket(users: seq<Entry>, s: Socket)
    ensures CloseStep(users, s).users == Without(users, s)
    ensures FindRoom(CloseStep(users, s).users, s).None?
  {
    RemovalIdempotent(users, s);
  }

  /** The count announced on close is below the room's count before the close. */
  lemma CloseLowersCount(users: seq<Entry>, s: Socket)
    requires FindRoom(users, s).Some?
    ensures Count(Without(users, s), FindRoom(users, s).value) < Count(users, FindRoom(users, s).value)
  {
    var i := FirstIndex(users, s);
    assert users[i] in users;
    CountAfterRemoval(users, s, users[i].room);
  }

  /** Close sends nothing when the socket had no room or its room is now empty. */
  lemma CloseSilentWithoutAudience(users: seq<Entry>, s: Socket)
    requires Falsy(FindRoom(users, s)) || Count(Without(users, s), FindRoom(users, s).value) == 0
    ensures CloseStep(users, s).sends == []
  {
  }

  /**
   * When the socket's room still has `n > 0` entries, close sends exactly `n`
   * frames, each the leave notice carrying `n`.
   */
  lemma CloseNoticeCount(users: seq<Entry>, s: Socket)
    requires !Falsy(FindRoom(users, s))
    ensures var n := Count(Without(users, s), FindRoom(users, s).value);
      n > 0 ==> |CloseStep(users, s).sends| == n
  {
  }

  /**
   * When `n > 0` entries of the socket's room remain, close sends the leave
   * notice carrying `n` once per remaining entry, in list order, and `n` is
   * the number of list positions naming the room.
   */
  lemma CloseSends(users: seq<Entry>, s: Socket)
    requires !Falsy(FindRoom(users, s))
    ensures var room := FindRoom(users, s).value;
      var rest := Without(users, s);
      var n := Count(rest, room);
      && n == |RoomIndices(rest, room)|
      && (n > 0 ==> CloseStep(users, s).sends == Notify(Members(rest, room), Notice(Left, n)))
  {
    CountIsCardinality(Without(users, s), FindRoom(users, s).value);
  }

  /** Every remaining entry of the socket's room receives the leave notice carrying the post-removal count. */
  lemma CloseNoticeReachesRoom(users: seq<Entry>, s: Socket, e: Entry)
    requires !Falsy(FindRoom(users, s))
    requires e in Without(users, s) && e.room == FindRoom(users, s).value
    ensures Send(e.socket, Notice(Left, Count(Without(users, s), e.room))) in CloseStep(users, s).sends
  {
    var rest := Without(users, s);
    assert e in Members(rest, e.room);
    NotifyReaches(Members(rest, e.room), Notice(Left, Count(rest, e.room)));
  }

  /** Every frame close sends is the leave notice, addressed to a remaining entry of the socket's room. */
  lemma CloseNoticeStaysInRoom(users: seq<Entry>, s: Socket, m: Send)
    requires m in CloseStep(users, s).sends
    ensures FindRoom(users, s).Some?
    ensures m.text == Notice(Left, Count(Without(users, s), FindRoom(users, s).value))
    ensures exists e :: e in Without(users, s) && e.room == FindRoom(users, s).value && e.socket == m.to
  {
    var room := FindRoom(users, s).value;
    var rest := Without(users, s);
    NotifyReaches(Members(rest, room), Notice(Left, Count(rest, room)));
  }

  /**
   * After an error has removed a socket, its close finds no room: the list
   * stays as it is and no leave notice is sent, so removal never announces
   * a departure twice.
   */
  lemma ErrorThenCloseIsSilent(users: seq<Entry>, s: Socket)
    ensures CloseStep(Without(users, s), s) == Outcome(Without(users, s), [])
  {
    RemovalIdempotent(users, s);
  }

  /** Under the join guard, a socket has a room exactly when it has an entry. */
  lemma JoinedIffHasEntry(users: seq<Entry>, s: Socket)
    requires RoomsNamed(users)
    ensures !Falsy(FindRoom(users, s)) <==> exists e :: e in users && e.socket == s
  {
    if FindRoom(users, s).Some? {
      var i := FirstIndex(users, s);
      assert users[i] in users;
    }
  }

  /** Every handler keeps rooms named. */
  lemma StepsKeepRoomsNamed(users: seq<Entry>, s: Socket, msg: Inbound, id: string)
    requires RoomsNamed(users)
    ensures RoomsNamed(MessageStep(users, s, msg, id).users)
    ensures RoomsNamed(CloseStep(users, s).users)
    ensures RoomsNamed(Without(users, s))
  {
  }

  // A worked run: clients 1 and 2 join room "abc", 1 says "hi", 2 disconnects.

  lemma ScenarioFirstJoin()
    ensures MessageStep([], 1, Join(Some("abc")), "a")
      == Outcome([Entry(1, "abc", "a")], [Send(1, Notice(Joined, 1))])
  {
    var a := Entry(1, "abc", "a");
    assert [] + [a] == [a];
    assert Members([a], "abc") == [a] by {
      FilterKeepsAll([a], InRoom("abc"));
    }
  }

  lemma ScenarioSecondJoin()
    ensures MessageStep([Entry(1, "abc", "a")], 2, Join(Some("abc")), "b")
      == Outcome([Entry(1, "abc", "a"), Entry(2, "abc", "b")], [Send(1, Notice(Joined, 2)), Send(2, Notice(Joined, 2))])
  {
    var a, b := Entry(1, "abc", "a"), Entry(2, "abc", "b");
    assert [a] + [b] == [a, b];
    assert Members([a, b], "abc") == [a, b] by {
      FilterKeepsAll([a, b], InRoom("abc"));
    }
  }

  lemma ScenarioChat()
    ensures MessageStep([Entry(1, "abc", "a"), Entry(2, "abc", "b")], 1, Chat(Some("hi")), "")
      == Outcome([Entry(1, "abc", "a"), Entry(2, "abc", "b")], [Send(2, "hi")])
  {
    var a, b := Entry(1, "abc", "a"), Entry(2, "abc", "b");
    assert FindRoom([a, b], 1) == Some("abc");
    assert Filter([a, b], PeerOf("abc", 1)) == [b] by {
      assert [a, b][1..] == [b] && [b][1..] == [];
    }
    ChatSends([a, b], 1, "hi", "");
    assert Notify([b], "hi") == [Send(2, "hi")];
  }

  /** A socket that joined the room twice receives a chat once per entry. */
  lemma ScenarioChatToDoubleJoin()
    ensures MessageStep([Entry(1, "r", "a"), Entry(2, "r", "b"), Entry(2, "r", "c")], 1, Chat(Some("hi")), "").sends
      == [Send(2, "hi"), Send(2, "hi")]
  {
    var a, b, c := Entry(1, "r", "a"), Entry(2, "r", "b"), Entry(2, "r", "c");
    assert FindRoom([a, b, c], 1) == Some("r");
    assert Filter([a, b, c], PeerOf("r", 1)) == [b, c] by {
      assert [a, b, c][1..] == [b, c];
      FilterKeepsAll([b, c], PeerOf("r", 1));
    }
    ChatSends([a, b, c], 1, "hi", "");
    assert Notify([b, c], "hi") == [Send(2, "hi"), Send(2, "hi")];
  }

  /** A sender's own second entry in the room gets nothing: the chat skips every entry of the sending socket. */
  lemma ScenarioChatSkipsSender()
    ensures MessageStep([Entry(1, "r", "a"), Entry(2, "r", "b"), Entry(1, "r", "c")], 1, Chat(Some("hi")), "").sends
      == [Send(2, "hi")]
  {
    var a, b, c := Entry(1, "r", "a"), Entry(2, "r", "b"), Entry(1, "r", "c");
    assert FindRoom([a, b, c], 1) == Some("r");
    assert Filter([a, b, c], PeerOf("r", 1)) == [b] by {
      assert [a, b, c][1..] == [b, c] && [b, c][1..] == [c] && [c][1..] == [];
      assert Filter([c], PeerOf("r", 1)) == [] + Filter([], PeerOf("r", 1));
    }
    ChatSends([a, b, c], 1, "hi", "");
    assert Notify([b], "hi") == [Send(2, "hi")];
  }

  /** The remaining client is told it is now alone: the room still has one member, so the notice is sent. */
  lemma ScenarioLeave()
    ensures CloseStep([Entry(1, "abc", "a"), Entry(2, "abc", "b")], 2)
      == Outcome([Entry(1, "abc", "a")], [Send(1, Notice(Left, 1))])
  {
    var a, b := Entry(1, "abc", "a"), Entry(2, "abc", "b");
    assert FindRoom([a, b], 2) == Some("abc") by {
      assert [a, b][1..] == [b];
      assert FirstIndex([a, b], 2) == 1;
    }
    assert Without([a, b], 2) == [a] by {
      assert [a, b][1..] == [b] && [b][1..] == [];
      assert Filter([b], NotOf(2)) == [];
      assert Filter([a, b], NotOf(2)) == [a] + Filter([b], NotOf(2));
    }
    assert Members([a], "abc") == [a] by {
      FilterKeepsAll([a], InRoom("abc"));
    }
    assert Count([a], "abc") == 1;
  }
}
