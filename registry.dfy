/**
 * The connection registry: the process-wide list of member entries
 * (`activeUsers`) and the three queries and updates made on it, together
 * with the fan-out of one text to a list of entries.
 */
module Registry {
  import opened Wrappers
  import opened Seqs

  /** A connection handle; the transport object itself is opaque. */
  type Socket = nat

  /** One member entry: the socket, the room it joined and the id drawn at join time. */
  datatype Entry = Entry(socket: Socket, room: string, id: string)

  /** One outbound frame: `text` written to the socket `to`. */
  datatype Send = Send(to: Socket, text: string)

  function InRoom(room: string): Entry -> bool {
    (e: Entry) => e.room == room
  }

  function NotOf(s: Socket): Entry -> bool {
    (e: Entry) => e.socket != s
  }

  function PeerOf(room: string, s: Socket): Entry -> bool {
    (e: Entry) => e.room == room && e.socket != s
  }

  /** The position of the first entry of `s`, or `|users|` when it has none (`Array.prototype.find`). */
  function FirstIndex(users: seq<Entry>, s: Socket): (i: nat)
    ensures i <= |users|
    ensures forall j :: 0 <= j < i ==> users[j].socket != s
    ensures i < |users| ==> users[i].socket == s
    decreases |users|
  {
    if users == [] then 0
    else if users[0].socket == s then 0
    else 1 + FirstIndex(users[1..], s)
  }

  /** `findRoomForSocket`: the room of the first entry of `s`, absent when `s` has no entry. */
  function FindRoom(users: seq<Entry>, s: Socket): (r: Option<string>)
    ensures r.None? <==> forall e :: e in users ==> e.socket != s
    ensures r.Some? ==>
      exists i :: 0 <= i < |users| && users[i].socket == s && users[i].room == r.value
        && forall j :: 0 <= j < i ==> users[j].socket != s
  {
    var i := FirstIndex(users, s);
    if i < |users| then Some(users[i].room) else None
  }

  /** `removeSocket`: the list without any entry of `s`, the others in their order. */
  function Without(users: seq<Entry>, s: Socket): (r: seq<Entry>)
    ensures forall e :: e in r <==> e in users && e.socket != s
  {
    Filter(users, NotOf(s))
  }

  /** The entries of `room`, in list order. */
  function Members(users: seq<Entry>, room: string): (r: seq<Entry>)
    ensures forall e :: e in r <==> e in users && e.room == room
  {
    Filter(users, InRoom(room))
  }

  /** `getUsersInRoom`: how many entries name `room`. */
  function Count(users: seq<Entry>, room: string): (n: nat)
    ensures n <= |users|
    ensures n == 0 <==> forall e :: e in users ==> e.room != room
  {
    var m := Members(users, room);
    assert m != [] ==> m[0] in m;
    |m|
  }

  /** One send of `text` to each entry of `targets`, in order (the `forEach` over a filtered list). */
  function Notify(targets: seq<Entry>, text: string): seq<Send> {
    seq(|targets|, k requires 0 <= k < |targets| => Send(targets[k].socket, text))
  }

  /** The positions in the list of the entries naming `room`. */
  ghost function RoomIndices(users: seq<Entry>, room: string): set<nat> {
    set i: nat | i < |users| && users[i].room == room
  }

  /** The member count equals the number of positions in the list whose room is `room`. */
  lemma CountIsCardinality(users: seq<Entry>, room: string)
    ensures Count(users, room) == |RoomIndices(users, room)|
  {
    FilterSize(users, InRoom(room));
    assert Positions(users, InRoom(room)) == RoomIndices(users, room);
  }

  /** Appending one entry raises its own room's count by one and leaves every other room's. */
  lemma CountAfterAppend(users: seq<Entry>, e: Entry, room: string)
    ensures Count(users + [e], room) == Count(users, room) + (if e.room == room then 1 else 0)
    ensures e.room == room ==> Members(users + [e], room) == Members(users, room) + [e]
  {
    FilterAppend(users, [e], InRoom(room));
    assert Filter([e], InRoom(room)) == (if e.room == room then [e] else []) + Filter([], InRoom(room));
  }

  /** Removing a socket never raises a room's count, and lowers it when the socket had an entry there. */
  lemma {:induction false} CountAfterRemoval(users: seq<Entry>, s: Socket, room: string)
    ensures Count(Without(users, s), room) <= Count(users, room)
    ensures (exists e :: e in users && e.socket == s && e.room == room) ==>
      Count(Without(users, s), room) < Count(users, room)
    decreases |users|
  {
    if users != [] {
      var e, rest := users[0], users[1..];
      assert users == [e] + rest;
      FilterAppend([e], rest, NotOf(s));
      FilterAppend([e], rest, InRoom(room));
      assert Filter([e], NotOf(s)) == (if e.socket != s then [e] else []) + Filter([], NotOf(s));
      assert Filter([e], InRoom(room)) == (if e.room == room then [e] else []) + Filter([], InRoom(room));
      FilterAppend(Filter([e], NotOf(s)), Without(rest, s), InRoom(room));
      CountAfterRemoval(rest, s, room);
    }
  }

  /** Removal is idempotent, and removing a socket that has no entry changes nothing. */
  lemma RemovalIdempotent(users: seq<Entry>, s: Socket)
    ensures Without(Without(users, s), s) == Without(users, s)
    ensures FindRoom(users, s).None? ==> Without(users, s) == users
    ensures FindRoom(Without(users, s), s).None?
  {
    FilterKeepsAll(Without(users, s), NotOf(s));
    if FindRoom(users, s).None? {
      FilterKeepsAll(users, NotOf(s));
    }
  }

  /** Removal keeps the surviving entries in their order: it distributes over any split of the list. */
  lemma RemovalKeepsOrder(front: seq<Entry>, back: seq<Entry>, s: Socket)
    ensures Without(front + back, s) == Without(front, s) + Without(back, s)
  {
    FilterAppend(front, back, NotOf(s));
  }

  /** Fan-out sends `text` once per target, in the targets' order, and nothing else. */
  lemma NotifyReaches(targets: seq<Entry>, text: string)
    ensures |Notify(targets, text)| == |targets|
    ensures forall k :: 0 <= k < |targets| ==> Notify(targets, text)[k] == Send(targets[k].socket, text)
    ensures forall e :: e in targets ==> Send(e.socket, text) in Notify(targets, text)
    ensures forall m :: m in Notify(targets, text) ==>
      m.text == text && exists e :: e in targets && e.socket == m.to
  {
    var out := Notify(targets, text);
    forall e | e in targets
      ensures Send(e.socket, text) in out
    {
      var k :| 0 <= k < |targets| && targets[k] == e;
      assert out[k] == Send(e.socket, text);
    }
    forall m | m in out
      ensures m.text == text && exists e :: e in targets && e.socket == m.to
    {
      var k :| 0 <= k < |out| && out[k] == m;
      assert targets[k] in targets;
    }
  }
}
