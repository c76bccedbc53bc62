/**
 * The session gateway's vocabulary, shared by both servers: the replies a
 * join gets, the broadcast an accepted edit produces, room membership, and
 * the guard that silently drops an edit.
 */
module Gateway {
  import opened JsText

  /** The message of the `error` event a join without a username gets. */
  const UsernameRequired: string := "Username is required!"

  /** What the joining socket receives: an `error` event or `load-document`. */
  datatype JoinReply = ErrorEvent(message: string) | LoadDocument(content: string)

  /** An `update-document` event: the sockets it reaches and its payload. */
  datatype Update = UpdateDocument(recipients: set<string>, content: string)

  /** The edit handler's guard `!username || !content.trim()`, negated: an
      edit goes through exactly when it has a username and some character of
      its content is not whitespace. */
  function EditAccepted(username: string, content: string): (accepted: bool)
    ensures accepted <==> username != "" && !IsBlank(content)
  {
    username != "" && Trim(content) != ""
  }

  /** The socket ids that have joined `room`. */
  function Members(rooms: map<string, set<string>>, room: string): set<string> {
    if room in rooms then rooms[room] else {}
  }

  /** `socket.join(room)`: the socket is added to that room and every other
      room keeps its members. */
  function JoinRoom(rooms: map<string, set<string>>, room: string, socket: string): (joined: map<string, set<string>>)
    ensures Members(joined, room) == Members(rooms, room) + {socket}
    ensures forall other :: other != room ==> Members(joined, other) == Members(rooms, other)
  {
    rooms[room := Members(rooms, room) + {socket}]
  }

  /** `socket.to(room)`: every member of the room except the sender. */
  function Peers(rooms: map<string, set<string>>, room: string, sender: string): (peers: set<string>)
    ensures forall s :: s in peers <==> s in Members(rooms, room) && s != sender
  {
    Members(rooms, room) - {sender}
  }

  /** Once a socket has joined a room, it receives every later broadcast to
      that room except its own, and joining leaves every other room's
      broadcasts as they were. */
  lemma JoinedSocketReceivesPeersUpdates(rooms: map<string, set<string>>, room: string, socket: string, sender: string)
    ensures socket in Peers(JoinRoom(rooms, room, socket), room, sender) <==> socket != sender
    ensures forall other :: other != room ==>
      Peers(JoinRoom(rooms, room, socket), other, sender) == Peers(rooms, other, sender)
  {
    forall other | other != room
      ensures Peers(JoinRoom(rooms, room, socket), other, sender) == Peers(rooms, other, sender)
    {
      assert Members(JoinRoom(rooms, room, socket), other) == Members(rooms, other);
    }
  }
}
