/**
 The Socket.IO connection handler of server/src/index.ts as a state machine.
 Each socket event (a connection, a disconnect, a relayed `text-update` or
 `chat-update`) is one atomic method; the relay runs on a single thread, so
 no two of them interleave.
 */
module RelayServer {
  import opened Prelude
  import opened Roster

  /** The transport's own connection id (`socket.id`). */
  type SocketId = string

  /** The `chatUser` payload; the relay never looks inside it. */
  datatype ChatMessage = ChatMessage(id: string, name: string, message: string, timestamp: int)

  /** The events the server emits. */
  datatype Event =
    | Users(roster: seq<User>)
    | TextUpdate(text: string)
    | ChatUpdate(chat: ChatMessage)

  /** One emit: the event and the sockets it is delivered to. */
  datatype Emission = Emission(recipients: set<SocketId>, event: Event)

  class Server {
    /** `roomUsers["default"]`, the roster broadcast to the room. */
    var roster: seq<User>
    /** The sockets that have joined the room "default". */
    var room: set<SocketId>
    /** The `safeUser` each live connection's handlers closed over. */
    var sessions: map<SocketId, User>

    /**
     Ids in the roster are pairwise distinct, the room is exactly the live
     connections, and every roster entry is the identity of a live connection
     (no stale entries).
     */
    ghost predicate Valid()
      reads this
    {
      && UniqueIds(roster)
      && room == sessions.Keys
      && forall u :: u in roster ==> u in sessions.Values
    }

    /** The server at start-up: no room entry, nobody connected. */
    constructor ()
      ensures Valid()
      ensures roster == [] && room == {} && sessions == map[]
    {
      roster, room, sessions := [], {}, map[];
    }

    /**
     `io.on("connection")`: work out the identity from the handshake, add it to
     the roster unless its id is already there, join the socket to the room
     and send the roster to everyone in the room, the new socket included.
     */
    method Connect(socketId: SocketId, userId: Option<string>, name: Option<string>) returns (e: Emission)
      requires Valid()
      requires socketId !in sessions  // the transport hands out fresh connection ids
      modifies this
      ensures Valid()
      ensures sessions == old(sessions)[socketId := Identity(socketId, userId, name)]
      ensures room == old(room) + {socketId}
      ensures roster == Join(old(roster), Identity(socketId, userId, name))
      ensures HasId(roster, Identity(socketId, userId, name).id)
      ensures e == Emission(room, Users(roster)) && socketId in e.recipients
    {
      var safeUser := Identity(socketId, userId, name);
      JoinUniqueIds(roster, safeUser);
      ghost var before := sessions;
      if Find(roster, safeUser.id).None? {
        roster := roster + [safeUser];
      }
      sessions := sessions[socketId := safeUser];
      room := room + {socketId};
      forall u | u in roster ensures u in sessions.Values {
        if u != safeUser {
          var s :| s in before && before[s] == u;
          assert sessions[s] == u;
        } else {
          assert sessions[socketId] == u;
        }
      }
      e := Emission(room, Users(roster));
    }

    /**
     `socket.on("disconnect")`: remove every roster entry with the id this
     connection was given and send the roster to the sockets still in the room
     (the leaving socket has already left it).
     */
    method Disconnect(socketId: SocketId) returns (e: Emission)
      requires Valid()
      requires socketId in sessions  // the handler exists only for a live connection
      modifies this
      ensures Valid()
      ensures sessions == old(sessions) - {socketId}
      ensures room == old(room) - {socketId}
      ensures roster == Leave(old(roster), old(sessions)[socketId].id)
      ensures !HasId(roster, old(sessions)[socketId].id)
      ensures e == Emission(room, Users(roster)) && socketId !in e.recipients
    {
      var leaving := sessions[socketId];
      ghost var before := sessions;
      LeaveUniqueIds(roster, leaving.id);
      roster := Leave(roster, leaving.id);
      sessions := sessions - {socketId};
      room := room - {socketId};
      forall u | u in roster ensures u in sessions.Values {
        var s :| s in before && before[s] == u;
        assert s != socketId;
        assert sessions[s] == u;
      }
      e := Emission(room, Users(roster));
    }

    /** `socket.on("text-update")`: forward the text verbatim to everyone in the room but the sender. */
    method RelayText(sender: SocketId, data: string) returns (e: Emission)
      requires Valid()
      requires sender in sessions
      ensures e.event == TextUpdate(data)
      ensures forall s :: s in e.recipients <==> s in room && s != sender
    {
      e := Emission(room - {sender}, TextUpdate(data));
    }

    /** `socket.on("chat-update")`: forward the chat message verbatim to everyone in the room but the sender. */
    method RelayChat(sender: SocketId, data: ChatMessage) returns (e: Emission)
      requires Valid()
      requires sender in sessions
      ensures e.event == ChatUpdate(data)
      ensures forall s :: s in e.recipients <==> s in room && s != sender
    {
      e := Emission(room - {sender}, ChatUpdate(data));
    }
  }

  /**
   Of two live connections under one id, the first to disconnect takes the id
   off the roster, while the other stays in the room and receives the new
   roster without it.
   */
  method DisconnectSharedId(server: Server, first: SocketId, second: SocketId, id: string) returns (e: Emission)
    requires server.Valid()
    requires first in server.sessions && second in server.sessions && first != second
    requires server.sessions[first].id == id && server.sessions[second].id == id
    modifies server
    ensures server.Valid()
    ensures second in server.room && second in e.recipients
    ensures server.sessions[second].id == id
    ensures !HasId(server.roster, id)
    ensures e.event == Users(server.roster)
  {
    e := server.Disconnect(first);
  }

  /**
   A and B join, A types "hello", then A leaves: B sees both in the roster,
   B alone receives the text, and the last roster holds only B.
   */
  method TwoParticipants()
  {
    var server := new Server();
    var e1 := server.Connect("sA", Some("A"), Some("Ann"));
    var e2 := server.Connect("sB", Some("B"), Some("Bob"));
    assert e2.event == Users([User("A", "Ann"), User("B", "Bob")]);
    assert "sA" in e2.recipients && "sB" in e2.recipients;
    var e3 := server.RelayText("sA", "hello");
    assert e3 == Emission({"sB"}, TextUpdate("hello"));
    var e4 := server.Disconnect("sA");
    assert server.roster == Leave([User("A", "Ann"), User("B", "Bob")], "A");
    assert Leave([User("B", "Bob")], "A") == [User("B", "Bob")];
    assert e4 == Emission({"sB"}, Users([User("B", "Bob")]));
  }

  /**
   Two connections under one id: the second join leaves the roster as it was
   (the new name is not stored), and the first disconnect drops the id while
   the second connection is still in the room.
   */
  method SharedId()
  {
    var server := new Server();
    var e1 := server.Connect("s1", Some("A"), Some("Ann"));
    assert server.roster == [User("A", "Ann")];
    var e2 := server.Connect("s2", Some("A"), Some("Annie"));
    JoinKnown([User("A", "Ann")], User("A", "Annie"));
    assert e2.event == Users([User("A", "Ann")]);
    assert server.sessions["s1"].id == "A";
    var e3 := server.Disconnect("s1");
    assert server.roster == Leave([User("A", "Ann")], "A") == [];
    assert server.room == {"s2"};
    assert e3 == Emission({"s2"}, Users([]));
  }

  /** A handshake without hints is identified by the connection id and named "Anonymous". */
  method AnonymousFallback()
  {
    var server := new Server();
    var e := server.Connect("sX", None, None);
    assert server.roster == [User("sX", "Anonymous")];
    assert e == Emission({"sX"}, Users([User("sX", "Anonymous")]));
    var e' := server.Connect("sY", Some(""), Some(""));
    assert e'.event == Users([User("sX", "Anonymous"), User("", "")]);
  }
}
