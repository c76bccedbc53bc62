/**
 * server.js (the repository root): the socket handlers for `join-document`
 * and `edit-document`, each run atomically against an in-memory document
 * collection. With only these two operations every stored record keeps its
 * content equal to the newline-join of its timestamp-sorted history.
 */
module BackendServer {
  import opened EditLog
  import opened Resolver
  import opened Gateway
  import opened JsText

  class Server {
    /** The document collection, keyed by document id. */
    var documents: map<string, Document>
    /** Socket.io rooms: document id to the ids of the sockets that joined it. */
    var rooms: map<string, set<string>>

    /** Every stored record is consistent: its history is in timestamp order
        and its content is the newline-join of that history. */
    ghost predicate Valid()
      reads this
    {
      forall id :: id in documents ==> Consistent(documents[id])
    }

    constructor ()
      ensures Valid() && documents == map[] && rooms == map[]
    {
      documents := map[];
      rooms := map[];
    }

    /** `join-document`: without a username the socket gets an error and
        nothing else happens; otherwise it joins the room and loads the
        stored content, a missing document being created empty first and
        its (empty) content loaded. */
    method JoinDocument(socket: string, documentId: string, username: string) returns (reply: JoinReply)
      requires Valid()
      modifies this
      ensures Valid()
      ensures username == "" ==>
        reply == ErrorEvent(UsernameRequired) && documents == old(documents) && rooms == old(rooms)
      ensures username != "" ==> rooms == JoinRoom(old(rooms), documentId, socket)
      ensures username != "" && documentId in old(documents) ==>
        reply == LoadDocument(old(documents)[documentId].content) && documents == old(documents)
      ensures username != "" && documentId !in old(documents) ==>
        reply == LoadDocument("") && documents == old(documents)[documentId := EmptyDocument()]
    {
      if username == "" {
        reply := ErrorEvent(UsernameRequired);
        return;
      }
      rooms := JoinRoom(rooms, documentId, socket);
      var document: Document;
      if documentId in documents {
        document := documents[documentId];
      } else {
        document := EmptyDocument();
        documents := documents[documentId := document];
      }
      reply := LoadDocument(document.content);
    }

    /** `edit-document`, with `now` standing for `Date.now()`: a missing
        username or blank content drops the edit silently; otherwise the edit
        is resolved into the stored record and the new content goes to the
        other sockets in the room. */
    method EditDocument(socket: string, documentId: string, content: string, username: string, now: int)
      returns (update: Option<Update>)
      requires Valid()
      modifies this
      ensures Valid()
      ensures rooms == old(rooms)
      ensures !EditAccepted(username, content) ==> update == None && documents == old(documents)
      ensures EditAccepted(username, content) ==>
        && documents == old(documents)[documentId := ResolveEdit(Lookup(old(documents), documentId), Edit(username, content, now))]
        && update == Some(UpdateDocument(Peers(rooms, documentId, socket), documents[documentId].content))
      ensures EditAccepted(username, content) && documentId in old(documents) ==>
        var prior := old(documents)[documentId].changes;
        var k := InsertionPoint(prior, now);
        documents[documentId].changes == prior[..k] + [Edit(username, content, now)] + prior[k..]
    {
      if !EditAccepted(username, content) {
        update := None;
        return;
      }
      var timestamp := now;
      var newEdit := Edit(username, content, timestamp);
      var document: Document;
      if documentId !in documents {
        document := Document(content, [newEdit], None);
      } else {
        document := documents[documentId];
        var changes := document.changes + [newEdit];
        changes := SortByTime(changes);
        document := document.(changes := changes, content := JoinLines(Contents(changes)));
      }
      assert document == ResolveEdit(Lookup(documents, documentId), newEdit);
      assert documentId in documents ==>
        var prior := documents[documentId].changes;
        var k := InsertionPoint(prior, now);
        document.changes == prior[..k] + [newEdit] + prior[k..]
      by {
        if documentId in documents {
          ResolveKeepsPriorOrder(documents[documentId], newEdit);
        }
      }
      ghost var before := documents;
      documents := documents[documentId := document];
      forall id | id in documents ensures Consistent(documents[id]) {
        if id != documentId {
          assert documents[id] == before[id];
        }
      }
      update := Some(UpdateDocument(Peers(rooms, documentId, socket), document.content));
    }
  }

  /** A first join creates the document and loads ""; an edit then changes
      it, and a second join loads the edited content instead of resetting. */
  method SecondJoinKeepsDocument(socket: string, documentId: string, username: string, content: string, now: int)
    returns (first: JoinReply, second: JoinReply)
    requires username != "" && !IsBlank(content)
    ensures first == LoadDocument("")
    ensures second == LoadDocument(content)
  {
    var server := new Server();
    first := server.JoinDocument(socket, documentId, username);
    var update := server.EditDocument(socket, documentId, content, username, now);
    assert server.documents[documentId].content == content by {
      assert [] + [Edit(username, content, now)] == [Edit(username, content, now)];
      SortSortedIsIdentity([Edit(username, content, now)]);
    }
    second := server.JoinDocument(socket, documentId, username);
  }
}
