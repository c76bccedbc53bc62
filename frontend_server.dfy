/**
 * collaborative-editor-frontend/server.js: the socket handlers for
 * `join-document` and `edit-document` and the HTTP routes `POST
 * /save-document` and `DELETE /clear-history`, each run atomically against
 * an in-memory document collection.
 */
module FrontendServer {
  import opened EditLog
  import opened Resolver
  import opened Gateway
  import opened JsText

  /** The JSON body of an HTTP reply: `{ error }` or `{ message }`. */
  datatype Body = ErrorBody(error: string) | MessageBody(message: string)

  datatype Response = Response(status: int, body: Body)

  /** The record `findOneAndUpdate({ documentId }, { content, lastModified },
      { upsert: true })` leaves: content and lastModified replaced, the
      history untouched, and a missing record created with no history. */
  function Upsert(stored: Option<Document>, content: string, now: int): (d: Document)
    ensures d.content == content && d.lastModified == Some(now)
    ensures d.changes == (if stored.Some? then stored.value.changes else [])
  {
    match stored
    case None => Document(content, [], Some(now))
    case Some(doc) => doc.(content := content, lastModified := Some(now))
  }

  class Server {
    /** The document collection, keyed by document id. */
    var documents: map<string, Document>
    /** Socket.io rooms: document id to the ids of the sockets that joined it. */
    var rooms: map<string, set<string>>

    /** Every stored history is in timestamp order. (Content need not be the
        join of the history here: a save replaces content alone.) */
    ghost predicate Valid()
      reads this
    {
      forall id :: id in documents ==> SortedByTime(documents[id].changes)
    }

    constructor ()
      ensures Valid() && documents == map[] && rooms == map[]
    {
      documents := map[];
      rooms := map[];
    }

    /** `join-document`: without a username the socket gets an error and
        nothing else happens; otherwise it joins the room and loads the
        stored content, a missing document being created empty first. */
    method JoinDocument(socket: string, documentId: string, username: string) returns (reply: JoinReply)
      requires Valid()
      modifies this
      ensures Valid()
      ensures username == "" ==>
        reply == ErrorEvent(UsernameRequired) && documents == old(documents) && rooms == old(rooms)
      ensures username != "" ==> rooms == JoinRoom(old(rooms), documentId, socket)
      ensures username != "" && documentId in old(documents) ==>
        reply == LoadDocument(old(documents)[documentId].content) && documents == old(documents)
      ensures username != "" && documentId !in old(documents) ==>
        reply == LoadDocument("") && documents == old(documents)[documentId := EmptyDocument()]
    {
      if username == "" {
        reply := ErrorEvent(UsernameRequired);
        return;
      }
      rooms := JoinRoom(rooms, documentId, socket);
      if documentId in documents {
        reply := LoadDocument(documents[documentId].content);
      } else {
        documents := documents[documentId := EmptyDocument()];
        reply := LoadDocument("");
      }
    }

    /** `edit-document`, with `now` standing for `Date.now()`: a missing
        username or blank content drops the edit silently; otherwise the edit
        is resolved into the stored record and the new content goes to the
        other sockets in the room. */
    method EditDocument(socket: string, documentId: string, content: string, username: string, now: int)
      returns (update: Option<Update>)
      requires Valid()
      modifies this
      ensures Valid()
      ensures rooms == old(rooms)
      ensures !EditAccepted(username, content) ==> update == None && documents == old(documents)
      ensures EditAccepted(username, content) ==>
        && documents == old(documents)[documentId := ResolveEdit(Lookup(old(documents), documentId), Edit(username, content, now))]
        && update == Some(UpdateDocument(Peers(rooms, documentId, socket), documents[documentId].content))
        && Consistent(documents[documentId])
      ensures EditAccepted(username, content) && documentId in old(documents) ==>
        var prior := old(documents)[documentId].changes;
        var k := InsertionPoint(prior, now);
        documents[documentId].changes == prior[..k] + [Edit(username, content, now)] + prior[k..]
    {
      if !EditAccepted(username, content) {
        update := None;
        return;
      }
      var timestamp := now;
      var newEdit := Edit(username, content, timestamp);
      var document: Document;
      if documentId !in documents {
        document := Document(content, [newEdit], None);
      } else {
        document := documents[documentId];
        var changes := document.changes + [newEdit];
        changes := SortByTime(changes);
        document := document.(changes := changes, content := JoinLines(Contents(changes)));
      }
      assert document == ResolveEdit(Lookup(documents, documentId), newEdit);
      assert documentId in documents ==>
        var prior := documents[documentId].changes;
        var k := InsertionPoint(prior, now);
        document.changes == prior[..k] + [newEdit] + prior[k..]
      by {
        if documentId in documents {
          ResolveKeepsPriorOrder(documents[documentId], newEdit);
        }
      }
      ghost var before := documents;
      documents := documents[documentId := document];
      forall id | id in documents ensures SortedByTime(documents[id].changes) {
        if id != documentId {
          assert documents[id] == before[id];
        }
      }
      update := Some(UpdateDocument(Peers(rooms, documentId, socket), document.content));
    }

    /** `POST /save-document`, with `now` standing for `new Date()`: 400
        without a username, otherwise the record's content and lastModified
        are upserted and its history is left alone. */
    method SaveDocument(documentId: string, content: string, username: string, now: int)
      returns (response: Response)
      requires Valid()
      modifies this
      ensures Valid()
      ensures rooms == old(rooms)
      ensures username == "" ==>
        response == Response(400, ErrorBody(UsernameRequired)) && documents == old(documents)
      ensures username != "" ==>
        && response == Response(200, MessageBody("Saved by " + username + "!"))
        && documents == old(documents)[documentId := Upsert(Lookup(old(documents), documentId), content, now)]
    {
      if username == "" {
        response := Response(400, ErrorBody(UsernameRequired));
        return;
      }
      documents := documents[documentId := Upsert(Lookup(documents, documentId), content, now)];
      response := Response(200, MessageBody("Saved by " + username + "!"));
    }

    /** `DELETE /clear-history`: every document is deleted. */
    method ClearHistory() returns (response: Response)
      modifies this
      ensures Valid()
      ensures documents == map[] && rooms == old(rooms)
      ensures response == Response(200, MessageBody("Conversation history cleared!"))
    {
      documents := map[];
      response := Response(200, MessageBody("Conversation history cleared!"));
    }
  }

  /** After a clear, a join on a document that had content behaves as a
      first use: it gets "" again. */
  method ClearMakesJoinFirstUse(socket: string, documentId: string, username: string, content: string, now: int)
    returns (before: JoinReply, after: JoinReply)
    requires username != "" && !IsBlank(content)
    ensures before == LoadDocument(content)
    ensures after == LoadDocument("")
  {
    var server := new Server();
    var update := server.EditDocument(socket, documentId, content, username, now);
    before := server.JoinDocument(socket, documentId, username);
    var cleared := server.ClearHistory();
    after := server.JoinDocument(socket, documentId, username);
  }

  /** A save replaces the content but not the history, so a saved text other
      than the history's join leaves the record inconsistent, and the next
      accepted edit recomputes the content from the history: the saved text
      is gone. */
  method NextEditDiscardsSavedContent(socket: string, documentId: string, username: string, first: string, saved: string,
                                      later: string, t1: int, t2: int, savedAt: int)
    returns (afterSave: Document, afterEdit: Document)
    requires username != "" && !IsBlank(first) && !IsBlank(later)
    requires t1 <= t2
    ensures afterSave.content == saved && afterSave.changes == [Edit(username, first, t1)]
    ensures Consistent(afterSave) <==> saved == first
    ensures afterEdit.content == first + "\n" + later
  {
    var e1, e2 := Edit(username, first, t1), Edit(username, later, t2);
    var server := new Server();
    var update := server.EditDocument(socket, documentId, first, username, t1);
    var created := server.documents[documentId];
    assert created == Document(first, [e1], None);
    var response := server.SaveDocument(documentId, saved, username, savedAt);
    afterSave := server.documents[documentId];
    assert afterSave == Upsert(Some(created), saved, savedAt);
    update := server.EditDocument(socket, documentId, later, username, t2);
    afterEdit := server.documents[documentId];
    assert afterEdit == ResolveEdit(Some(afterSave), e2);
    SaveThenEdit(created, saved, savedAt, e2);
  }

  /** On a record holding one edit, a save keeps the record consistent only
      if it saves that edit's text, and a later edit brings back the join of
      the history whatever was saved. */
  lemma SaveThenEdit(doc: Document, saved: string, savedAt: int, later: Edit)
    requires |doc.changes| == 1 && doc.changes[0].timestamp <= later.timestamp
    ensures var afterSave := Upsert(Some(doc), saved, savedAt);
      && (Consistent(afterSave) <==> saved == doc.changes[0].content)
      && ResolveEdit(Some(afterSave), later).content == doc.changes[0].content + "\n" + later.content
  {
    var first := doc.changes[0];
    var afterSave := Upsert(Some(doc), saved, savedAt);
    assert afterSave.changes == [first];
    assert Contents([first]) == [first.content];
    SecondEditPlacement(afterSave, later);
    JoinTwo(first, later);
  }

  /** For any record, a save leaves it consistent exactly when the saved text
      is the join of its history, and the next edit resolves as if the save
      had never happened: the history and the recomputed content are those
      the edit gives on the record before the save. */
  lemma SaveIsForgottenByNextEdit(doc: Document, saved: string, savedAt: int, e: Edit)
    requires SortedByTime(doc.changes)
    ensures var afterSave := Upsert(Some(doc), saved, savedAt);
      && (Consistent(afterSave) <==> saved == JoinLines(Contents(doc.changes)))
      && ResolveEdit(Some(afterSave), e).changes == ResolveEdit(Some(doc), e).changes
      && ResolveEdit(Some(afterSave), e).content == ResolveEdit(Some(doc), e).content
  {
  }
}
