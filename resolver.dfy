/**
 * The edit-log resolver: what an accepted edit does to the stored record of
 * its document. A missing record is created holding just the edit; an
 * existing one gets the edit pushed onto its history, the history re-sorted
 * by timestamp, and its content recomputed as the newline-join of the
 * history.
 */
module Resolver {
  import opened EditLog

  /** The record a store lookup finds for `id`, if any. */
  function Lookup(documents: map<string, Document>, id: string): (found: Option<Document>)
    ensures found.Some? <==> id in documents
    ensures found.Some? ==> found.value == documents[id]
  {
    if id in documents then Some(documents[id]) else None
  }

  /** The record a first join creates: `{content: "", changes: []}`. */
  function EmptyDocument(): (d: Document)
    ensures Consistent(d) && d.content == "" && d.changes == []
  {
    Document("", [], None)
  }

  /** The record an accepted edit `e` leaves behind, given the stored one. */
  function ResolveEdit(stored: Option<Document>, e: Edit): (d: Document)
    ensures Consistent(d)
    ensures stored.None? ==> d.changes == [e] && d.content == e.content && d.lastModified == None
    ensures stored.Some? ==>
      && |d.changes| == |stored.value.changes| + 1
      && multiset(d.changes) == multiset(stored.value.changes) + multiset{e}
      && d.lastModified == stored.value.lastModified
  {
    match stored
    case None => Document(e.content, [e], None)
    case Some(doc) =>
      var changes := SortByTime(doc.changes + [e]);
      doc.(changes := changes, content := JoinLines(Contents(changes)))
  }

  /** On a history in timestamp order (every history the handlers build), the
      new edit is inserted after every entry not later than it and before
      every later one, and the prior entries keep their relative order. */
  lemma ResolveKeepsPriorOrder(doc: Document, e: Edit)
    requires SortedByTime(doc.changes)
    ensures var prior := doc.changes;
      var k := InsertionPoint(prior, e.timestamp);
      && ResolveEdit(Some(doc), e).changes == prior[..k] + [e] + prior[k..]
      && (forall i :: 0 <= i < k ==> prior[i].timestamp <= e.timestamp)
      && (forall i :: k <= i < |prior| ==> prior[i].timestamp > e.timestamp)
  {
    PushThenSort(doc.changes, e);
  }

  /** Edits that share a timestamp stay in the order they reached the
      history: the new one comes after the earlier ones. */
  lemma ResolveKeepsTies(doc: Document, e: Edit, t: int)
    ensures WithTimestamp(ResolveEdit(Some(doc), e).changes, t)
         == WithTimestamp(doc.changes, t) + (if e.timestamp == t then [e] else [])
  {
    var pushed := doc.changes + [e];
    SortIsStable(pushed, t);
    assert pushed[..|pushed| - 1] == doc.changes;
  }

  /** An edit that is not older than anything in a consistent, non-empty
      document appends exactly one line to its content. */
  lemma InOrderEditAppendsLine(doc: Document, e: Edit)
    requires Consistent(doc) && doc.changes != []
    requires forall i :: 0 <= i < |doc.changes| ==> doc.changes[i].timestamp <= e.timestamp
    ensures ResolveEdit(Some(doc), e).content == doc.content + "\n" + e.content
  {
    var prior := doc.changes;
    var pushed := prior + [e];
    assert pushed[..|pushed| - 1] == prior;
    assert SortByTime(pushed) == Insert(SortByTime(prior), e);
    SortSortedIsIdentity(prior);
    assert prior[|prior| - 1].timestamp <= e.timestamp;
    assert SortByTime(pushed) == pushed;
    ContentsAppend(prior, e);
    JoinAppend(Contents(prior), [e.content]);
  }

  /** Two edits to a new document end up ordered by timestamp whichever
      arrives first; on equal timestamps the first to arrive comes first. */
  lemma TwoEditsOrderedByTimestamp(e1: Edit, e2: Edit)
    requires e1.timestamp <= e2.timestamp
    ensures ResolveEdit(Some(ResolveEdit(None, e1)), e2).content == e1.content + "\n" + e2.content
    ensures e1.timestamp < e2.timestamp ==>
      ResolveEdit(Some(ResolveEdit(None, e2)), e1).content == e1.content + "\n" + e2.content
  {
    SecondEditPlacement(ResolveEdit(None, e1), e2);
    JoinTwo(e1, e2);
    if e1.timestamp < e2.timestamp {
      SecondEditPlacement(ResolveEdit(None, e2), e1);
    }
  }

  /** A second edit to a document holding a single edit goes before it
      only when it is strictly older. */
  lemma SecondEditPlacement(doc: Document, second: Edit)
    requires |doc.changes| == 1
    ensures var first := doc.changes[0];
      ResolveEdit(Some(doc), second).changes
        == if first.timestamp <= second.timestamp then [first, second] else [second, first]
  {
    var first := doc.changes[0];
    assert doc.changes == [first];
    PushThenSort([first], second);
    if first.timestamp <= second.timestamp {
      assert InsertionPoint([first], second.timestamp) == 1;
      assert [first][..1] + [second] + [first][1..] == [first, second];
    } else {
      assert InsertionPoint([first], second.timestamp) == 0;
      assert [first][..0] + [second] + [first][0..] == [second, first];
    }
  }

  /** An edit stamped between the two edits of a document goes between them. */
  lemma LateEditLandsBetween(d: Document, c: Edit)
    requires |d.changes| == 2
    requires d.changes[0].timestamp <= c.timestamp < d.changes[1].timestamp
    ensures ResolveEdit(Some(d), c).content == d.changes[0].content + "\n" + c.content + "\n" + d.changes[1].content
  {
    var a, b := d.changes[0], d.changes[1];
    assert d.changes == [a, b];
    assert ResolveEdit(Some(d), c).changes == [a, c, b] by {
      SortPushed([a, b], c);
      SortSortedIsIdentity([a, b]);
      InsertBetween(a, b, c);
    }
    JoinThree(a, c, b);
  }

  /** Proof helper: insertion into a two-entry history puts an edit stamped
      between the two in the middle. */
  lemma InsertBetween(a: Edit, b: Edit, c: Edit)
    requires a.timestamp <= c.timestamp < b.timestamp
    ensures Insert([a, b], c) == [a, c, b]
  {
    assert [a, b][..1] == [a];
    assert Insert([a], c) == [a, c];
  }

  /** Proof helper: the content of a three-edit history. */
  lemma JoinThree(e1: Edit, e2: Edit, e3: Edit)
    ensures JoinLines(Contents([e1, e2, e3])) == e1.content + "\n" + e2.content + "\n" + e3.content
  {
    var lines := Contents([e1, e2, e3]);
    assert lines == [e1.content] + [e2.content, e3.content];
    JoinAppend([e1.content], [e2.content, e3.content]);
    assert [e2.content, e3.content][1..] == [e3.content];
  }

  /** Proof helper: the content of a two-edit history. */
  lemma JoinTwo(e1: Edit, e2: Edit)
    ensures JoinLines(Contents([e1, e2])) == e1.content + "\n" + e2.content
  {
    assert Contents([e1, e2]) == [e1.content, e2.content];
    assert Contents([e1, e2])[1..] == [e2.content];
  }

  /** Three edits to an empty document, arriving in the order `a`, `b`, `c`
      but stamped `a` < `c` < `b` (say "Hello" at 100, "World" at 200, then
      "Hi" at 150): after the second the content is "Hello\nWorld", and the
      late third one lands between them, giving "Hello\nHi\nWorld". */
  lemma OutOfOrderArrival(a: Edit, b: Edit, c: Edit)
    requires a.timestamp < c.timestamp < b.timestamp
    ensures var d2 := ResolveEdit(Some(ResolveEdit(Some(EmptyDocument()), a)), b);
      && d2.content == a.content + "\n" + b.content
      && ResolveEdit(Some(d2), c).content == a.content + "\n" + c.content + "\n" + b.content
  {
    var d1 := ResolveEdit(Some(EmptyDocument()), a);
    assert d1.changes == [a] by {
      PushThenSort([], a);
      assert [] + [a] == [a];
    }
    var d2 := ResolveEdit(Some(d1), b);
    assert d2.changes == [a, b] by {
      SecondEditPlacement(d1, b);
    }
    assert d2.content == a.content + "\n" + b.content by {
      JoinTwo(a, b);
    }
    LateEditLandsBetween(d2, c);
  }
}
