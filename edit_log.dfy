/**
 * The persisted document record and its edit history, with the two
 * operations the edit handlers apply to the history: `changes.sort((a, b) =>
 * a.timestamp - b.timestamp)` and `changes.map(edit => edit.content).join("\n")`.
 */
module EditLog {

  datatype Option<+T> = None | Some(value: T)

  /** One submitted edit: who sent it, the full text they sent, and the
      server's `Date.now()` (integer milliseconds) when it arrived. */
  datatype Edit = Edit(username: string, content: string, timestamp: int)

  /** The stored record of one document id. `lastModified` is set only by an
      explicit save; a record created by a join or an edit has none. */
  datatype Document = Document(content: string, changes: seq<Edit>, lastModified: Option<int>)

  predicate SortedByTime(s: seq<Edit>) {
    forall i, j :: 0 <= i < j < |s| ==> s[i].timestamp <= s[j].timestamp
  }

  /** A document whose content is the newline-join of its history, in the
      history's order, and whose history is in timestamp order. */
  predicate Consistent(d: Document) {
    SortedByTime(d.changes) && d.content == JoinLines(Contents(d.changes))
  }

  // ---------------------------------------------------------------------------
  // Sorting by timestamp

  /** One step of a stable insertion sort: `e` goes after every entry whose
      timestamp is not greater than its own, scanning from the end. */
  function Insert(s: seq<Edit>, e: Edit): (r: seq<Edit>)
    ensures |r| == |s| + 1
  {
    if s == [] then [e]
    else if s[|s| - 1].timestamp <= e.timestamp then s + [e]
    else Insert(s[..|s| - 1], e) + [s[|s| - 1]]
  }

  /** Insertion adds exactly `e` to the history. */
  lemma InsertPermutes(s: seq<Edit>, e: Edit)
    ensures multiset(Insert(s, e)) == multiset(s) + multiset{e}
  {
    var k := InsertionPoint(s, e.timestamp);
    InsertAtPoint(s, e);
    assert s == s[..k] + s[k..];
    assert Insert(s, e) == s[..k] + ([e] + s[k..]);
  }

  /** Insertion into a sorted history keeps it sorted. */
  lemma InsertKeepsSorted(s: seq<Edit>, e: Edit)
    requires SortedByTime(s)
    ensures SortedByTime(Insert(s, e))
  {
    var k := InsertionPoint(s, e.timestamp);
    var r := Insert(s, e);
    InsertAtPoint(s, e);
    assert forall i :: 0 <= i < k ==> r[i] == s[i];
    assert r[k] == e;
    assert forall i :: k < i < |r| ==> r[i] == s[i - 1];
    forall i, j | 0 <= i < j < |r| ensures r[i].timestamp <= r[j].timestamp {
      if j < k {
        assert r[i] == s[i] && r[j] == s[j];
      } else if j == k {
        assert r[i] == s[i];
      } else if i < k {
        assert r[i] == s[i] && r[j] == s[j - 1];
      } else if i == k {
        assert r[j] == s[j - 1];
      } else {
        assert r[i] == s[i - 1] && r[j] == s[j - 1];
      }
    }
  }

  /** `Array.prototype.sort` with the comparator `a.timestamp - b.timestamp`.
      ECMA-262 (section 23.1.3.30, Array.prototype.sort, since the 2019
      edition) requires the sort to be stable, so it is modelled as a stable
      insertion sort: the result is sorted and a permutation of the input. */
  function SortByTime(s: seq<Edit>): (r: seq<Edit>)
    ensures SortedByTime(r)
    ensures multiset(r) == multiset(s)
  {
    if s == [] then []
    else
      var init, last := s[..|s| - 1], s[|s| - 1];
      var front := SortByTime(init);
      InsertPermutes(front, last);
      InsertKeepsSorted(front, last);
      assert multiset(s) == multiset(init) + multiset{last} by {
        assert s == init + [last];
      }
      Insert(front, last)
  }

  /** Where a stable insertion puts an edit with timestamp `t`: after the last
      entry whose timestamp is at most `t`. Everything from that index on is
      later than `t`, and in a sorted history everything before it is not. */
  function InsertionPoint(s: seq<Edit>, t: int): (k: nat)
    ensures k <= |s|
    ensures forall i :: k <= i < |s| ==> s[i].timestamp > t
    ensures SortedByTime(s) ==> forall i :: 0 <= i < k ==> s[i].timestamp <= t
  {
    if s == [] then 0
    else if s[|s| - 1].timestamp <= t then |s|
    else
      var front := s[..|s| - 1];
      assert forall i :: 0 <= i < |front| ==> front[i] == s[i];
      InsertionPoint(front, t)
  }

  /** The entries of `s` with timestamp `t`, in their order in `s`. */
  function WithTimestamp(s: seq<Edit>, t: int): seq<Edit> {
    if s == [] then []
    else WithTimestamp(s[..|s| - 1], t) + (if s[|s| - 1].timestamp == t then [s[|s| - 1]] else [])
  }

  /** Insertion leaves every other entry where it was, in order. */
  lemma {:induction false} InsertAtPoint(s: seq<Edit>, e: Edit)
    ensures var k := InsertionPoint(s, e.timestamp);
      Insert(s, e) == s[..k] + [e] + s[k..]
  {
    if s == [] {
      assert Insert(s, e) == [e];
    } else if s[|s| - 1].timestamp <= e.timestamp {
      assert InsertionPoint(s, e.timestamp) == |s|;
      assert Insert(s, e) == s + [e];
      assert s[..|s|] == s && s[|s|..] == [];
    } else {
      var front, last := s[..|s| - 1], s[|s| - 1];
      InsertAtPoint(front, e);
      var k := InsertionPoint(front, e.timestamp);
      assert InsertionPoint(s, e.timestamp) == k;
      assert Insert(s, e) == Insert(front, e) + [last];
      assert Insert(front, e) == front[..k] + [e] + front[k..];
      assert s[..k] == front[..k];
      assert s[k..] == front[k..] + [last];
    }
  }

  /** Dropping the last entry of a sorted history leaves it sorted. */
  lemma SortedDropLast(s: seq<Edit>)
    requires s != [] && SortedByTime(s)
    ensures SortedByTime(s[..|s| - 1])
  {
    var front := s[..|s| - 1];
    forall i, j | 0 <= i < j < |front| ensures front[i].timestamp <= front[j].timestamp {
      assert front[i] == s[i] && front[j] == s[j];
    }
  }

  /** Sorting a history that is already in timestamp order changes nothing. */
  lemma {:induction false} SortSortedIsIdentity(s: seq<Edit>)
    requires SortedByTime(s)
    ensures SortByTime(s) == s
  {
    if s != [] {
      var front, last := s[..|s| - 1], s[|s| - 1];
      SortedDropLast(s);
      SortSortedIsIdentity(front);
      assert front == [] || front[|front| - 1].timestamp <= last.timestamp by {
        if front != [] {
          assert front[|front| - 1] == s[|s| - 2];
        }
      }
      SortAppendLatest(front, last);
      assert front + [last] == s;
    }
  }

  /** Appending an entry not earlier than the last one to a history the sort
      leaves alone gives another such history. */
  lemma SortAppendLatest(front: seq<Edit>, last: Edit)
    requires SortByTime(front) == front
    requires front == [] || front[|front| - 1].timestamp <= last.timestamp
    ensures SortByTime(front + [last]) == front + [last]
  {
    var s := front + [last];
    assert s[..|s| - 1] == front;
  }

  /** Sorting a history with one more entry inserts that entry into the
      sorted rest. */
  lemma SortPushed(s: seq<Edit>, e: Edit)
    ensures SortByTime(s + [e]) == Insert(SortByTime(s), e)
  {
    var pushed := s + [e];
    assert pushed[..|pushed| - 1] == s;
  }

  /** Push then sort on a sorted history: the new edit lands at its insertion
      point and the prior entries keep their relative order. */
  lemma PushThenSort(s: seq<Edit>, e: Edit)
    requires SortedByTime(s)
    ensures var k := InsertionPoint(s, e.timestamp);
      SortByTime(s + [e]) == s[..k] + [e] + s[k..]
  {
    SortPushed(s, e);
    SortSortedIsIdentity(s);
    InsertAtPoint(s, e);
  }

  /** Filtering distributes over appending one entry. */
  lemma WithTimestampAppend(s: seq<Edit>, x: Edit, t: int)
    ensures WithTimestamp(s + [x], t) == WithTimestamp(s, t) + (if x.timestamp == t then [x] else [])
  {
    assert (s + [x])[..|s|] == s;
  }

  /** Insertion keeps the order among equal timestamps: the new edit goes
      after every earlier entry with the same timestamp. */
  lemma {:induction false} InsertKeepsTies(s: seq<Edit>, e: Edit, t: int)
    ensures WithTimestamp(Insert(s, e), t) == WithTimestamp(s, t) + (if e.timestamp == t then [e] else [])
  {
    if s == [] {
      assert Insert(s, e) == s + [e];
      WithTimestampAppend(s, e, t);
    } else if s[|s| - 1].timestamp <= e.timestamp {
      assert Insert(s, e) == s + [e];
      WithTimestampAppend(s, e, t);
    } else {
      var front, last := s[..|s| - 1], s[|s| - 1];
      InsertKeepsTies(front, e, t);
      var r := Insert(front, e);
      assert Insert(s, e) == r + [last];
      WithTimestampAppend(r, last, t);
      assert front + [last] == s;
      WithTimestampAppend(front, last, t);
      // `e` is strictly earlier than `last`, so at most one of them has timestamp t.
      if e.timestamp == t {
        assert WithTimestamp(r + [last], t) == WithTimestamp(r, t);
        assert WithTimestamp(s, t) == WithTimestamp(front, t);
      } else {
        assert WithTimestamp(r, t) == WithTimestamp(front, t);
      }
    }
  }

  /** Stability: the sort never reorders edits that share a timestamp. */
  lemma {:induction false} SortIsStable(s: seq<Edit>, t: int)
    ensures WithTimestamp(SortByTime(s), t) == WithTimestamp(s, t)
  {
    if s != [] {
      var front := s[..|s| - 1];
      SortIsStable(front, t);
      InsertKeepsTies(SortByTime(front), s[|s| - 1], t);
    }
  }

  // ---------------------------------------------------------------------------
  // Joining the history into the document text

  /** `changes.map(edit => edit.content)`. */
  function Contents(changes: seq<Edit>): (lines: seq<string>)
    ensures |lines| == |changes|
    ensures forall i :: 0 <= i < |changes| ==> lines[i] == changes[i].content
  {
    seq(|changes|, i requires 0 <= i < |changes| => changes[i].content)
  }

  /** `lines.join("\n")`: no separator before the first line or after the
      last, and the empty string for no lines. */
  function JoinLines(lines: seq<string>): string {
    if |lines| == 0 then ""
    else if |lines| == 1 then lines[0]
    else lines[0] + "\n" + JoinLines(lines[1..])
  }

  /** The joined text starts with the first line and ends with the last one:
      nothing precedes the one or follows the other. */
  lemma {:induction false} JoinLinesEnds(lines: seq<string>)
    requires |lines| > 0
    ensures var first, last, s := lines[0], lines[|lines| - 1], JoinLines(lines);
      && |first| <= |s| && s[..|first|] == first
      && |last| <= |s| && s[|s| - |last|..] == last
  {
    if |lines| > 1 {
      var first, last, rest := lines[0], lines[|lines| - 1], JoinLines(lines[1..]);
      JoinLinesEnds(lines[1..]);
      assert lines[1..][|lines[1..]| - 1] == last;
      var s := first + "\n" + rest;
      assert JoinLines(lines) == s;
      assert s[..|first|] == first;
      assert s[|s| - |last|..] == rest[|rest| - |last|..];
    }
  }

  /** Splits `s` at every newline; the inverse of `JoinLines` on lines
      without a newline of their own. */
  function SplitLines(s: string): (lines: seq<string>)
    ensures |lines| >= 1
  {
    if s == [] then [""]
    else
      var rest := SplitLines(s[1..]);
      if s[0] == '\n' then [""] + rest else [[s[0]] + rest[0]] + rest[1..]
  }

  /** Mapping to contents distributes over appending one edit. */
  lemma ContentsAppend(s: seq<Edit>, e: Edit)
    ensures Contents(s + [e]) == Contents(s) + [e.content]
  {
  }

  /** Joining two non-empty runs of lines puts one newline between them. */
  lemma {:induction false} JoinAppend(a: seq<string>, b: seq<string>)
    requires |a| > 0 && |b| > 0
    ensures JoinLines(a + b) == JoinLines(a) + "\n" + JoinLines(b)
  {
    if |a| == 1 {
      assert (a + b)[1..] == b;
    } else {
      JoinAppend(a[1..], b);
      assert (a + b)[1..] == a[1..] + b;
    }
  }

  /** A string without a newline splits into itself alone. */
  lemma {:induction false} SplitWithoutNewline(s: string)
    requires '\n' !in s
    ensures SplitLines(s) == [s]
  {
    if s != [] {
      SplitWithoutNewline(s[1..]);
      assert [s[0]] + s[1..] == s;
    }
  }

  /** Splitting a line, a newline and a rest gives the line, then the
      rest's split. */
  lemma {:induction false} SplitAfterLine(x: string, y: string)
    requires '\n' !in x
    ensures SplitLines(x + "\n" + y) == [x] + SplitLines(y)
  {
    if x == [] {
      assert (x + "\n" + y)[1..] == y;
    } else {
      SplitAfterLine(x[1..], y);
      assert (x + "\n" + y)[1..] == x[1..] + "\n" + y;
      assert [x[0]] + x[1..] == x;
    }
  }

  /** A document whose edits contain no newline can be split back into
      exactly its edits' contents: the join loses nothing. */
  lemma {:induction false} SplitJoinRoundTrip(lines: seq<string>)
    requires |lines| > 0
    requires forall i :: 0 <= i < |lines| ==> '\n' !in lines[i]
    ensures SplitLines(JoinLines(lines)) == lines
  {
    if |lines| == 1 {
      SplitWithoutNewline(lines[0]);
    } else {
      SplitAfterLine(lines[0], JoinLines(lines[1..]));
      SplitJoinRoundTrip(lines[1..]);
      assert [lines[0]] + lines[1..] == lines;
    }
  }
}
