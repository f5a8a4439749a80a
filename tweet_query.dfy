/**
 * The tweet query that `getInfiniteTweets` hands to the store:
 * `where` filter, then `orderBy: [{ createdAt: "desc" }, { id: "desc" }]`,
 * then the inclusive `createdAt_id` cursor, then `take`.
 */
module TweetQuery {
  import opened Common

  /** The `where` clauses the two feed routes build. */
  datatype Where =
    | AllTweets                          // `where: undefined`
    | ByAuthor(userId: UserId)           // `{ userId }`
    | AuthorFollowedBy(userId: UserId)   // `{ user: { followers: { some: { id } } } }`

  predicate Matches(w: Where, author: UserId, follows: set<Follow>) {
    match w
    case AllTweets => true
    case ByAuthor(u) => author == u
    case AuthorFollowedBy(u) => Follow(u, author) in follows
  }

  function KeyOf(r: Row): Cursor {
    Cursor(r.id, r.createdAt)
  }

  /** `a` is listed strictly before `b`: newer first, larger id first on equal timestamps. */
  predicate Earlier(a: Cursor, b: Cursor) {
    a.createdAt > b.createdAt || (a.createdAt == b.createdAt && a.id > b.id)
  }

  /** The table's primary key: no two rows share an id. */
  ghost predicate DistinctIds(rows: seq<Row>) {
    forall i, j :: 0 <= i < j < |rows| ==> rows[i].id != rows[j].id
  }

  ghost predicate DistinctKeys(rows: seq<Row>) {
    forall i, j :: 0 <= i < j < |rows| ==> KeyOf(rows[i]) != KeyOf(rows[j])
  }

  ghost predicate StrictlyOrdered(rows: seq<Row>) {
    forall i, j :: 0 <= i < j < |rows| ==> Earlier(KeyOf(rows[i]), KeyOf(rows[j]))
  }

  lemma DistinctIdsGiveDistinctKeys(rows: seq<Row>)
    requires DistinctIds(rows)
    ensures DistinctKeys(rows)
  {
  }

  /** The rows that satisfy the `where` clause, in table order. */
  function Filtered(rows: seq<Row>, w: Where, follows: set<Follow>): (t: seq<Row>)
    ensures |t| <= |rows|
  {
    if rows == [] then []
    else
      (if Matches(w, rows[0].user.id, follows) then [rows[0]] else [])
      + Filtered(rows[1..], w, follows)
  }

  lemma {:induction false} FilteredMembers(rows: seq<Row>, w: Where, follows: set<Follow>)
    ensures forall x :: x in Filtered(rows, w, follows) <==> x in rows && Matches(w, x.user.id, follows)
  {
    if rows != [] {
      FilteredMembers(rows[1..], w, follows);
      assert rows == [rows[0]] + rows[1..];
    }
  }

  lemma TailKeepsDistinctKeys(rows: seq<Row>)
    requires rows != [] && DistinctKeys(rows)
    ensures DistinctKeys(rows[1..])
  {
    var tail := rows[1..];
    forall i, j | 0 <= i < j < |tail| ensures KeyOf(tail[i]) != KeyOf(tail[j]) {
      assert tail[i] == rows[i + 1] && tail[j] == rows[j + 1];
    }
  }

  lemma PrependKeepsDistinctKeys(x: Row, s: seq<Row>)
    requires DistinctKeys(s)
    requires forall y :: y in s ==> KeyOf(y) != KeyOf(x)
    ensures DistinctKeys([x] + s)
  {
    var t := [x] + s;
    forall i, j | 0 <= i < j < |t| ensures KeyOf(t[i]) != KeyOf(t[j]) {
      assert t[j] == s[j - 1];
      if i == 0 {
        assert s[j - 1] in s;
      } else {
        assert t[i] == s[i - 1];
      }
    }
  }

  lemma {:induction false} FilteredKeepsDistinctKeys(rows: seq<Row>, w: Where, follows: set<Follow>)
    requires DistinctKeys(rows)
    ensures DistinctKeys(Filtered(rows, w, follows))
  {
    if rows != [] {
      var tail := rows[1..];
      TailKeepsDistinctKeys(rows);
      FilteredKeepsDistinctKeys(tail, w, follows);
      var rest := Filtered(tail, w, follows);
      if Matches(w, rows[0].user.id, follows) {
        FilteredMembers(tail, w, follows);
        forall x | x in rest ensures KeyOf(x) != KeyOf(rows[0]) {
          var k :| 0 <= k < |tail| && tail[k] == x;
          assert rows[k + 1] == x;
        }
        PrependKeepsDistinctKeys(rows[0], rest);
        assert Filtered(rows, w, follows) == [rows[0]] + rest;
      } else {
        assert Filtered(rows, w, follows) == rest;
      }
    }
  }

  /** Places `r` in front of the first row that is not listed before it. */
  function Insert(r: Row, s: seq<Row>): (t: seq<Row>)
    ensures |t| == |s| + 1
  {
    if s == [] then [r]
    else if Earlier(KeyOf(s[0]), KeyOf(r)) then [s[0]] + Insert(r, s[1..])
    else [r] + s
  }

  lemma {:induction false} InsertPermutes(r: Row, s: seq<Row>)
    ensures multiset(Insert(r, s)) == multiset(s) + multiset{r}
  {
    if s != [] {
      assert s == [s[0]] + s[1..];
      if Earlier(KeyOf(s[0]), KeyOf(r)) {
        InsertPermutes(r, s[1..]);
      }
    }
  }

  /** The rows in the query's order (an insertion sort). */
  function SortByRecency(s: seq<Row>): (t: seq<Row>)
    ensures |t| == |s|
  {
    if s == [] then [] else Insert(s[0], SortByRecency(s[1..]))
  }

  /** Sorting neither loses nor duplicates a row. */
  lemma {:induction false} SortPermutes(s: seq<Row>)
    ensures multiset(SortByRecency(s)) == multiset(s)
  {
    if s != [] {
      assert s == [s[0]] + s[1..];
      SortPermutes(s[1..]);
      InsertPermutes(s[0], SortByRecency(s[1..]));
    }
  }

  lemma PrependKeepsOrder(x: Row, s: seq<Row>)
    requires StrictlyOrdered(s)
    requires forall y :: y in s ==> Earlier(KeyOf(x), KeyOf(y))
    ensures StrictlyOrdered([x] + s)
  {
    var t := [x] + s;
    forall i, j | 0 <= i < j < |t| ensures Earlier(KeyOf(t[i]), KeyOf(t[j])) {
      assert t[j] == s[j - 1];
      if i == 0 {
        assert s[j - 1] in s;
      } else {
        assert t[i] == s[i - 1];
      }
    }
  }

  lemma {:induction false} InsertKeepsOrder(r: Row, s: seq<Row>)
    requires StrictlyOrdered(s)
    requires forall x :: x in s ==> KeyOf(x) != KeyOf(r)
    ensures StrictlyOrdered(Insert(r, s))
  {
    if s == [] {
    } else if Earlier(KeyOf(s[0]), KeyOf(r)) {
      var tail := s[1..];
      assert StrictlyOrdered(tail) by {
        forall i, j | 0 <= i < j < |tail| ensures Earlier(KeyOf(tail[i]), KeyOf(tail[j])) {
          assert tail[i] == s[i + 1] && tail[j] == s[j + 1];
        }
      }
      InsertKeepsOrder(r, tail);
      var rest := Insert(r, tail);
      InsertPermutes(r, tail);
      forall x | x in rest ensures Earlier(KeyOf(s[0]), KeyOf(x)) {
        assert x in multiset(rest);
        if x != r {
          assert x in multiset(tail);
          var k :| 0 <= k < |tail| && tail[k] == x;
          assert s[k + 1] == x;
        }
      }
      PrependKeepsOrder(s[0], rest);
    } else {
      forall y | y in s ensures Earlier(KeyOf(r), KeyOf(y)) {
        var k :| 0 <= k < |s| && s[k] == y;
        assert Earlier(KeyOf(r), KeyOf(s[0])) by {
          assert s[0] in s;
        }
        if k > 0 {
          assert Earlier(KeyOf(s[0]), KeyOf(s[k]));
        }
      }
      PrependKeepsOrder(r, s);
    }
  }

  /** With distinct keys the query order is strict: no two rows tie. */
  lemma {:induction false} SortIsStrictlyOrdered(s: seq<Row>)
    requires DistinctKeys(s)
    ensures StrictlyOrdered(SortByRecency(s))
  {
    if s != [] {
      var tail := s[1..];
      assert DistinctKeys(tail) by {
        forall i, j | 0 <= i < j < |tail| ensures KeyOf(tail[i]) != KeyOf(tail[j]) {
          assert tail[i] == s[i + 1] && tail[j] == s[j + 1];
        }
      }
      SortIsStrictlyOrdered(tail);
      var sorted := SortByRecency(tail);
      SortPermutes(tail);
      forall x | x in sorted ensures KeyOf(x) != KeyOf(s[0]) {
        assert x in multiset(sorted);
        assert x in multiset(tail);
        var k :| 0 <= k < |tail| && tail[k] == x;
        assert s[k + 1] == x;
      }
      InsertKeepsOrder(s[0], sorted);
    }
  }

  /** Every row that matches the filter, in the query's order. */
  function Ordered(rows: seq<Row>, w: Where, follows: set<Follow>): seq<Row> {
    SortByRecency(Filtered(rows, w, follows))
  }

  lemma OrderedMembers(rows: seq<Row>, w: Where, follows: set<Follow>)
    ensures forall x :: x in Ordered(rows, w, follows) <==> x in rows && Matches(w, x.user.id, follows)
  {
    var m := Filtered(rows, w, follows);
    FilteredMembers(rows, w, follows);
    SortPermutes(m);
    assert forall x :: x in SortByRecency(m) <==> x in multiset(m);
  }

  /** The full query order holds every matching row once and no other. */
  lemma OrderedIsExactlyTheMatches(rows: seq<Row>, w: Where, follows: set<Follow>)
    requires DistinctKeys(rows)
    ensures StrictlyOrdered(Ordered(rows, w, follows))
    ensures multiset(Ordered(rows, w, follows)) == multiset(Filtered(rows, w, follows))
  {
    FilteredKeepsDistinctKeys(rows, w, follows);
    SortIsStrictlyOrdered(Filtered(rows, w, follows));
    SortPermutes(Filtered(rows, w, follows));
  }

  /** How many leading rows of `s` are listed strictly before the cursor. */
  function SkipCount(s: seq<Row>, c: Cursor): (n: nat)
    ensures n <= |s|
  {
    if s == [] || !Earlier(KeyOf(s[0]), c) then 0 else 1 + SkipCount(s[1..], c)
  }

  /** What is skipped is listed before the cursor; the first row kept is not. */
  lemma {:induction false} SkipCountBoundary(s: seq<Row>, c: Cursor)
    ensures var n := SkipCount(s, c);
      && (forall i :: 0 <= i < n ==> Earlier(KeyOf(s[i]), c))
      && (n < |s| ==> !Earlier(KeyOf(s[n]), c))
  {
    if s != [] && Earlier(KeyOf(s[0]), c) {
      var tail := s[1..];
      SkipCountBoundary(tail, c);
      var n := SkipCount(s, c);
      assert n == 1 + SkipCount(tail, c);
      forall i | 0 <= i < n ensures Earlier(KeyOf(s[i]), c) {
        if i > 0 {
          assert s[i] == tail[i - 1];
        }
      }
      if n < |s| {
        assert s[n] == tail[n - 1];
      }
    }
  }

  /** In a strictly ordered list, skipping to a row's own key stops at that row. */
  lemma SkipCountToRow(s: seq<Row>, j: nat)
    requires StrictlyOrdered(s) && j < |s|
    ensures SkipCount(s, KeyOf(s[j])) == j
  {
    var n := SkipCount(s, KeyOf(s[j]));
    SkipCountBoundary(s, KeyOf(s[j]));
    assert !Earlier(KeyOf(s[j]), KeyOf(s[j]));
    assert n <= j;
    assert !Earlier(KeyOf(s[n]), KeyOf(s[j]));
    assert n == j;
  }

  /** Prisma resolves a cursor against the whole table: some row carries its key. */
  predicate CursorResolves(rows: seq<Row>, c: Cursor) {
    rows != [] && (KeyOf(rows[0]) == c || CursorResolves(rows[1..], c))
  }

  lemma {:induction false} CursorOfRowResolves(rows: seq<Row>, r: Row)
    requires r in rows
    ensures CursorResolves(rows, KeyOf(r))
  {
    if rows[0] != r {
      assert r in rows[1..];
      CursorOfRowResolves(rows[1..], r);
    }
  }

  /**
   * Where the query starts in the full order: at the top without a cursor,
   * at the cursor row (inclusive) with one, and past the end when no row of
   * the table carries the cursor's key.
   */
  function Start(rows: seq<Row>, w: Where, follows: set<Follow>, cursor: Option<Cursor>): (n: nat)
    ensures n <= |Ordered(rows, w, follows)|
  {
    match cursor
    case None => 0
    case Some(c) =>
      if CursorResolves(rows, c) then SkipCount(Ordered(rows, w, follows), c)
      else |Ordered(rows, w, follows)|
  }

  /** The rows the query yields from the cursor on, before `take`. */
  function Window(rows: seq<Row>, w: Where, follows: set<Follow>, cursor: Option<Cursor>): seq<Row> {
    Ordered(rows, w, follows)[Start(rows, w, follows, cursor)..]
  }

  /** A cursor that no row of the table carries yields nothing: the feed ends. */
  lemma UnknownCursorEndsFeed(rows: seq<Row>, w: Where, follows: set<Follow>, c: Cursor)
    requires !CursorResolves(rows, c)
    ensures Window(rows, w, follows, Some(c)) == []
  {
  }

  /** The window holds only matching rows of the table. */
  lemma WindowRowsMatch(rows: seq<Row>, w: Where, follows: set<Follow>, cursor: Option<Cursor>)
    ensures var win := Window(rows, w, follows, cursor);
      forall i :: 0 <= i < |win| ==> win[i] in rows && Matches(w, win[i].user.id, follows)
  {
    var o := Ordered(rows, w, follows);
    var n := Start(rows, w, follows, cursor);
    var win := Window(rows, w, follows, cursor);
    OrderedMembers(rows, w, follows);
    forall i | 0 <= i < |win| ensures win[i] in rows && Matches(w, win[i].user.id, follows) {
      assert win[i] == o[n + i];
      assert o[n + i] in o;
    }
  }

  lemma SuffixKeepsOrder(s: seq<Row>, n: nat)
    requires StrictlyOrdered(s) && n <= |s|
    ensures StrictlyOrdered(s[n..])
  {
    var t := s[n..];
    forall i, j | 0 <= i < j < |t| ensures Earlier(KeyOf(t[i]), KeyOf(t[j])) {
      assert t[i] == s[n + i] && t[j] == s[n + j];
    }
  }

  /** The window keeps the strict query order. */
  lemma WindowIsStrictlyOrdered(rows: seq<Row>, w: Where, follows: set<Follow>, cursor: Option<Cursor>)
    requires DistinctKeys(rows)
    ensures StrictlyOrdered(Window(rows, w, follows, cursor))
  {
    OrderedIsExactlyTheMatches(rows, w, follows);
    SuffixKeepsOrder(Ordered(rows, w, follows), Start(rows, w, follows, cursor));
  }

  /** `findMany`: the first `take` rows of the window. */
  function FindMany(rows: seq<Row>, w: Where, follows: set<Follow>, cursor: Option<Cursor>, take: nat): (t: seq<Row>)
    ensures |t| <= take
  {
    var win := Window(rows, w, follows, cursor);
    if |win| <= take then win else win[..take]
  }

  /** `findMany` returns a prefix of the window, all of it when fewer than `take` rows remain. */
  lemma FindManyIsPrefix(rows: seq<Row>, w: Where, follows: set<Follow>, cursor: Option<Cursor>, take: nat)
    ensures var win := Window(rows, w, follows, cursor);
      var t := FindMany(rows, w, follows, cursor, take);
      && |t| == (if |win| <= take then |win| else take)
      && (forall i :: 0 <= i < |t| ==> t[i] == win[i])
  {
  }

  /**
   * Resuming at the key of the window's k-th row yields the window from
   * that row on: the cursor is inclusive and nothing is skipped or repeated.
   */
  lemma NextWindow(rows: seq<Row>, w: Where, follows: set<Follow>, cursor: Option<Cursor>, k: nat)
    requires DistinctKeys(rows)
    requires k < |Window(rows, w, follows, cursor)|
    ensures var win := Window(rows, w, follows, cursor);
      Window(rows, w, follows, Some(KeyOf(win[k]))) == win[k..]
  {
    var o := Ordered(rows, w, follows);
    var n := Start(rows, w, follows, cursor);
    var win := Window(rows, w, follows, cursor);
    assert win[k] == o[n + k];
    OrderedMembers(rows, w, follows);
    assert o[n + k] in o;
    CursorOfRowResolves(rows, win[k]);
    OrderedIsExactlyTheMatches(rows, w, follows);
    SkipCountToRow(o, n + k);
    assert Start(rows, w, follows, Some(KeyOf(win[k]))) == n + k;
  }

  /** A cursor taken from a matching row makes that row the first one returned. */
  lemma CursorIsInclusive(rows: seq<Row>, w: Where, follows: set<Follow>, r: Row, take: nat)
    requires DistinctKeys(rows)
    requires r in rows && Matches(w, r.user.id, follows) && take >= 1
    ensures var page := FindMany(rows, w, follows, Some(KeyOf(r)), take);
      page != [] && page[0] == r
  {
    var o := Ordered(rows, w, follows);
    OrderedMembers(rows, w, follows);
    assert r in o;
    var j :| 0 <= j < |o| && o[j] == r;
    assert Window(rows, w, follows, None) == o;
    NextWindow(rows, w, follows, None, j);
    var win := Window(rows, w, follows, Some(KeyOf(r)));
    assert win == o[j..];
    assert win[0] == r;
    FindManyIsPrefix(rows, w, follows, Some(KeyOf(r)), take);
  }
}
