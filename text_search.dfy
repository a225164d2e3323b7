/**
 * The search filter of the listing: a row matches when its title, author, genre or
 * year text contains the query, the four `LIKE '%q%'` conditions joined by OR.
 */
module TextSearch {
  import opened Wrappers
  import opened BookModel

  /** `q` occurs in `s` starting at index `k`. */
  ghost predicate OccursAt(q: string, s: string, k: int) {
    0 <= k && k + |q| <= |s| && s[k..k + |q|] == q
  }

  /** Reference definition of containment: `q` occurs somewhere in `s`. */
  ghost predicate IsSubstring(q: string, s: string) {
    exists k :: OccursAt(q, s, k)
  }

  /** `s` contains `q`: `q` is a prefix of `s` or of one of its suffixes. */
  function Contains(s: string, q: string): bool
    ensures Contains(s, q) ==> |q| <= |s|
    ensures q == "" ==> Contains(s, q)
    decreases |s|
  {
    (|q| <= |s| && s[..|q|] == q) || (|s| > 0 && Contains(s[1..], q))
  }

  /** Whatever the containment test finds does occur in the text. */
  lemma {:induction false} ContainsOccurs(s: string, q: string)
    requires Contains(s, q)
    ensures IsSubstring(q, s)
    decreases |s|
  {
    if |q| <= |s| && s[..|q|] == q {
      assert OccursAt(q, s, 0);
    } else {
      ContainsOccurs(s[1..], q);
      var k :| OccursAt(q, s[1..], k);
      assert s[1..][k..k + |q|] == s[k + 1..k + 1 + |q|];
      assert OccursAt(q, s, k + 1);
    }
  }

  /** An occurrence at index `k` is found by the containment test. */
  lemma {:induction false} OccursIsContained(s: string, q: string, k: int)
    requires OccursAt(q, s, k)
    ensures Contains(s, q)
    decreases k
  {
    if k > 0 {
      assert s[1..][k - 1..k - 1 + |q|] == s[k..k + |q|];
      OccursIsContained(s[1..], q, k - 1);
    }
  }

  /** The executable containment test agrees with the reference definition. */
  lemma ContainsIsSubstring(s: string, q: string)
    ensures Contains(s, q) <==> IsSubstring(q, s)
  {
    if Contains(s, q) {
      ContainsOccurs(s, q);
    }
    if IsSubstring(q, s) {
      var k :| OccursAt(q, s, k);
      OccursIsContained(s, q, k);
    }
  }

  /** The empty query is contained in every text. */
  lemma EmptyIsContained(s: string)
    ensures Contains(s, "")
  {
  }

  /** A book matches `q` when one of its four columns contains `q`; a null genre never matches. */
  predicate Matches(b: Book, q: string)
    ensures q == "" ==> Matches(b, q)
  {
    Contains(b.title, q) || Contains(b.author, q) ||
    (b.genre.Some? && Contains(b.genre.value, q)) || Contains(b.year, q)
  }

  /** A book matches exactly when the query occurs in its title, author, non-null genre or year text. */
  lemma MatchesIsSubstringOfAColumn(b: Book, q: string)
    ensures Matches(b, q) <==>
      IsSubstring(q, b.title) || IsSubstring(q, b.author) ||
      (b.genre.Some? && IsSubstring(q, b.genre.value)) || IsSubstring(q, b.year)
  {
    ContainsIsSubstring(b.title, q);
    ContainsIsSubstring(b.author, q);
    ContainsIsSubstring(b.year, q);
    if b.genre.Some? {
      ContainsIsSubstring(b.genre.value, q);
    }
  }

  /** The rows of `rows` that match `q`, in table order. */
  function Search(rows: seq<Row>, q: string): (r: seq<Row>)
    ensures |r| <= |rows|
    ensures forall x :: x in r <==> x in rows && Matches(x.book, q)
  {
    if rows == [] then []
    else (if Matches(rows[0].book, q) then [rows[0]] else []) + Search(rows[1..], q)
  }

  /** The empty query keeps every row, in order. */
  lemma {:induction false} EmptyQueryKeepsAll(rows: seq<Row>)
    ensures Search(rows, "") == rows
  {
    if rows != [] {
      EmptyIsContained(rows[0].book.title);
      EmptyQueryKeepsAll(rows[1..]);
    }
  }

  /** A query no row matches yields no rows. */
  lemma {:induction false} NoMatchYieldsNothing(rows: seq<Row>, q: string)
    requires forall i :: 0 <= i < |rows| ==> !Matches(rows[i].book, q)
    ensures Search(rows, q) == []
  {
    if rows != [] {
      NoMatchYieldsNothing(rows[1..], q);
    }
  }

  /** A query that exactly one row matches (say, through its genre) yields exactly that row. */
  lemma {:induction false} SingleMatchYieldsThatRow(rows: seq<Row>, q: string, j: nat)
    requires j < |rows| && Matches(rows[j].book, q)
    requires forall i :: 0 <= i < |rows| && i != j ==> !Matches(rows[i].book, q)
    ensures Search(rows, q) == [rows[j]]
  {
    if j == 0 {
      NoMatchYieldsNothing(rows[1..], q);
    } else {
      SingleMatchYieldsThatRow(rows[1..], q, j - 1);
    }
  }

  /** Strictly increasing: the order in which generated ids are handed out. */
  predicate Increasing(s: seq<int>) {
    forall i, j :: 0 <= i < j < |s| ==> s[i] < s[j]
  }

  /** The ids of `rows`, in order. */
  function Ids(rows: seq<Row>): (ids: seq<int>)
    ensures |ids| == |rows| && forall i :: 0 <= i < |rows| ==> ids[i] == rows[i].id
  {
    seq(|rows|, i requires 0 <= i < |rows| => rows[i].id)
  }

  /** Row ids strictly increase: the table's order. */
  predicate IdsIncreasing(rows: seq<Row>) {
    Increasing(Ids(rows))
  }

  /** The matching rows keep the order they have in the table. */
  lemma {:induction false} SearchKeepsTableOrder(rows: seq<Row>, q: string)
    requires IdsIncreasing(rows)
    ensures IdsIncreasing(Search(rows, q))
  {
    if rows != [] {
      var rest := Search(rows[1..], q);
      SearchKeepsTableOrder(rows[1..], q);
      forall j | 0 <= j < |rest| ensures rows[0].id < rest[j].id {
        assert rest[j] in rows[1..];
        var k :| 0 <= k < |rows[1..]| && rows[1..][k] == rest[j];
        assert rows[k + 1] == rest[j];
      }
      var head := if Matches(rows[0].book, q) then [rows[0]] else [];
      assert Search(rows, q) == head + rest;
    }
  }
}
