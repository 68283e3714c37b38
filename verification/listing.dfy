/** The book listing of store/views.py: every book annotated with its like count
    and its live mean rate, then the exact price filter, the case-insensitive
    search on name or author, and the price ordering with ties broken by id. */
module Listing {
  import opened Domain
  import opened Rating
  import Decimals

  /** A listed book with the two annotations the listing query adds. */
  datatype Row = Row(book: Book, annotateLikes: nat, rate: Option<Mean>)

  /** The number of rows of book `id` with a like. */
  function LikeCount(rs: seq<Reaction>, id: BookId): (n: nat)
    ensures n <= |OfBook(rs, id)|
  {
    if rs == [] then 0
    else LikeCount(rs[..|rs| - 1], id) + (if rs[|rs| - 1].book == id && rs[|rs| - 1].like then 1 else 0)
  }

  /** One more row adds one to its book's like count when it carries a like, and
      nothing to any other count. */
  /** The positions of the rows that like book `id`. */
  function LikedAt(rs: seq<Reaction>, id: BookId): set<nat> {
    set k: nat | k < |rs| && rs[k].book == id && rs[k].like
  }

  /** One more row adds its position to the liked positions exactly when it likes the
      book, so the number of liked positions grows by one or not at all. */
  lemma LikedAtAppend(rs: seq<Reaction>, x: Reaction, id: BookId)
    ensures |LikedAt(rs + [x], id)| == |LikedAt(rs, id)| + (if x.book == id && x.like then 1 else 0)
  {
    var before, after := LikedAt(rs, id), LikedAt(rs + [x], id);
    var added: set<nat> := if x.book == id && x.like then {|rs|} else {};
    forall k | k in after ensures k in before + added {
      if k < |rs| {
        assert (rs + [x])[k] == rs[k];
      }
    }
    forall k | k in before ensures k in after {
      assert (rs + [x])[k] == rs[k];
    }
    assert after == before + added;
    assert |rs| !in before;
  }

  /** The like count is the number of rows that like the book, counted by position. */
  lemma {:induction false} LikeCountCountsLikes(rs: seq<Reaction>, id: BookId)
    ensures LikeCount(rs, id) == |LikedAt(rs, id)|
  {
    if rs != [] {
      var init, last := rs[..|rs| - 1], rs[|rs| - 1];
      LikeCountCountsLikes(init, id);
      assert rs == init + [last];
      LikedAtAppend(init, last, id);
    }
  }

  lemma LikeCountAppend(rs: seq<Reaction>, x: Reaction, id: BookId)
    ensures LikeCount(rs + [x], id) == LikeCount(rs, id) + (if x.book == id && x.like then 1 else 0)
  {
    assert (rs + [x])[..|rs|] == rs;
  }

  /** Every book, in table order, with its like count and its live mean rate. */
  function Annotate(books: seq<Book>, rs: seq<Reaction>): (rows: seq<Row>)
    ensures |rows| == |books|
    ensures forall i :: 0 <= i < |rows| ==> rows[i].book == books[i]
  {
    seq(|books|, i requires 0 <= i < |books| => Row(books[i], LikeCount(rs, books[i].id), MeanRate(rs, books[i].id)))
  }

  /** The two filters a listing request can carry: the exact price and the search
      term. */
  datatype Filter = PriceIs(price: int) | Mentions(term: string)

  /** Whether row `x` passes filter `f`. */
  predicate Keeps(f: Filter, x: Row) {
    match f
    case PriceIs(p) => x.book.price == p
    case Mentions(t) => Matches(t, x.book)
  }

  /** `a` is `b` with some elements left out, the others in their order in `b`. */
  predicate SubsequenceOf<T(==)>(a: seq<T>, b: seq<T>)
    decreases |b|
  {
    if a == [] then true
    else if b == [] then false
    else (a[|a| - 1] == b[|b| - 1] && SubsequenceOf(a[..|a| - 1], b[..|b| - 1])) || SubsequenceOf(a, b[..|b| - 1])
  }

  /** Every sequence is a subsequence of itself. */
  lemma {:induction false} SubsequenceOfSelf<T>(a: seq<T>)
    ensures SubsequenceOf(a, a)
    decreases |a|
  {
    if a != [] {
      SubsequenceOfSelf(a[..|a| - 1]);
    }
  }

  /** Leaving out elements twice is leaving them out once. */
  lemma {:induction false} SubsequenceTransitive<T>(a: seq<T>, b: seq<T>, c: seq<T>)
    requires SubsequenceOf(a, b) && SubsequenceOf(b, c)
    ensures SubsequenceOf(a, c)
    decreases |c|
  {
    if a != [] {
      if b[|b| - 1] == c[|c| - 1] && SubsequenceOf(b[..|b| - 1], c[..|c| - 1]) {
        if a[|a| - 1] == b[|b| - 1] && SubsequenceOf(a[..|a| - 1], b[..|b| - 1]) {
          SubsequenceTransitive(a[..|a| - 1], b[..|b| - 1], c[..|c| - 1]);
        } else {
          SubsequenceTransitive(a, b[..|b| - 1], c[..|c| - 1]);
        }
      } else {
        SubsequenceTransitive(a, b, c[..|c| - 1]);
      }
    }
  }

  /** The rows that pass `f`, in their original order. */
  function Where(rows: seq<Row>, f: Filter): (kept: seq<Row>)
    ensures |kept| <= |rows|
    ensures forall x :: x in kept <==> x in rows && Keeps(f, x)
    ensures SubsequenceOf(kept, rows)
  {
    if rows == [] then []
    else
      var w, x := Where(rows[..|rows| - 1], f), rows[|rows| - 1];
      if Keeps(f, x) then assert (w + [x])[..|w|] == w; w + [x] else w
  }

  /** The letter `c` in lower case: ASCII and the basic Cyrillic alphabet. */
  function Lower(c: char): (l: char)
    ensures 'A' <= c <= 'Z' ==> 'a' <= l <= 'z'
    ensures 'А' <= c <= 'Я' ==> 'а' <= l <= 'я'
    ensures !('A' <= c <= 'Z' || 'А' <= c <= 'Я' || c == 'Ё') ==> l == c
    ensures c == 'Ё' ==> l == 'ё'
  {
    if 'A' <= c <= 'Z' then (c as int + 32) as char
    else if 'А' <= c <= 'Я' then (c as int + 32) as char
    else if c == 'Ё' then 'ё'
    else c
  }

  function LowerString(s: string): (t: string)
    ensures |t| == |s| && forall i :: 0 <= i < |s| ==> t[i] == Lower(s[i])
  {
    seq(|s|, i requires 0 <= i < |s| => Lower(s[i]))
  }

  /** `t` occurs in `s` starting at position `i`. */
  predicate OccursAt(s: string, t: string, i: nat)
    requires i + |t| <= |s|
  {
    s[i..i + |t|] == t
  }

  /** Whether `t` occurs in `s`, scanning from the left. */
  function Contains(s: string, t: string): (found: bool)
    ensures found <==> exists i: nat :: i + |t| <= |s| && OccursAt(s, t, i)
    decreases |s|
  {
    if |t| > |s| then false
    else if s[..|t|] == t then (assert OccursAt(s, t, 0); true)
    else
      var found := Contains(s[1..], t);
      if found then
        var i: nat :| i + |t| <= |s| - 1 && OccursAt(s[1..], t, i);
        assert OccursAt(s, t, i + 1) by { assert s[1..][i..i + |t|] == s[i + 1..i + 1 + |t|]; }
        true
      else
        assert forall i: nat | 1 <= i && i + |t| <= |s| :: !OccursAt(s, t, i) by {
          forall i: nat | 1 <= i && i + |t| <= |s| ensures !OccursAt(s, t, i) {
            assert s[1..][i - 1..i - 1 + |t|] == s[i..i + |t|];
            assert !OccursAt(s[1..], t, i - 1);
          }
        }
        false
  }

  /** The search predicate: the term occurs, ignoring case, in the name or the author. */
  predicate Matches(term: string, b: Book) {
    Contains(LowerString(b.name), LowerString(term)) || Contains(LowerString(b.authorName), LowerString(term))
  }

  /** Lower-casing twice is lower-casing once. */
  lemma LowerStringIdempotent(s: string)
    ensures LowerString(LowerString(s)) == LowerString(s)
  {
    forall i | 0 <= i < |s| ensures Lower(Lower(s[i])) == Lower(s[i]) {
    }
  }

  /** `c` and `d` are one letter up to case: equal, a capital and its small letter in
      ASCII or in the basic Cyrillic alphabet (32 code points apart), or Ё and ё. */
  predicate SameLetterIgnoringCase(c: char, d: char) {
    || c == d
    || (('A' <= c <= 'Z' || 'А' <= c <= 'Я') && d as int == c as int + 32)
    || (('A' <= d <= 'Z' || 'А' <= d <= 'Я') && c as int == d as int + 32)
    || (c == 'Ё' && d == 'ё')
    || (c == 'ё' && d == 'Ё')
  }

  /** Two strings spelled alike up to case. */
  predicate SameIgnoringCase(s: string, t: string) {
    |s| == |t| && forall i :: 0 <= i < |s| ==> SameLetterIgnoringCase(s[i], t[i])
  }

  /** Lower-casing identifies two characters exactly when they are one letter up to case. */
  lemma LowerIdentifiesCase(c: char, d: char)
    ensures Lower(c) == Lower(d) <==> SameLetterIgnoringCase(c, d)
  {
  }

  /** Lower-casing identifies two strings exactly when they are spelled alike up to case. */
  lemma LowerStringIdentifiesCase(s: string, t: string)
    ensures LowerString(s) == LowerString(t) <==> SameIgnoringCase(s, t)
  {
    if LowerString(s) == LowerString(t) {
      forall i | 0 <= i < |s| ensures SameLetterIgnoringCase(s[i], t[i]) {
        LowerIdentifiesCase(s[i], t[i]);
      }
    }
    if SameIgnoringCase(s, t) {
      forall i | 0 <= i < |s| ensures Lower(s[i]) == Lower(t[i]) {
        LowerIdentifiesCase(s[i], t[i]);
      }
    }
  }

  /** The search is blind to case: terms spelled alike up to case find the same books,
      and a book whose name and author are changed only in case is found alike. */
  lemma SearchCaseBlind(term: string, term': string, b: Book, b': Book)
    requires SameIgnoringCase(term, term')
    requires SameIgnoringCase(b.name, b'.name) && SameIgnoringCase(b.authorName, b'.authorName)
    ensures Matches(term, b) == Matches(term', b')
  {
    LowerStringIdentifiesCase(term, term');
    LowerStringIdentifiesCase(b.name, b'.name);
    LowerStringIdentifiesCase(b.authorName, b'.authorName);
  }

  /** The search ignores case on both sides: lower-casing the term, or the book's
      name and author, changes no answer. */
  lemma SearchIgnoresCase(term: string, b: Book)
    ensures Matches(term, b) == Matches(LowerString(term), b)
    ensures Matches(term, b) == Matches(term, b.(name := LowerString(b.name), authorName := LowerString(b.authorName)))
  {
    LowerStringIdempotent(term);
    LowerStringIdempotent(b.name);
    LowerStringIdempotent(b.authorName);
  }

  /** Row `a` comes no later than row `b` in price order: cheaper first, equal prices by id. */
  predicate Before(a: Row, b: Row) {
    a.book.price < b.book.price || (a.book.price == b.book.price && a.book.id <= b.book.id)
  }

  predicate SortedByPrice(rows: seq<Row>) {
    forall i, j :: 0 <= i < j < |rows| ==> Before(rows[i], rows[j])
  }

  /** `x` inserted into price-ordered `rows` at its place. */
  function Insert(x: Row, rows: seq<Row>): (r: seq<Row>)
    requires SortedByPrice(rows)
    ensures SortedByPrice(r)
    ensures forall y :: y in r <==> y == x || y in rows
    ensures multiset(r) == multiset(rows) + multiset{x}
  {
    if rows == [] then [x]
    else if Before(x, rows[0]) then [x] + rows
    else
      var h := rows[0];
      var tail := Insert(x, rows[1..]);
      assert rows == [h] + rows[1..];
      assert Before(h, x);
      assert forall k :: 0 <= k < |tail| ==> Before(h, tail[k]) by {
        forall k | 0 <= k < |tail| ensures Before(h, tail[k]) {
          assert tail[k] in tail;
          if tail[k] != x {
            var j :| 0 <= j < |rows[1..]| && rows[1..][j] == tail[k];
            assert rows[j + 1] == tail[k];
          }
        }
      }
      [h] + tail
  }

  /** `rows` ordered by price, ties by ascending id (an insertion sort). */
  function OrderByPrice(rows: seq<Row>): (r: seq<Row>)
    ensures SortedByPrice(r)
    ensures multiset(r) == multiset(rows)
  {
    if rows == [] then []
    else
      assert rows == rows[..|rows| - 1] + [rows[|rows| - 1]];
      Insert(rows[|rows| - 1], OrderByPrice(rows[..|rows| - 1]))
  }

  /** A listing request: an optional exact price, an optional search term, and
      whether to order by price. */
  datatype Query = Query(price: Option<int>, search: Option<string>, orderByPrice: bool)

  /** The listing: annotate, filter by price, search, and order last. */
  function List(books: seq<Book>, rs: seq<Reaction>, q: Query): (listed: seq<Row>)
    ensures |listed| <= |books|
    ensures q.orderByPrice ==> SortedByPrice(listed)
    ensures !q.orderByPrice ==> SubsequenceOf(listed, Annotate(books, rs))
  {
    var rows := Annotate(books, rs);
    var priced := if q.price.Some? then Where(rows, PriceIs(q.price.value)) else rows;
    var found := if q.search.Some? then Where(priced, Mentions(q.search.value)) else priced;
    SubsequenceOfSelf(rows);
    SubsequenceOfSelf(priced);
    SubsequenceTransitive(found, priced, rows);
    if q.orderByPrice then
      var ordered := OrderByPrice(found);
      assert |ordered| == |multiset(ordered)| == |multiset(found)| == |found|;
      ordered
    else found
  }

  /** The annotated rows are exactly the books, each with its like count and its
      live mean rate. */
  lemma AnnotatedExactly(books: seq<Book>, rs: seq<Reaction>, x: Row)
    ensures x in Annotate(books, rs) <==>
      (exists i :: 0 <= i < |books| && books[i] == x.book)
      && x.annotateLikes == LikeCount(rs, x.book.id)
      && x.rate == MeanRate(rs, x.book.id)
  {
    var rows := Annotate(books, rs);
    if x in rows {
      var i :| 0 <= i < |rows| && rows[i] == x;
      assert books[i] == x.book;
    }
    if exists i :: 0 <= i < |books| && books[i] == x.book {
      var i :| 0 <= i < |books| && books[i] == x.book;
      if x.annotateLikes == LikeCount(rs, x.book.id) && x.rate == MeanRate(rs, x.book.id) {
        assert rows[i] == x;
      }
    }
  }

  /** Ordering neither adds nor drops a row. */
  lemma OrderKeepsRows(rows: seq<Row>, x: Row)
    ensures x in OrderByPrice(rows) <==> x in rows
  {
    assert x in OrderByPrice(rows) <==> x in multiset(OrderByPrice(rows));
    assert x in rows <==> x in multiset(rows);
  }

  /** A book is listed exactly when it passes both the price filter and the search
      (they combine with AND), and it is listed with its like count and its live
      mean rate. */
  lemma ListedExactly(books: seq<Book>, rs: seq<Reaction>, q: Query, x: Row)
    ensures x in List(books, rs, q) <==>
      (exists i :: 0 <= i < |books| && books[i] == x.book)
      && x.annotateLikes == LikeCount(rs, x.book.id)
      && x.rate == MeanRate(rs, x.book.id)
      && (q.price.Some? ==> x.book.price == q.price.value)
      && (q.search.Some? ==> Matches(q.search.value, x.book))
  {
    var rows := Annotate(books, rs);
    AnnotatedExactly(books, rs, x);
    var priced := if q.price.Some? then Where(rows, PriceIs(q.price.value)) else rows;
    var found := if q.search.Some? then Where(priced, Mentions(q.search.value)) else priced;
    assert List(books, rs, q) == if q.orderByPrice then OrderByPrice(found) else found;
    OrderKeepsRows(found, x);
  }

  /** Ordered by price, the listing is non-decreasing in price with equal prices in
      ascending id, and holds the same rows as without the ordering. */
  lemma OrderedListing(books: seq<Book>, rs: seq<Reaction>, q: Query)
    requires q.orderByPrice
    ensures SortedByPrice(List(books, rs, q))
    ensures multiset(List(books, rs, q)) == multiset(List(books, rs, q.(orderByPrice := false)))
  {
  }

  /** The three books and the one reaction the listing tests start from; saving the
      reaction gave book 2 the rating 4. */
  function ApiBooks(): seq<Book> {
    [Book(1, "Путешествия", 2500, "Макс", false, Some(1), None),
     Book(2, "Встреча", 2500, "Катя", false, None, Some(Mean(4, 1))),
     Book(3, "Макс на коне", 5500, "Аникеев", false, None, None)]
  }

  function ApiReactions(): seq<Reaction> {
    [Reaction(1, 2, true, false, Some(4))]
  }

  function Ids(rows: seq<Row>): seq<BookId> {
    seq(|rows|, i requires 0 <= i < |rows| => rows[i].book.id)
  }

  /** The second listed book carries one like and the live rate 4.00. */
  lemma ApiListingAnnotations()
    ensures var rows := List(ApiBooks(), ApiReactions(), Query(None, None, false));
      |rows| == 3 && rows[1].annotateLikes == 1 && Decimals.RenderMean(rows[1].rate) == Some("4.00")
  {
    var rs := ApiReactions();
    assert rs == [] + [rs[0]];
    assert LikeCount(rs, 2) == 1;
    MeanRateAppend([], rs[0], 2);
    assert MeanRate(rs, 2) == Some(Mean(4, 1));
    ShownMeanOfFour();
  }

  lemma WhereAppend(rows: seq<Row>, x: Row, f: Filter)
    ensures Where(rows + [x], f) == Where(rows, f) + (if Keeps(f, x) then [x] else [])
  {
    assert (rows + [x])[..|rows|] == rows;
  }

  lemma WhereOfThree(a: Row, b: Row, c: Row, f: Filter)
    ensures Where([a, b, c], f) ==
      (if Keeps(f, a) then [a] else []) + (if Keeps(f, b) then [b] else []) + (if Keeps(f, c) then [c] else [])
  {
    WhereAppend([], a, f);
    WhereAppend([a], b, f);
    WhereAppend([a, b], c, f);
    assert [a] == [] + [a] && [a, b] == [a] + [b] && [a, b, c] == [a, b] + [c];
  }

  /** A term whose first letter does not occur in `s` does not occur in `s`. */
  lemma FirstLetterAbsent(s: string, t: string)
    requires |t| > 0 && forall i :: 0 <= i < |s| ==> s[i] != t[0]
    ensures !Contains(s, t)
  {
    forall i: nat | i + |t| <= |s| ensures !OccursAt(s, t, i) {
      assert s[i..i + |t|][0] == s[i];
    }
  }

  /** The test catalogue's annotated rows, book by book. */
  lemma ApiRows()
    ensures var rows := Annotate(ApiBooks(), ApiReactions());
      && rows == [rows[0], rows[1], rows[2]]
      && rows[0].book == ApiBooks()[0] && rows[1].book == ApiBooks()[1] && rows[2].book == ApiBooks()[2]
  {
    var rows := Annotate(ApiBooks(), ApiReactions());
    assert |rows| == 3;
  }

  /** The price filter 25.00 keeps books 1 and 2 (in no particular order). */
  lemma ApiPriceFilter()
    ensures multiset(Ids(List(ApiBooks(), ApiReactions(), Query(Some(2500), None, false)))) == multiset{1, 2}
  {
    var rows := Annotate(ApiBooks(), ApiReactions());
    ApiRows();
    assert Where(rows, PriceIs(2500)) == [rows[0], rows[1]] by {
      assert Keeps(PriceIs(2500), rows[0]) && Keeps(PriceIs(2500), rows[1]) && !Keeps(PriceIs(2500), rows[2]);
      WhereOfThree(rows[0], rows[1], rows[2], PriceIs(2500));
    }
    assert List(ApiBooks(), ApiReactions(), Query(Some(2500), None, false)) == Where(rows, PriceIs(2500));
    IdsOfTwo(rows[0], rows[1]);
  }

  lemma SearchHitsBook1()
    ensures Matches("Макс", ApiBooks()[0])
  {
    var t := LowerString("Макс");
    var author := LowerString(ApiBooks()[0].authorName);
    assert author[0..4] == t;
    assert OccursAt(author, t, 0);
  }

  lemma SearchHitsBook3()
    ensures Matches("Макс", ApiBooks()[2])
  {
    var t := LowerString("Макс");
    var name := LowerString(ApiBooks()[2].name);
    assert name[0..4] == t;
    assert OccursAt(name, t, 0);
  }

  lemma SearchMissesBook2()
    ensures !Matches("Макс", ApiBooks()[1])
  {
    var t := LowerString("Макс");
    assert t[0] == 'м';
    var name, author := LowerString(ApiBooks()[1].name), LowerString(ApiBooks()[1].authorName);
    assert name == "встреча";
    assert author == "катя";
    FirstLetterAbsent(name, t);
    FirstLetterAbsent(author, t);
  }

  /** The search "Макс" keeps book 1 (by its author) and book 3 (by its name), not
      book 2 (in no particular order). */
  lemma ApiSearch()
    ensures multiset(Ids(List(ApiBooks(), ApiReactions(), Query(None, Some("Макс"), false)))) == multiset{1, 3}
  {
    var rows := Annotate(ApiBooks(), ApiReactions());
    ApiRows();
    assert Where(rows, Mentions("Макс")) == [rows[0], rows[2]] by {
      SearchHitsBook1();
      SearchHitsBook3();
      SearchMissesBook2();
      WhereOfThree(rows[0], rows[1], rows[2], Mentions("Макс"));
    }
    assert List(ApiBooks(), ApiReactions(), Query(None, Some("Макс"), false)) == Where(rows, Mentions("Макс"));
    IdsOfTwo(rows[0], rows[2]);
  }

  /** A row that belongs after every row of an ordered list is inserted at its end. */
  lemma {:induction false} InsertLast(x: Row, rows: seq<Row>)
    requires SortedByPrice(rows) && forall k :: 0 <= k < |rows| ==> !Before(x, rows[k])
    ensures Insert(x, rows) == rows + [x]
  {
    if rows != [] {
      InsertLast(x, rows[1..]);
      assert rows == [rows[0]] + rows[1..];
    }
  }

  lemma OrderByPriceAppend(rows: seq<Row>, x: Row)
    ensures OrderByPrice(rows + [x]) == Insert(x, OrderByPrice(rows))
  {
    assert (rows + [x])[..|rows|] == rows;
  }

  /** Three rows already in price order stay as they are. */
  lemma OrderOfThree(a: Row, b: Row, c: Row)
    requires Before(a, b) && !Before(b, a) && !Before(c, a) && !Before(c, b)
    ensures OrderByPrice([a, b, c]) == [a, b, c]
  {
    assert OrderByPrice([a]) == [a] by {
      OrderByPriceAppend([], a);
      assert [a] == [] + [a];
    }
    assert OrderByPrice([a, b]) == [a, b] by {
      OrderByPriceAppend([a], b);
      InsertLast(b, [a]);
      assert [a, b] == [a] + [b];
    }
    OrderByPriceAppend([a, b], c);
    InsertLast(c, [a, b]);
    assert [a, b, c] == [a, b] + [c];
  }

  lemma IdsOfTwo(a: Row, b: Row)
    ensures Ids([a, b]) == [a.book.id, b.book.id]
  {
  }

  lemma IdsOfThree(a: Row, b: Row, c: Row)
    ensures Ids([a, b, c]) == [a.book.id, b.book.id, c.book.id]
  {
  }

  /** Ordering by price lists books 1 and 2 (both 25.00, by id) before book 3. */
  lemma ApiOrdering()
    ensures Ids(List(ApiBooks(), ApiReactions(), Query(None, None, true))) == [1, 2, 3]
  {
    var rows := Annotate(ApiBooks(), ApiReactions());
    ApiRows();
    assert List(ApiBooks(), ApiReactions(), Query(None, None, true)) == OrderByPrice(rows);
    OrderOfThree(rows[0], rows[1], rows[2]);
    IdsOfThree(rows[0], rows[1], rows[2]);
  }
}
