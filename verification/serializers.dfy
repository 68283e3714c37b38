/** The representations of store/serializers.py: what a client sees of a listed
    book and of a reaction. The field sets are the constructors' fields. */
module Serializers {
  import opened Domain
  import opened Rating
  import opened Decimals
  import opened Listing

  /** A reader's name pair. */
  datatype Fio = Fio(firstName: string, lastName: string)

  /** A book as the API shows it: id, name, price, author_name, annotate_likes,
      rate, owner_name, reader_fio and rating, and nothing else. */
  datatype BookRepr = BookRepr(
    id: BookId,
    name: string,
    price: string,
    authorName: string,
    annotateLikes: nat,
    rate: Option<string>,
    ownerName: string,
    readerFio: seq<Fio>,
    rating: Option<string>)

  /** A reaction as the API shows it: book, like, in_bookmarks and rate. */
  datatype ReactionRepr = ReactionRepr(book: BookId, like: bool, inBookmarks: bool, rate: Option<Rate>)

  /** Every user the book and the reactions refer to is known. */
  predicate UsersKnown(users: map<UserId, User>, b: Book, rs: seq<Reaction>) {
    (b.owner.Some? ==> b.owner.value in users) && forall r :: r in rs ==> r.user in users
  }

  function FioOf(u: User): Fio {
    Fio(u.firstName, u.lastName)
  }

  /** One name pair for each reaction to book `id`, in row order, whatever the
      reaction holds. */
  function ReaderFio(rs: seq<Reaction>, id: BookId, users: map<UserId, User>): (fio: seq<Fio>)
    requires forall r :: r in rs ==> r.user in users
    ensures |fio| == |OfBook(rs, id)|
    ensures forall i :: 0 <= i < |fio| ==> fio[i] == FioOf(users[OfBook(rs, id)[i].user])
  {
    var mine := OfBook(rs, id);
    seq(|mine|, i requires 0 <= i < |mine| => FioOf(users[mine[i].user]))
  }

  /** The reader list names exactly the users with a reaction to the book, those who
      neither liked nor rated it included. */
  lemma ReaderFioExactly(rs: seq<Reaction>, id: BookId, users: map<UserId, User>, f: Fio)
    requires forall r :: r in rs ==> r.user in users
    ensures f in ReaderFio(rs, id, users) <==> exists r :: r in rs && r.book == id && FioOf(users[r.user]) == f
  {
    var mine := OfBook(rs, id);
    var fio := ReaderFio(rs, id, users);
    if f in fio {
      var i :| 0 <= i < |fio| && fio[i] == f;
      assert mine[i] in mine;
    }
    if exists r :: r in rs && r.book == id && FioOf(users[r.user]) == f {
      var r :| r in rs && r.book == id && FioOf(users[r.user]) == f;
      assert r in mine;
      var i :| 0 <= i < |mine| && mine[i] == r;
      assert fio[i] == f;
    }
  }

  /** The owner's username, or '' for a book without an owner. */
  function OwnerName(b: Book, users: map<UserId, User>): (name: string)
    requires b.owner.Some? ==> b.owner.value in users
    ensures b.owner.None? ==> name == ""
    ensures b.owner.Some? ==> name == users[b.owner.value].username
  {
    match b.owner
    case None => ""
    case Some(u) => users[u].username
  }

  /** A listed book as the API shows it. Price, rate and rating are written with two
      decimals and read back as the price, and as the rate and rating rounded to
      hundredths; absent rates and ratings stay absent; the owner shows by username,
      a book without an owner as ''; the reader list has one entry per reaction. */
  function RenderBook(row: Row, users: map<UserId, User>, rs: seq<Reaction>): (r: BookRepr)
    requires UsersKnown(users, row.book, rs)
    ensures r.id == row.book.id && r.name == row.book.name && r.authorName == row.book.authorName
    ensures r.annotateLikes == row.annotateLikes
    ensures ParseFixed2(r.price) == Some(row.book.price)
    ensures r.rate.None? <==> row.rate.None?
    ensures row.rate.Some? ==> ParseFixed2(r.rate.value) == Some(Round2(row.rate.value))
    ensures r.rating.None? <==> row.book.rating.None?
    ensures row.book.rating.Some? ==> ParseFixed2(r.rating.value) == Some(Round2(row.book.rating.value))
    ensures row.book.owner.None? ==> r.ownerName == ""
    ensures row.book.owner.Some? ==> r.ownerName == users[row.book.owner.value].username
    ensures r.readerFio == ReaderFio(rs, row.book.id, users)
    ensures |r.readerFio| == |OfBook(rs, row.book.id)|
  {
    Fixed2RoundTrip(row.book.price);
    BookRepr(
      row.book.id,
      row.book.name,
      Fixed2(row.book.price),
      row.book.authorName,
      row.annotateLikes,
      RenderMean(row.rate),
      OwnerName(row.book, users),
      ReaderFio(rs, row.book.id, users),
      RenderMean(row.book.rating))
  }

  /** A reaction as the API shows it: everything the row holds except its user, so
      the row is recovered from the representation and the user. */
  function RenderReaction(x: Reaction): (r: ReactionRepr)
    ensures Reaction(x.user, r.book, r.like, r.inBookmarks, r.rate) == x
  {
    ReactionRepr(x.book, x.like, x.inBookmarks, x.rate)
  }

  /** Prices 25 and 55 show as '25.00' and '55.00'. */
  lemma ShownPrices()
    ensures Fixed2(2500) == "25.00" && Fixed2(5500) == "55.00"
  {
    assert DigitChar(0) == '0' && DigitChar(2) == '2' && DigitChar(5) == '5';
    assert NatDigits(25) == NatDigits(2) + [DigitChar(5)];
    assert NatDigits(55) == NatDigits(5) + [DigitChar(5)];
    assert Unsigned2(2500) == "25.00" && Unsigned2(5500) == "55.00";
  }
}
