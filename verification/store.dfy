/** The catalogue's tables and the operations that change them: saving a reaction
    (store/models.py), recomputing a rating (store/logic.py), the reaction lookup of
    the reaction endpoint and book creation (store/views.py), and the update and
    delete requests of the book endpoint. Each operation is a function from the old
    tables to the new ones; the class `Catalogue` below performs them in place. */
module Store {
  import opened Domain
  import opened Rating
  import opened Permissions
  import Listing

  /** Why a request fails. */
  datatype Error =
    | Denied                   // the policy refused the request
    | NotFound                 // no book with the id in the URL
    | MultipleObjectsReturned  // the reaction lookup found several rows
    | NoSuchBook               // a reaction to a book that does not exist
    | Invalid                  // the submitted data did not validate

  datatype Result<T> = Ok(value: T) | Err(error: Error)

  /** The tables: users by id, books in id order, reaction rows in insertion order,
      and the id the next book receives. */
  datatype Db = Db(users: map<UserId, User>, books: seq<Book>, reactions: seq<Reaction>, nextBookId: BookId)

  /** The new tables after a request, and its error if it failed. */
  datatype Reply = Reply(db: Db, error: Option<Error>)

  // ---------------------------------------------------------------------------
  // Books by id

  predicate IdsIncreasing(books: seq<Book>) {
    forall i, j :: 0 <= i < j < |books| ==> books[i].id < books[j].id
  }

  function BookIds(books: seq<Book>): set<BookId> {
    set k | 0 <= k < |books| :: books[k].id
  }

  /** The position of book `id`, or -1 when there is none; with increasing ids it is
      the one position holding that id. */
  function IndexOf(books: seq<Book>, id: BookId): (i: int)
    ensures -1 <= i < |books|
    ensures i >= 0 ==> books[i].id == id
    ensures i >= 0 <==> id in BookIds(books)
    ensures IdsIncreasing(books) ==> forall k :: 0 <= k < |books| && books[k].id == id ==> k == i
  {
    if books == [] then -1
    else if books[|books| - 1].id == id then |books| - 1
    else
      var i := IndexOf(books[..|books| - 1], id);
      assert BookIds(books) == BookIds(books[..|books| - 1]) + {books[|books| - 1].id};
      i
  }

  // ---------------------------------------------------------------------------
  // Reaction rows by (user, book)

  predicate IsPair(r: Reaction, u: UserId, b: BookId) {
    r.user == u && r.book == b
  }

  /** How many rows belong to user `u` and book `b`. */
  function PairCount(rs: seq<Reaction>, u: UserId, b: BookId): (n: nat)
    ensures n <= |rs|
    ensures n == 0 <==> forall k :: 0 <= k < |rs| ==> !IsPair(rs[k], u, b)
  {
    if rs == [] then 0
    else PairCount(rs[..|rs| - 1], u, b) + (if IsPair(rs[|rs| - 1], u, b) then 1 else 0)
  }

  /** The last row of user `u` and book `b`, or -1 when there is none. */
  function PairIndex(rs: seq<Reaction>, u: UserId, b: BookId): (i: int)
    ensures -1 <= i < |rs|
    ensures i >= 0 ==> IsPair(rs[i], u, b)
    ensures i < 0 <==> PairCount(rs, u, b) == 0
  {
    if rs == [] then -1
    else if IsPair(rs[|rs| - 1], u, b) then |rs| - 1
    else PairIndex(rs[..|rs| - 1], u, b)
  }

  /** At most one row per (user, book). The schema does not demand it; only the
      reaction lookup keeps it. */
  predicate Unique(rs: seq<Reaction>) {
    forall r :: r in rs ==> PairCount(rs, r.user, r.book) <= 1
  }

  /** Under `Unique` no pair has two rows, whether or not it has one. */
  lemma UniqueAtMostOne(rs: seq<Reaction>, u: UserId, b: BookId)
    requires Unique(rs)
    ensures PairCount(rs, u, b) <= 1
  {
    var i := PairIndex(rs, u, b);
    if i >= 0 {
      assert rs[i] in rs;
    }
  }

  // ---------------------------------------------------------------------------
  // Integrity and the derived rating

  /** Ids increase and stay below the next id; owners, reacting users and reacted
      books exist. */
  predicate Valid(db: Db) {
    && IdsIncreasing(db.books)
    && (forall k :: 0 <= k < |db.books| ==> db.books[k].id < db.nextBookId)
    && (forall k :: 0 <= k < |db.books| && db.books[k].owner.Some? ==> db.books[k].owner.value in db.users)
    && (forall r :: r in db.reactions ==> r.user in db.users && r.book in BookIds(db.books))
  }

  /** Every book's rating is the mean of its reactions' rates. */
  predicate RatingsCurrent(db: Db) {
    forall k :: 0 <= k < |db.books| ==> db.books[k].rating == MeanRate(db.reactions, db.books[k].id)
  }

  /** `calculate_rating`: the rating of book `id` becomes the mean of its rates; no
      other book and no other field changes. */
  function Recalc(db: Db, id: BookId): (d: Db)
    ensures d.users == db.users && d.reactions == db.reactions && d.nextBookId == db.nextBookId
    ensures |d.books| == |db.books|
    ensures forall k :: 0 <= k < |db.books| ==> d.books[k] == db.books[k].(rating := d.books[k].rating)
    ensures forall k :: 0 <= k < |db.books| && db.books[k].id != id ==> d.books[k] == db.books[k]
    ensures IdsIncreasing(db.books) ==>
      forall k :: 0 <= k < |db.books| && db.books[k].id == id ==> d.books[k].rating == MeanRate(db.reactions, id)
  {
    var i := IndexOf(db.books, id);
    if i < 0 then db
    else db.(books := db.books[i := db.books[i].(rating := MeanRate(db.reactions, id))])
  }

  /** From `before` to `after` the users, the next id and the books stay, in their
      order, except the rating of book `id`; the reaction rows may differ. */
  predicate OnlyRatingChanged(before: Db, after: Db, id: BookId) {
    && after.users == before.users && after.nextBookId == before.nextBookId
    && |after.books| == |before.books|
    && forall k :: 0 <= k < |before.books| ==>
         && after.books[k] == before.books[k].(rating := after.books[k].rating)
         && (before.books[k].id != id ==> after.books[k] == before.books[k])
  }

  /** Computing a rating twice in a row gives what computing it once gives. */
  lemma RecalcIdempotent(db: Db, id: BookId)
    ensures Recalc(Recalc(db, id), id) == Recalc(db, id)
  {
    var d := Recalc(db, id);
    var i := IndexOf(db.books, id);
    IndexOfSameIds(db.books, d.books, id);
    if i >= 0 {
      assert d.books[i := d.books[i].(rating := MeanRate(d.reactions, id))] == d.books;
    }
  }

  lemma {:induction false} IndexOfSameIds(b1: seq<Book>, b2: seq<Book>, id: BookId)
    requires |b1| == |b2| && forall k :: 0 <= k < |b1| ==> b1[k].id == b2[k].id
    ensures IndexOf(b1, id) == IndexOf(b2, id)
  {
    if b1 != [] {
      IndexOfSameIds(b1[..|b1| - 1], b2[..|b2| - 1], id);
    }
  }

  /** After a change to the reaction rows that keeps the rating of every book but `b`,
      recomputing `b` makes every rating current again. */
  lemma RecalcRestores(db: Db, rs: seq<Reaction>, b: BookId)
    requires RatingsCurrent(db) && IdsIncreasing(db.books)
    requires forall id :: id != b ==> MeanRate(rs, id) == MeanRate(db.reactions, id)
    ensures RatingsCurrent(Recalc(db.(reactions := rs), b))
  {
    var d := Recalc(db.(reactions := rs), b);
    forall k | 0 <= k < |d.books|
      ensures d.books[k].rating == MeanRate(d.reactions, d.books[k].id)
    {
      if db.books[k].id != b {
        assert MeanRate(rs, db.books[k].id) == MeanRate(db.reactions, db.books[k].id);
      }
    }
  }

  // ---------------------------------------------------------------------------
  // Saving a reaction: store the row, then recompute its book's rating

  /** `UserBookRelationship.save` of a row not stored yet. */
  function SaveNew(db: Db, r: Reaction): (d: Db)
    ensures d.reactions == db.reactions + [r]
    ensures OnlyRatingChanged(db, d, r.book)
    ensures IdsIncreasing(db.books) ==>
      forall k :: 0 <= k < |d.books| && d.books[k].id == r.book ==> d.books[k].rating == MeanRate(d.reactions, r.book)
  {
    Recalc(db.(reactions := db.reactions + [r]), r.book)
  }

  /** `UserBookRelationship.save` of the stored row at `i`, now holding `r`. Only the
      book `r` names is recomputed. */
  function SaveAt(db: Db, i: nat, r: Reaction): (d: Db)
    requires i < |db.reactions|
    ensures d.reactions == db.reactions[i := r]
    ensures OnlyRatingChanged(db, d, r.book)
    ensures IdsIncreasing(db.books) ==>
      forall k :: 0 <= k < |d.books| && d.books[k].id == r.book ==> d.books[k].rating == MeanRate(d.reactions, r.book)
  {
    Recalc(db.(reactions := db.reactions[i := r]), r.book)
  }

  /** Saving a new row keeps every rating current: only the row's book can change,
      and that one is recomputed. */
  lemma SaveNewKeepsRatingsCurrent(db: Db, r: Reaction)
    requires RatingsCurrent(db) && IdsIncreasing(db.books)
    ensures RatingsCurrent(SaveNew(db, r))
  {
    forall id | id != r.book
      ensures MeanRate(db.reactions + [r], id) == MeanRate(db.reactions, id)
    {
      MeanRateAppend(db.reactions, r, id);
    }
    RecalcRestores(db, db.reactions + [r], r.book);
  }

  /** Saving a stored row that stays on its book keeps every rating current. */
  lemma SaveAtKeepsRatingsCurrent(db: Db, i: nat, r: Reaction)
    requires i < |db.reactions| && db.reactions[i].book == r.book
    requires RatingsCurrent(db) && IdsIncreasing(db.books)
    ensures RatingsCurrent(SaveAt(db, i, r))
  {
    forall id | id != r.book
      ensures MeanRate(db.reactions[i := r], id) == MeanRate(db.reactions, id)
    {
      OfBookUpdateElsewhere(db.reactions, i, r, id);
      SameRowsSameMean(db.reactions[i := r], db.reactions, id);
    }
    RecalcRestores(db, db.reactions[i := r], r.book);
  }

  // ---------------------------------------------------------------------------
  // Keeping the tables valid

  lemma SameIdsSameBookIds(b1: seq<Book>, b2: seq<Book>)
    requires |b1| == |b2| && forall k :: 0 <= k < |b1| ==> b1[k].id == b2[k].id
    ensures BookIds(b1) == BookIds(b2)
  {
    forall id | id in BookIds(b1) ensures id in BookIds(b2) {
      var k :| 0 <= k < |b1| && b1[k].id == id;
      assert b2[k].id == id;
    }
    forall id | id in BookIds(b2) ensures id in BookIds(b1) {
      var k :| 0 <= k < |b2| && b2[k].id == id;
      assert b1[k].id == id;
    }
  }

  /** Recomputing a rating keeps the tables valid: it touches ratings only. */
  lemma RecalcKeepsValid(db: Db, id: BookId)
    requires Valid(db)
    ensures Valid(Recalc(db, id))
  {
    var d := Recalc(db, id);
    assert forall k :: 0 <= k < |db.books| ==> d.books[k].id == db.books[k].id && d.books[k].owner == db.books[k].owner;
    SameIdsSameBookIds(d.books, db.books);
  }

  /** Saving a new row by a known user about an existing book keeps the tables valid. */
  lemma SaveNewKeepsValid(db: Db, r: Reaction)
    requires Valid(db) && r.user in db.users && r.book in BookIds(db.books)
    ensures Valid(SaveNew(db, r))
  {
    RecalcKeepsValid(db.(reactions := db.reactions + [r]), r.book);
  }

  /** Saving a stored row that keeps its user and book keeps the tables valid. */
  lemma SaveAtKeepsValid(db: Db, i: nat, r: Reaction)
    requires Valid(db) && i < |db.reactions| && IsPair(db.reactions[i], r.user, r.book)
    ensures Valid(SaveAt(db, i, r))
  {
    var rs := db.reactions[i := r];
    forall x | x in rs ensures x.user in db.users && x.book in BookIds(db.books) {
      var k :| 0 <= k < |rs| && rs[k] == x;
      if k != i {
        assert db.reactions[k] in db.reactions;
      } else {
        assert db.reactions[i] in db.reactions;
      }
    }
    RecalcKeepsValid(db.(reactions := rs), r.book);
  }

  lemma {:induction false} PairCountAppend(rs: seq<Reaction>, r: Reaction, u: UserId, b: BookId)
    ensures PairCount(rs + [r], u, b) == PairCount(rs, u, b) + (if IsPair(r, u, b) then 1 else 0)
  {
    assert (rs + [r])[..|rs|] == rs;
  }

  /** Overwriting a row with one of the same user and book keeps every pair's count. */
  lemma {:induction false} PairCountUpdateSamePair(rs: seq<Reaction>, i: nat, r: Reaction, u: UserId, b: BookId)
    requires i < |rs| && rs[i].user == r.user && rs[i].book == r.book
    ensures PairCount(rs[i := r], u, b) == PairCount(rs, u, b)
  {
    var rs' := rs[i := r];
    if i < |rs| - 1 {
      assert rs'[..|rs'| - 1] == rs[..|rs| - 1][i := r];
      PairCountUpdateSamePair(rs[..|rs| - 1], i, r, u, b);
    } else {
      assert rs'[..|rs'| - 1] == rs[..|rs| - 1];
    }
  }

  /** Saving a stored row that keeps its user and book keeps the rows unique. */
  lemma SaveAtKeepsUnique(db: Db, i: nat, r: Reaction)
    requires Unique(db.reactions) && i < |db.reactions| && IsPair(db.reactions[i], r.user, r.book)
    ensures Unique(SaveAt(db, i, r).reactions)
  {
    var rs := db.reactions[i := r];
    forall x | x in rs ensures PairCount(rs, x.user, x.book) <= 1 {
      PairCountUpdateSamePair(db.reactions, i, r, x.user, x.book);
      UniqueAtMostOne(db.reactions, x.user, x.book);
    }
  }

  // ---------------------------------------------------------------------------
  // The reaction lookup: get_or_create by (user, book id)

  /** What the lookup yields: the tables after it, the row's position, and whether
      the row had to be created. */
  datatype Got = Got(db: Db, index: nat, created: bool)

  /** `get_or_create(user=u, book_id=b)`. One stored row is returned as it is; with
      none, a row with the defaults is created and saved (which recomputes the book);
      several rows are an error, and so is a reaction to a book that does not exist,
      which stores nothing. */
  function GetOrCreate(db: Db, u: UserId, b: BookId): (r: Result<Got>)
    ensures r.Ok? ==> r.value.index < |r.value.db.reactions| && IsPair(r.value.db.reactions[r.value.index], u, b)
    ensures r.Ok? && !r.value.created ==> r.value.db == db
    ensures r.Ok? && r.value.created ==> r.value.db.reactions == db.reactions + [NewReaction(u, b)]
    ensures r.Ok? ==> OnlyRatingChanged(db, r.value.db, b)
    ensures r.Ok? ==> (r.value.created <==> PairCount(db.reactions, u, b) == 0)
    ensures r == Err(MultipleObjectsReturned) <==> PairCount(db.reactions, u, b) >= 2
    ensures r == Err(NoSuchBook) <==> PairCount(db.reactions, u, b) == 0 && b !in BookIds(db.books)
    ensures r.Err? ==> r.error in {MultipleObjectsReturned, NoSuchBook}
  {
    var n := PairCount(db.reactions, u, b);
    if n >= 2 then Err(MultipleObjectsReturned)
    else if n == 1 then Ok(Got(db, PairIndex(db.reactions, u, b), false))
    else if IndexOf(db.books, b) < 0 then Err(NoSuchBook)
    else Ok(Got(SaveNew(db, NewReaction(u, b)), |db.reactions|, true))
  }

  /** A pair with exactly one row is found there, and nothing changes. */
  lemma FoundOnce(db: Db, u: UserId, b: BookId)
    requires PairCount(db.reactions, u, b) == 1
    ensures GetOrCreate(db, u, b) == Ok(Got(db, PairIndex(db.reactions, u, b), false))
  {
  }

  /** A second lookup finds the row the first returned and creates nothing. */
  lemma GetOrCreateIdempotent(db: Db, u: UserId, b: BookId)
    requires GetOrCreate(db, u, b).Ok?
    ensures var g := GetOrCreate(db, u, b).value;
      GetOrCreate(g.db, u, b) == Ok(Got(g.db, g.index, false))
  {
    var g := GetOrCreate(db, u, b).value;
    if g.created {
      var rs := g.db.reactions;
      PairCountAppend(db.reactions, NewReaction(u, b), u, b);
      assert PairIndex(rs, u, b) == |db.reactions| == g.index;
      FoundOnce(g.db, u, b);
    } else {
      FoundOnce(db, u, b);
    }
  }

  /** The lookup keeps the rows unique: it only creates a row for a pair that has none. */
  lemma GetOrCreateKeepsUnique(db: Db, u: UserId, b: BookId)
    requires Unique(db.reactions) && GetOrCreate(db, u, b).Ok?
    ensures Unique(GetOrCreate(db, u, b).value.db.reactions)
  {
    var g := GetOrCreate(db, u, b).value;
    if g.created {
      var rs := g.db.reactions;
      forall x | x in rs ensures PairCount(rs, x.user, x.book) <= 1 {
        PairCountAppend(db.reactions, NewReaction(u, b), x.user, x.book);
        UniqueAtMostOne(db.reactions, x.user, x.book);
      }
    }
  }

  /** With unique rows the lookup is never ambiguous. */
  lemma UniqueLookupUnambiguous(db: Db, u: UserId, b: BookId)
    requires Unique(db.reactions)
    ensures GetOrCreate(db, u, b) != Err(MultipleObjectsReturned)
  {
    UniqueAtMostOne(db.reactions, u, b);
  }

  /** Nothing but the lookup keeps pairs unique: two rows for one pair, saved
      directly as `objects.create` does, make every later lookup of that pair fail. */
  lemma DirectCreateMakesLookupAmbiguous(db: Db, u: UserId, b: BookId, r1: Reaction, r2: Reaction)
    requires IsPair(r1, u, b) && IsPair(r2, u, b)
    ensures GetOrCreate(SaveNew(SaveNew(db, r1), r2), u, b) == Err(MultipleObjectsReturned)
  {
    PairCountAppend(db.reactions, r1, u, b);
    PairCountAppend(db.reactions + [r1], r2, u, b);
  }

  /** The lookup keeps the tables valid and every rating current, for a known user. */
  lemma GetOrCreateKeepsInvariants(db: Db, u: UserId, b: BookId)
    requires Valid(db) && RatingsCurrent(db) && u in db.users && GetOrCreate(db, u, b).Ok?
    ensures Valid(GetOrCreate(db, u, b).value.db) && RatingsCurrent(GetOrCreate(db, u, b).value.db)
  {
    if GetOrCreate(db, u, b).value.created {
      SaveNewKeepsValid(db, NewReaction(u, b));
      SaveNewKeepsRatingsCurrent(db, NewReaction(u, b));
    }
  }

  // ---------------------------------------------------------------------------
  // The reaction endpoint: PATCH /book_relation/<book>/

  /** The fields a reaction PATCH may carry; an absent field is not sent. The rate
      arrives as any integer or null and is checked against the choices. */
  datatype ReactionPatch = ReactionPatch(
    book: Option<BookId>,
    like: Option<bool>,
    inBookmarks: Option<bool>,
    rate: Option<Option<int>>)

  /** A sent rate is null or one of the choices 1..5. */
  predicate ValidRateInput(v: Option<Option<int>>) {
    v.Some? && v.value.Some? ==> 1 <= v.value.value <= 5
  }

  /** Validation of the reaction serializer: a sent book must exist, a sent rate must
      be a choice. */
  predicate ValidReactionPatch(db: Db, p: ReactionPatch) {
    (p.book.Some? ==> p.book.value in BookIds(db.books)) && ValidRateInput(p.rate)
  }

  /** The row with the sent like, bookmark and rate fields written over it; its user
      and its book stay. */
  function ApplyReactionPatch(r: Reaction, p: ReactionPatch): (r': Reaction)
    requires ValidRateInput(p.rate)
    ensures IsPair(r', r.user, r.book)
  {
    var rate := match p.rate
      case None => r.rate
      case Some(None) => None
      case Some(Some(v)) => Some(v as Rate);
    Reaction(r.user, r.book, p.like.GetOr(r.like), p.inBookmarks.GetOr(r.inBookmarks), rate)
  }

  /** The serializer as written also writes a sent `book` into the row, moving it. */
  function ApplyReactionPatchAsWritten(r: Reaction, p: ReactionPatch): (r': Reaction)
    requires ValidRateInput(p.rate)
    ensures r'.user == r.user && r'.book == p.book.GetOr(r.book)
    ensures r'.(book := r.book) == ApplyReactionPatch(r, p)
  {
    ApplyReactionPatch(r, p).(book := p.book.GetOr(r.book))
  }

  /** A sent book passes validation only when it exists, so a valid patch, even as
      written, never points a row at a missing book. */
  lemma ValidPatchNamesExistingBook(db: Db, r: Reaction, p: ReactionPatch)
    requires ValidReactionPatch(db, p) && r.book in BookIds(db.books)
    ensures ApplyReactionPatchAsWritten(r, p).book in BookIds(db.books)
  {
  }

  /** The row a request finds for (u, b) before it changes anything: the stored one,
      or the defaults when the lookup has to create it. */
  function RowBefore(db: Db, u: UserId, b: BookId): Reaction {
    if PairCount(db.reactions, u, b) == 1 then db.reactions[PairIndex(db.reactions, u, b)] else NewReaction(u, b)
  }

  /** A partial update of the requester's reaction to book `b`. An anonymous request is
      refused before anything happens; the lookup runs next and may create the row;
      the row it created stays even when validation then fails; a valid patch writes
      the sent fields and saves the row, which recomputes the book's rating. */
  function PatchReaction(db: Db, who: Option<User>, b: BookId, p: ReactionPatch): (r: Reply)
    ensures who.None? ==> r == Reply(db, Some(Denied))
    ensures OnlyRatingChanged(db, r.db, b)
    ensures r.error.Some? ==> r.db.reactions == db.reactions || r.db.reactions == db.reactions + [NewReaction(who.value.id, b)]
    ensures r.error.None? ==>
      who.Some? && GetOrCreate(db, who.value.id, b).Ok? && ValidReactionPatch(GetOrCreate(db, who.value.id, b).value.db, p)
    ensures r.error == Some(Invalid) ==>
      who.Some? && GetOrCreate(db, who.value.id, b).Ok? && !ValidReactionPatch(GetOrCreate(db, who.value.id, b).value.db, p)
  {
    if who.None? then Reply(db, Some(Denied))
    else
      match GetOrCreate(db, who.value.id, b)
      case Err(e) => Reply(db, Some(e))
      case Ok(g) =>
        if !ValidReactionPatch(g.db, p) then Reply(g.db, Some(Invalid))
        else Reply(SaveAt(g.db, g.index, ApplyReactionPatch(g.db.reactions[g.index], p)), None)
  }

  /** A successful patch changes only the fields it sends, in the requester's row for the
      book, and no other row; the row is new exactly when the pair had none. */
  lemma PatchChangesOnlySentFields(db: Db, u: User, b: BookId, p: ReactionPatch)
    requires PatchReaction(db, Some(u), b, p).error.None?
    ensures var after := PatchReaction(db, Some(u), b, p).db.reactions;
      var before := RowBefore(db, u.id, b);
      var i := PairIndex(after, u.id, b);
      && |after| == |db.reactions| + (if PairCount(db.reactions, u.id, b) == 0 then 1 else 0)
      && 0 <= i
      && IsPair(after[i], u.id, b)
      && after[i].like == p.like.GetOr(before.like)
      && after[i].inBookmarks == p.inBookmarks.GetOr(before.inBookmarks)
      && (p.rate.None? ==> after[i].rate == before.rate)
      && (p.rate.Some? ==> (after[i].rate.Some? <==> p.rate.value.Some?))
      && (p.rate.Some? && p.rate.value.Some? ==> after[i].rate.value == p.rate.value.value)
      && forall k :: 0 <= k < |db.reactions| && k != i ==> after[k] == db.reactions[k]
  {
    var g := GetOrCreate(db, u.id, b).value;
    var after := PatchReaction(db, Some(u), b, p).db.reactions;
    var row := ApplyReactionPatch(g.db.reactions[g.index], p);
    assert after == g.db.reactions[g.index := row];
    if g.created {
      PairCountAppend(db.reactions, NewReaction(u.id, b), u.id, b);
      PairCountUpdateSamePair(g.db.reactions, g.index, row, u.id, b);
      assert PairIndex(after, u.id, b) == g.index;
    } else {
      PairCountUpdateSamePair(db.reactions, g.index, row, u.id, b);
      assert PairCount(after, u.id, b) == 1;
      PairIndexIsOnly(after, u.id, b, g.index);
    }
  }

  /** When a pair has one row, that row is the one `PairIndex` finds. */
  lemma {:induction false} PairIndexIsOnly(rs: seq<Reaction>, u: UserId, b: BookId, k: nat)
    requires k < |rs| && IsPair(rs[k], u, b) && PairCount(rs, u, b) == 1
    ensures PairIndex(rs, u, b) == k
  {
    var init := rs[..|rs| - 1];
    if k < |rs| - 1 {
      assert init[k] == rs[k];
      assert !IsPair(rs[|rs| - 1], u, b);
      PairIndexIsOnly(init, u, b, k);
    }
  }

  /** A patch by a known user keeps the tables valid, every rating current and the rows
      unique, whatever it sends and whether or not it succeeds. */
  lemma PatchKeepsInvariants(db: Db, who: Option<User>, b: BookId, p: ReactionPatch)
    requires Valid(db) && RatingsCurrent(db) && Unique(db.reactions)
    requires who.Some? ==> who.value.id in db.users
    ensures var d := PatchReaction(db, who, b, p).db;
      Valid(d) && RatingsCurrent(d) && Unique(d.reactions)
  {
    if who.Some? && GetOrCreate(db, who.value.id, b).Ok? {
      var u := who.value.id;
      var g := GetOrCreate(db, u, b).value;
      GetOrCreateKeepsInvariants(db, u, b);
      GetOrCreateKeepsUnique(db, u, b);
      if ValidReactionPatch(g.db, p) {
        var row := ApplyReactionPatch(g.db.reactions[g.index], p);
        SaveAtKeepsValid(g.db, g.index, row);
        SaveAtKeepsRatingsCurrent(g.db, g.index, row);
        SaveAtKeepsUnique(g.db, g.index, row);
      }
    }
  }

  // ---------------------------------------------------------------------------
  // The book endpoint: create, update, delete

  /** The writable fields a book request may carry; an absent field is not sent.
      A sent rating is null or a non-negative number of hundredths. */
  datatype BookData = BookData(
    name: Option<string>,
    price: Option<int>,
    authorName: Option<string>,
    rating: Option<Option<nat>>)

  /** Validation of the book serializer. A full write needs name and price (author_name
      has a default, rating may be null); names are non-blank and at most 255 long;
      price and rating fit their decimal columns. */
  predicate ValidBookData(d: BookData, partial: bool) {
    && (!partial ==> d.name.Some? && d.price.Some?)
    && (d.name.Some? ==> 0 < |d.name.value| <= NameMaxLength)
    && (d.price.Some? ==> PriceFits(d.price.value))
    && (d.authorName.Some? ==> 0 < |d.authorName.value| <= NameMaxLength)
    && (d.rating.Some? && d.rating.value.Some? ==> RatingFits(d.rating.value.value))
  }

  /** The book's name, author and price fit their columns. */
  predicate FitsSchema(b: Book) {
    |b.name| <= NameMaxLength && |b.authorName| <= NameMaxLength && PriceFits(b.price)
  }

  /** A sent rating as the rating column holds it. */
  function SentRating(h: Option<nat>): Option<Mean> {
    match h
    case None => None
    case Some(v) => Some(Mean(v, 100))
  }

  /** The book a create stores: the sent fields, the defaults for the rest, and the
      requester as owner. */
  function NewBook(id: BookId, owner: UserId, d: BookData): (b: Book)
    requires d.name.Some? && d.price.Some?
    ensures b.id == id && b.owner == Some(owner) && !b.isPublished && b.rating.None?
    ensures Some(b.name) == d.name && Some(b.price) == d.price && b.authorName == d.authorName.GetOr("")
    ensures ValidBookData(d, false) ==> FitsSchema(b)
  {
    Book(id, d.name.value, d.price.value, d.authorName.GetOr(""), false, Some(owner), None)
  }

  /** As written, the serializer also stores a sent rating. */
  function NewBookAsWritten(id: BookId, owner: UserId, d: BookData): (b: Book)
    requires d.name.Some? && d.price.Some?
    ensures b.(rating := None) == NewBook(id, owner, d)
    ensures d.rating.Some? && d.rating.value.Some? ==> b.rating == Some(Mean(d.rating.value.value, 100))
  {
    NewBook(id, owner, d).(rating := if d.rating.Some? then SentRating(d.rating.value) else None)
  }

  /** A book with the sent name, price and author written over it. */
  function ApplyData(b: Book, d: BookData): (n: Book)
    ensures n.id == b.id && n.owner == b.owner && n.isPublished == b.isPublished && n.rating == b.rating
    ensures n.name == d.name.GetOr(b.name) && n.price == d.price.GetOr(b.price) && n.authorName == d.authorName.GetOr(b.authorName)
    ensures FitsSchema(b) && ValidBookData(d, true) ==> FitsSchema(n)
  {
    b.(name := d.name.GetOr(b.name), price := d.price.GetOr(b.price), authorName := d.authorName.GetOr(b.authorName))
  }

  /** As written, the serializer also writes a sent rating over the derived one. */
  function ApplyDataAsWritten(b: Book, d: BookData): (n: Book)
    ensures n.(rating := b.rating) == ApplyData(b, d)
    ensures d.rating.Some? && d.rating.value.Some? ==> n.rating == Some(Mean(d.rating.value.value, 100))
    ensures d.rating == Some(None) ==> n.rating.None?
  {
    ApplyData(b, d).(rating := if d.rating.Some? then SentRating(d.rating.value) else b.rating)
  }

  /** POST /book/: the policy decides first, then the data is validated; an anonymous
      request that gets this far stores nothing (the view saves only for an
      authenticated user). Otherwise one book is appended, owned by the requester,
      unpublished and without rating, with the next id. */
  function CreateBook(db: Db, who: Option<User>, d: BookData, policy: Policy): (r: Reply)
    ensures r.error == Some(Denied) <==> !policy(who, Create, None)
    ensures r.error == Some(Invalid) <==> policy(who, Create, None) && !ValidBookData(d, false)
    ensures r.error.Some? ==> r.error.value in {Denied, Invalid}
    ensures r.error.Some? || who.None? ==> r.db == db
    ensures r.error.None? && who.Some? ==>
      && r.db.users == db.users && r.db.reactions == db.reactions
      && |r.db.books| == |db.books| + 1 && r.db.books[..|db.books|] == db.books
      && r.db.nextBookId == db.nextBookId + 1
      && var b := r.db.books[|db.books|];
      && b.id == db.nextBookId && b.owner == Some(who.value.id) && !b.isPublished && b.rating.None?
      && d.name == Some(b.name) && d.price == Some(b.price) && b.authorName == d.authorName.GetOr("")
  {
    if !policy(who, Create, None) then Reply(db, Some(Denied))
    else if !ValidBookData(d, false) then Reply(db, Some(Invalid))
    else if who.None? then Reply(db, None)
    else
      var b := NewBook(db.nextBookId, who.value.id, d);
      assert (db.books + [b])[..|db.books|] == db.books;
      Reply(db.(books := db.books + [b], nextBookId := db.nextBookId + 1), None)
  }

  /** An authenticated user with valid data always creates a book, and owns it: a
      policy that agrees with the tested cases cannot refuse. */
  lemma CreateByRequester(db: Db, u: User, d: BookData, policy: Policy)
    requires Agrees(policy) && ValidBookData(d, false)
    ensures var r := CreateBook(db, Some(u), d, policy);
      r.error.None? && |r.db.books| == |db.books| + 1 && r.db.books[|db.books|].owner == Some(u.id)
  {
    assert Consistent(policy(Some(u), Create, None), Pinned(Some(u), Create, None));
  }

  /** No reaction refers to an id not yet given out, so such a book has no rating. */
  lemma FreshIdHasNoRating(db: Db)
    requires Valid(db)
    ensures MeanRate(db.reactions, db.nextBookId).None?
  {
    forall i | 0 <= i < |db.reactions| ensures db.reactions[i].book != db.nextBookId {
      assert db.reactions[i] in db.reactions;
    }
    NoMeanIffNoRate(db.reactions, db.nextBookId);
  }

  /** Creating a book keeps the tables valid, every rating current and the rows unique. */
  lemma CreateKeepsInvariants(db: Db, who: Option<User>, d: BookData, policy: Policy)
    requires Valid(db) && RatingsCurrent(db) && Unique(db.reactions)
    requires who.Some? ==> who.value.id in db.users
    ensures var n := CreateBook(db, who, d, policy).db;
      Valid(n) && RatingsCurrent(n) && Unique(n.reactions)
  {
    var n := CreateBook(db, who, d, policy).db;
    if n != db {
      FreshIdHasNoRating(db);
      assert BookIds(db.books) <= BookIds(n.books) by {
        forall id | id in BookIds(db.books) ensures id in BookIds(n.books) {
          var k :| 0 <= k < |db.books| && db.books[k].id == id;
          assert n.books[k] == db.books[k];
        }
      }
    }
  }

  /** PUT or PATCH /book/<id>/: an unknown id is not found; then the policy decides on
      the stored book; then the data is validated (`partial` for PATCH). A successful
      update writes the sent name, price and author over that one book, and nothing
      else: not its id, owner, publication or rating, and no other book. */
  function UpdateBook(db: Db, who: Option<User>, id: BookId, d: BookData, partial: bool, policy: Policy): (r: Reply)
    ensures r.error.Some? ==> r.db == db
    ensures r.error == Some(NotFound) <==> id !in BookIds(db.books)
    ensures id in BookIds(db.books) ==>
      (r.error == Some(Denied) <==> !policy(who, Update, Some(db.books[IndexOf(db.books, id)])))
    ensures r.error.None? ==>
      && id in BookIds(db.books)
      && r.db.users == db.users && r.db.reactions == db.reactions && r.db.nextBookId == db.nextBookId
      && |r.db.books| == |db.books|
    ensures r.error.None? ==> forall k :: 0 <= k < |db.books| ==>
      var o := db.books[k];
      var n := r.db.books[k];
      && n.id == o.id && n.owner == o.owner && n.isPublished == o.isPublished && n.rating == o.rating
      && (k != IndexOf(db.books, id) ==> n == o)
      && (k == IndexOf(db.books, id) ==>
            n.name == d.name.GetOr(o.name) && n.price == d.price.GetOr(o.price) && n.authorName == d.authorName.GetOr(o.authorName))
  {
    var i := IndexOf(db.books, id);
    if i < 0 then Reply(db, Some(NotFound))
    else if !policy(who, Update, Some(db.books[i])) then Reply(db, Some(Denied))
    else if !ValidBookData(d, partial) then Reply(db, Some(Invalid))
    else Reply(db.(books := db.books[i := ApplyData(db.books[i], d)]), None)
  }

  /** A request the tested cases deny (a non-owner who is not staff; the owner of a
      published book) is refused and changes nothing, under any agreeing policy. */
  lemma DeniedUpdateChangesNothing(db: Db, who: Option<User>, id: BookId, d: BookData, partial: bool, policy: Policy)
    requires Agrees(policy) && id in BookIds(db.books)
    requires Pinned(who, Update, Some(db.books[IndexOf(db.books, id)])) == Deny
    ensures UpdateBook(db, who, id, d, partial, policy) == Reply(db, Some(Denied))
  {
    var b := Some(db.books[IndexOf(db.books, id)]);
    assert Consistent(policy(who, Update, b), Pinned(who, Update, b));
  }

  /** A request the tested cases allow (the owner of an unpublished book; staff on an
      unpublished book) with valid data succeeds, under any agreeing policy. */
  lemma AllowedUpdateSucceeds(db: Db, who: Option<User>, id: BookId, d: BookData, partial: bool, policy: Policy)
    requires Agrees(policy) && id in BookIds(db.books) && ValidBookData(d, partial)
    requires Pinned(who, Update, Some(db.books[IndexOf(db.books, id)])) == Allow
    ensures UpdateBook(db, who, id, d, partial, policy).error.None?
  {
    var b := Some(db.books[IndexOf(db.books, id)]);
    assert Consistent(policy(who, Update, b), Pinned(who, Update, b));
  }

  /** Updating a book keeps the tables valid, every rating current and the rows unique. */
  lemma UpdateKeepsInvariants(db: Db, who: Option<User>, id: BookId, d: BookData, partial: bool, policy: Policy)
    requires Valid(db) && RatingsCurrent(db) && Unique(db.reactions)
    ensures var n := UpdateBook(db, who, id, d, partial, policy).db;
      Valid(n) && RatingsCurrent(n) && Unique(n.reactions)
  {
    var n := UpdateBook(db, who, id, d, partial, policy).db;
    SameIdsSameBookIds(n.books, db.books);
  }

  /** DELETE /book/<id>/: an unknown id is not found; then the policy decides on the
      stored book; a successful delete removes the book and, by cascade, its reaction
      rows. */
  function DeleteBook(db: Db, who: Option<User>, id: BookId, policy: Policy): (r: Reply)
    ensures r.error.Some? ==> r.db == db
    ensures r.error == Some(NotFound) <==> id !in BookIds(db.books)
    ensures id in BookIds(db.books) ==>
      (r.error == Some(Denied) <==> !policy(who, Destroy, Some(db.books[IndexOf(db.books, id)])))
    ensures r.error.None? ==>
      && id in BookIds(db.books) && |r.db.books| + 1 == |db.books|
      && r.db.users == db.users && r.db.nextBookId == db.nextBookId
      && forall x :: x in r.db.reactions <==> x in db.reactions && x.book != id
    ensures r.error.None? ==>
      r.db.books == db.books[..IndexOf(db.books, id)] + db.books[IndexOf(db.books, id) + 1..]
    ensures r.error.None? ==> r.db.reactions == WithoutBook(db.reactions, id)
  {
    var i := IndexOf(db.books, id);
    if i < 0 then Reply(db, Some(NotFound))
    else if !policy(who, Destroy, Some(db.books[i])) then Reply(db, Some(Denied))
    else Reply(db.(books := db.books[..i] + db.books[i + 1..], reactions := WithoutBook(db.reactions, id)), None)
  }

  /** With increasing ids a successful delete takes exactly the deleted id away, and
      the ids stay increasing. */
  lemma DeleteRemovesId(db: Db, who: Option<User>, id: BookId, policy: Policy)
    requires IdsIncreasing(db.books) && DeleteBook(db, who, id, policy).error.None?
    ensures var n := DeleteBook(db, who, id, policy).db;
      IdsIncreasing(n.books) && BookIds(n.books) == BookIds(db.books) - {id}
  {
    RemoveBook(db.books, IndexOf(db.books, id));
  }

  /** A delete the tested cases deny (a non-owner who is not staff) is refused and
      changes nothing, under any agreeing policy. */
  lemma DeniedDeleteChangesNothing(db: Db, who: Option<User>, id: BookId, policy: Policy)
    requires Agrees(policy) && id in BookIds(db.books)
    requires Pinned(who, Destroy, Some(db.books[IndexOf(db.books, id)])) == Deny
    ensures DeleteBook(db, who, id, policy) == Reply(db, Some(Denied))
  {
    var b := Some(db.books[IndexOf(db.books, id)]);
    assert Consistent(policy(who, Destroy, b), Pinned(who, Destroy, b));
  }

  lemma {:induction false} PairCountWithoutBook(rs: seq<Reaction>, x: BookId, u: UserId, b: BookId)
    ensures PairCount(WithoutBook(rs, x), u, b) <= PairCount(rs, u, b)
  {
    if rs != [] {
      var init := rs[..|rs| - 1];
      var last := rs[|rs| - 1];
      PairCountWithoutBook(init, x, u, b);
      assert PairCount(rs, u, b) == PairCount(init, u, b) + (if IsPair(last, u, b) then 1 else 0);
      if last.book != x {
        assert WithoutBook(rs, x) == WithoutBook(init, x) + [last];
        PairCountAppend(WithoutBook(init, x), last, u, b);
      } else {
        assert WithoutBook(rs, x) == WithoutBook(init, x);
      }
    }
  }

  lemma {:induction false} PairCountWithoutUser(rs: seq<Reaction>, x: UserId, u: UserId, b: BookId)
    ensures PairCount(WithoutUser(rs, x), u, b) <= PairCount(rs, u, b)
  {
    if rs != [] {
      var init := rs[..|rs| - 1];
      var last := rs[|rs| - 1];
      PairCountWithoutUser(init, x, u, b);
      assert PairCount(rs, u, b) == PairCount(init, u, b) + (if IsPair(last, u, b) then 1 else 0);
      if last.user != x {
        assert WithoutUser(rs, x) == WithoutUser(init, x) + [last];
        PairCountAppend(WithoutUser(init, x), last, u, b);
      } else {
        assert WithoutUser(rs, x) == WithoutUser(init, x);
      }
    }
  }

  /** Removing the book at `i` keeps ids increasing and takes exactly its id away. */
  lemma RemoveBook(books: seq<Book>, i: nat)
    requires IdsIncreasing(books) && i < |books|
    ensures IdsIncreasing(books[..i] + books[i + 1..])
    ensures BookIds(books[..i] + books[i + 1..]) == BookIds(books) - {books[i].id}
  {
    var rest := books[..i] + books[i + 1..];
    assert forall k :: 0 <= k < |rest| ==> rest[k] == books[if k < i then k else k + 1];
    forall id | id in BookIds(books) - {books[i].id} ensures id in BookIds(rest) {
      var k :| 0 <= k < |books| && books[k].id == id;
      assert rest[if k < i then k else k - 1].id == id;
    }
  }

  /** Deleting a book keeps the tables valid, every rating current (the other books'
      rows are untouched) and the rows unique. */
  lemma DeleteKeepsInvariants(db: Db, who: Option<User>, id: BookId, policy: Policy)
    requires Valid(db) && RatingsCurrent(db) && Unique(db.reactions)
    ensures var n := DeleteBook(db, who, id, policy).db;
      Valid(n) && RatingsCurrent(n) && Unique(n.reactions)
  {
    var r := DeleteBook(db, who, id, policy);
    if r.error.None? {
      var n := r.db;
      var i := IndexOf(db.books, id);
      RemoveBook(db.books, i);
      assert n.books == db.books[..i] + db.books[i + 1..];
      forall k | 0 <= k < |n.books|
        ensures n.books[k].id < n.nextBookId && n.books[k].rating == MeanRate(n.reactions, n.books[k].id)
      {
        var j := if k < i then k else k + 1;
        assert n.books[k] == db.books[j];
        OfBookWithoutOtherBook(db.reactions, id, n.books[k].id);
        SameRowsSameMean(n.reactions, db.reactions, n.books[k].id);
      }
      forall x | x in n.reactions ensures PairCount(n.reactions, x.user, x.book) <= 1 {
        PairCountWithoutBook(db.reactions, id, x.user, x.book);
      }
    }
  }

  // ---------------------------------------------------------------------------
  // Deleting a user

  /** The book with the owner cleared when it is `u`. */
  function Disown(b: Book, u: UserId): (c: Book)
    ensures c.owner != Some(u) && c == b.(owner := c.owner)
    ensures b.owner != Some(u) ==> c == b
    ensures b.owner == Some(u) ==> c.owner.None?
  {
    if b.owner == Some(u) then b.(owner := None) else b
  }

  /** Deleting user `u`: their books stay, without owner (SET_NULL), and their reaction
      rows go (CASCADE). A cascade does not save, so no rating is recomputed. */
  function DeleteUser(db: Db, u: UserId): (d: Db)
    ensures d.users == db.users - {u} && d.nextBookId == db.nextBookId
    ensures |d.books| == |db.books|
    ensures forall k :: 0 <= k < |db.books| ==>
      && d.books[k] == db.books[k].(owner := d.books[k].owner)
      && d.books[k].owner != Some(u)
      && (db.books[k].owner != Some(u) ==> d.books[k].owner == db.books[k].owner)
    ensures forall x :: x in d.reactions <==> x in db.reactions && x.user != u
    ensures d.reactions == WithoutUser(db.reactions, u)
  {
    Db(db.users - {u},
       seq(|db.books|, k requires 0 <= k < |db.books| => Disown(db.books[k], u)),
       WithoutUser(db.reactions, u),
       db.nextBookId)
  }

  /** The cascade does not save, so a deleted user's rate stays in the book's rating:
      one rated row, then the user goes, and the rating is no longer current. */
  lemma DeleteUserLeavesStaleRating()
    ensures var db := Db(map[1 := User(1, "reader", "", "", false)],
                         [Book(1, "Путешествия", 2500, "Макс", false, None, Some(Mean(5, 1)))],
                         [Reaction(1, 1, false, false, Some(5))],
                         2);
      RatingsCurrent(db) && !RatingsCurrent(DeleteUser(db, 1))
  {
    var r := Reaction(1, 1, false, false, Some(5));
    MeanRateAppend([], r, 1);
    assert [r] == [] + [r];
    var db := Db(map[1 := User(1, "reader", "", "", false)],
                 [Book(1, "Путешествия", 2500, "Макс", false, None, Some(Mean(5, 1)))],
                 [r],
                 2);
    var d := DeleteUser(db, 1);
    assert d.reactions == [] by {
      assert [r][..0] == [];
    }
    assert d.books[0] == db.books[0];
    assert MeanRate([], 1).None?;
  }

  /** Deleting a user keeps the tables valid and the rows unique. */
  lemma DeleteUserKeepsValid(db: Db, u: UserId)
    requires Valid(db) && Unique(db.reactions)
    ensures Valid(DeleteUser(db, u)) && Unique(DeleteUser(db, u).reactions)
  {
    var d := DeleteUser(db, u);
    SameIdsSameBookIds(d.books, db.books);
    forall x | x in d.reactions ensures PairCount(d.reactions, x.user, x.book) <= 1 {
      PairCountWithoutUser(db.reactions, u, x.user, x.book);
    }
  }

  /** With every rating current, each listed book's live `rate` annotation is its
      stored `rating`, so the two fields show the same text. */
  lemma ListedRateIsRating(db: Db, q: Listing.Query, x: Listing.Row)
    requires RatingsCurrent(db) && x in Listing.List(db.books, db.reactions, q)
    ensures x.rate == x.book.rating
  {
    Listing.ListedExactly(db.books, db.reactions, q, x);
  }

  // ---------------------------------------------------------------------------
  // The serializers as written: `rating` and the reaction's `book` are writable

  /** As written, a rating sent with a create is stored, though the new book has no
      reactions: its rating no longer follows them. */
  lemma SentRatingOnCreateIsStale(db: Db, u: UserId, d: BookData, h: nat)
    requires Valid(db) && d.name.Some? && d.price.Some? && d.rating == Some(Some(h))
    ensures !RatingsCurrent(db.(books := db.books + [NewBookAsWritten(db.nextBookId, u, d)]))
  {
    FreshIdHasNoRating(db);
    var n := db.books + [NewBookAsWritten(db.nextBookId, u, d)];
    assert n[|db.books|].rating.Some?;
  }

  /** As written, a rating sent with an update overwrites the derived one: a book
      without rated reactions ends up with a rating. */
  lemma SentRatingOnUpdateIsStale(db: Db, i: nat, d: BookData, h: nat)
    requires i < |db.books| && MeanRate(db.reactions, db.books[i].id).None? && d.rating == Some(Some(h))
    ensures !RatingsCurrent(db.(books := db.books[i := ApplyDataAsWritten(db.books[i], d)]))
  {
    var n := db.books[i := ApplyDataAsWritten(db.books[i], d)];
    assert n[i].rating.Some? && n[i].id == db.books[i].id;
  }

  /** Two books of user 1; the user rated book 1 with 5 and has an unrated reaction
      to book 2. */
  function MoveExample(): Db {
    Db(map[1 := User(1, "test_user", "", "", false)],
       [Book(1, "Путешествия", 2500, "Макс", false, Some(1), Some(Mean(5, 1))),
        Book(2, "Встреча", 5500, "Катя", false, Some(1), None)],
       [Reaction(1, 1, false, false, Some(5)), Reaction(1, 2, false, false, None)],
       3)
  }

  /** The move: PATCH /book_relation/1/ with {"book": 2}. */
  function MovePatch(): ReactionPatch {
    ReactionPatch(Some(2), None, None, None)
  }

  /** The example tables are valid. */
  lemma MoveExampleValid()
    ensures Valid(MoveExample())
  {
    var db := MoveExample();
    assert db.books[0].id == 1 && db.books[1].id == 2;
    assert 1 in BookIds(db.books) && 2 in BookIds(db.books);
  }

  /** The example's ratings are current: book 1 has the mean 5, book 2 none. */
  lemma MoveExampleCurrent()
    ensures RatingsCurrent(MoveExample())
  {
    var db := MoveExample();
    var r0 := Reaction(1, 1, false, false, Some(5));
    var r1 := Reaction(1, 2, false, false, None);
    assert db.reactions == [r0] + [r1] && [r0] == [] + [r0];
    assert MeanRate(db.reactions, 1) == Some(Mean(5, 1)) by {
      MeanRateAppend([], r0, 1);
      MeanRateAppend([r0], r1, 1);
    }
    assert MeanRate(db.reactions, 2) == None by {
      MeanRateAppend([], r0, 2);
      MeanRateAppend([r0], r1, 2);
    }
    assert db.books[0].id == 1 && db.books[1].id == 2;
  }

  /** Each of the example's pairs has one row. */
  lemma MoveExamplePairs()
    ensures PairCount(MoveExample().reactions, 1, 1) == 1 && PairCount(MoveExample().reactions, 1, 2) == 1
  {
    var rs := MoveExample().reactions;
    assert rs[..1] == [rs[0]] && rs[..1][..0] == [];
  }

  /** The example is a state the corrected model can reach: valid, current and unique,
      the lookup of (1, 1) finds row 0, and the move patch passes validation. */
  lemma MoveExampleSound()
    ensures var db := MoveExample();
      && Valid(db) && RatingsCurrent(db) && Unique(db.reactions)
      && GetOrCreate(db, 1, 1) == Ok(Got(db, 0, false)) && ValidReactionPatch(db, MovePatch())
  {
    var db := MoveExample();
    MoveExampleValid();
    MoveExampleCurrent();
    MoveExamplePairs();
    FoundOnce(db, 1, 1);
  }

  /** As written, moving a rated reaction to another book recomputes only the new
      book: the old one keeps the rate it no longer has. */
  lemma MovedReactionLeavesStaleRating()
    ensures var db := MoveExample();
      !RatingsCurrent(SaveAt(db, 0, ApplyReactionPatchAsWritten(db.reactions[0], MovePatch())))
  {
    var db := MoveExample();
    var moved := ApplyReactionPatchAsWritten(db.reactions[0], MovePatch());
    var rs := db.reactions[0 := moved];
    var d := SaveAt(db, 0, moved);
    assert db.books[0].id != 2;
    assert d.books[0].rating == Some(Mean(5, 1));
    assert rs[..1] == [moved] && rs[..1][..0] == [];
    MeanRateAppend([], moved, 1);
    MeanRateAppend(rs[..1], rs[1], 1);
    assert MeanRate(rs, 1).None?;
  }

  /** As written, moving a reaction onto a book the user already reacted to gives the
      pair two rows, and every later lookup of that pair fails. */
  lemma MovedReactionDuplicatesPair()
    ensures var db := MoveExample();
      var d := SaveAt(db, 0, ApplyReactionPatchAsWritten(db.reactions[0], MovePatch()));
      !Unique(d.reactions) && GetOrCreate(d, 1, 2) == Err(MultipleObjectsReturned)
  {
    var db := MoveExample();
    var moved := ApplyReactionPatchAsWritten(db.reactions[0], MovePatch());
    var rs := db.reactions[0 := moved];
    assert rs[..1] == [moved] && rs[..1][..0] == [];
    assert PairCount(rs, 1, 2) == 2;
    assert rs[0] in rs;
  }

  // ---------------------------------------------------------------------------
  // The reaction API examples

  /** Two users and two books without reactions. */
  function ReactionApiDb(): Db {
    Db(map[1 := User(1, "test_user", "", "", false), 2 := User(2, "test_user2", "", "", false)],
       [Book(1, "Путешествия", 2500, "Макс", false, Some(1), None),
        Book(2, "Встреча", 5500, "Катя", false, None, None)],
       [],
       3)
  }

  /** PATCH {"like": true} on book 2 by user 1 creates the row and sets its like. */
  lemma PatchLikeExample()
    ensures var r := PatchReaction(ReactionApiDb(), Some(User(1, "test_user", "", "", false)), 2, ReactionPatch(None, Some(true), None, None));
      r.error.None? && r.db.reactions == [Reaction(1, 2, true, false, None)]
  {
    var db := ReactionApiDb();
    var p := ReactionPatch(None, Some(true), None, None);
    CreatedRowOfApiDb();
    var g1 := SaveNew(db, NewReaction(1, 2));
    assert g1.reactions == [NewReaction(1, 2)];
    assert ValidReactionPatch(g1, p);
    var row := Reaction(1, 2, true, false, None);
    assert ApplyReactionPatch(g1.reactions[0], p) == row;
    assert SaveAt(g1, 0, row).reactions == [row];
  }

  /** The first lookup of user 1's reaction to book 2 creates the row. */
  lemma CreatedRowOfApiDb()
    ensures GetOrCreate(ReactionApiDb(), 1, 2) == Ok(Got(SaveNew(ReactionApiDb(), NewReaction(1, 2)), 0, true))
  {
    assert IndexOf(ReactionApiDb().books, 2) == 1;
  }

  /** PATCH {"rate": 3} on book 2 by user 1 creates the row, sets its rate, and the
      book's rating becomes 3. */
  lemma PatchRateExample()
    ensures var r := PatchReaction(ReactionApiDb(), Some(User(1, "test_user", "", "", false)), 2, ReactionPatch(None, None, None, Some(Some(3))));
      r.error.None? && r.db.reactions == [Reaction(1, 2, false, false, Some(3))] && r.db.books[1].rating == Some(Mean(3, 1))
  {
    var p := ReactionPatch(None, None, None, Some(Some(3)));
    CreatedRowOfApiDb();
    var g1 := SaveNew(ReactionApiDb(), NewReaction(1, 2));
    assert ValidReactionPatch(g1, p) && g1.reactions == [NewReaction(1, 2)] by {
      assert IndexOf(g1.books, 2) == 1;
    }
    var row := Reaction(1, 2, false, false, Some(3));
    assert ApplyReactionPatch(g1.reactions[0], p) == row;
    assert IdsIncreasing(g1.books) && |g1.books| == 2 && g1.books[1].id == 2;
    RateOfOnlyRow(g1, row, 1);
  }

  /** Saving a table's only row with a rate makes that rate its book's rating. */
  lemma RateOfOnlyRow(db: Db, row: Reaction, k: nat)
    requires |db.reactions| == 1 && IdsIncreasing(db.books) && k < |db.books| && db.books[k].id == row.book
    requires row.rate.Some?
    ensures SaveAt(db, 0, row).reactions == [row]
    ensures SaveAt(db, 0, row).books[k].rating == Some(Mean(row.rate.value, 1))
  {
    var d := SaveAt(db, 0, row);
    assert d.reactions == [row] && [row] == [] + [row];
    MeanRateAppend([], row, row.book);
  }

  // ---------------------------------------------------------------------------
  // The tables, changed in place

  /** The catalogue's tables as the views and the model code change them. Each method
      performs one operation above on the fields. */
  class Catalogue {
    var users: map<UserId, User>
    var books: seq<Book>
    var reactions: seq<Reaction>
    var nextBookId: BookId

    function State(): Db
      reads this
    {
      Db(users, books, reactions, nextBookId)
    }

    /** Valid tables, every rating current, one row per (user, book). */
    predicate Invariant()
      reads this
    {
      Valid(State()) && RatingsCurrent(State()) && Unique(reactions)
    }

    /** An empty catalogue over some users; book ids start at 1. */
    constructor (users: map<UserId, User>)
      ensures State() == Db(users, [], [], 1) && Invariant()
    {
      this.users := users;
      books := [];
      reactions := [];
      nextBookId := 1;
    }

    /** `calculate_rating(book)`: aggregate the book's rates and store the mean. */
    method CalculateRating(id: BookId)
      modifies this
      ensures State() == Recalc(old(State()), id)
    {
      var i := IndexOf(books, id);
      if i >= 0 {
        var rating := MeanRate(reactions, id);
        books := books[i := books[i].(rating := rating)];
      }
    }

    /** `UserBookRelationship.save` of a new row: insert it, then recompute its book. */
    method SaveNewReaction(r: Reaction)
      modifies this
      ensures State() == SaveNew(old(State()), r)
      ensures old(Valid(State()) && RatingsCurrent(State())) && r.user in old(users) && r.book in BookIds(old(books)) ==>
        Valid(State()) && RatingsCurrent(State())
    {
      ghost var before := State();
      reactions := reactions + [r];
      CalculateRating(r.book);
      if Valid(before) && RatingsCurrent(before) && r.user in before.users && r.book in BookIds(before.books) {
        SaveNewKeepsValid(before, r);
        SaveNewKeepsRatingsCurrent(before, r);
      }
    }

    /** `UserBookRelationship.save` of the stored row at `i`: overwrite it, then
        recompute the book the row now names. */
    method SaveReactionAt(i: nat, r: Reaction)
      requires i < |reactions|
      modifies this
      ensures State() == SaveAt(old(State()), i, r)
    {
      reactions := reactions[i := r];
      CalculateRating(r.book);
    }

    /** `get_or_create(user=u, book_id=b)` on the reaction rows. */
    method GetOrCreateReaction(u: UserId, b: BookId) returns (found: Result<nat>, created: bool)
      modifies this
      ensures var g := GetOrCreate(old(State()), u, b);
        && (g.Err? ==> found == Err(g.error) && State() == old(State()))
        && (g.Ok? ==> found == Ok(g.value.index) && created == g.value.created && State() == g.value.db)
    {
      var n := PairCount(reactions, u, b);
      if n >= 2 {
        return Err(MultipleObjectsReturned), false;
      }
      if n == 1 {
        return Ok(PairIndex(reactions, u, b)), false;
      }
      if IndexOf(books, b) < 0 {
        return Err(NoSuchBook), false;
      }
      SaveNewReaction(NewReaction(u, b));
      return Ok(|reactions| - 1), true;
    }

    /** The reaction endpoint's partial update: look the row up (creating it), validate,
        write the sent fields and save. */
    method UpdateReaction(who: Option<User>, b: BookId, p: ReactionPatch) returns (err: Option<Error>)
      modifies this
      ensures var r := PatchReaction(old(State()), who, b, p); State() == r.db && err == r.error
      ensures old(Invariant()) && (who.Some? ==> who.value.id in old(users)) ==> Invariant()
    {
      ghost var before := State();
      if who.None? {
        return Some(Denied);
      }
      var found, created := GetOrCreateReaction(who.value.id, b);
      if found.Err? {
        err := Some(found.error);
      } else if !ValidReactionPatch(State(), p) {
        err := Some(Invalid);
      } else {
        var i := found.value;
        SaveReactionAt(i, ApplyReactionPatch(reactions[i], p));
        err := None;
      }
      if Valid(before) && RatingsCurrent(before) && Unique(before.reactions) && who.value.id in before.users {
        PatchKeepsInvariants(before, who, b, p);
      }
    }

    /** `perform_create` behind the create request: the book is saved, owned by the
        requester, only for an authenticated user. */
    method PerformCreate(who: Option<User>, d: BookData, policy: Policy) returns (err: Option<Error>)
      modifies this
      ensures var r := CreateBook(old(State()), who, d, policy); State() == r.db && err == r.error
      ensures old(Invariant()) && (who.Some? ==> who.value.id in old(users)) ==> Invariant()
    {
      ghost var before := State();
      if !policy(who, Create, None) {
        return Some(Denied);
      }
      if !ValidBookData(d, false) {
        return Some(Invalid);
      }
      if who.Some? {
        var b := NewBook(nextBookId, who.value.id, d);
        books := books + [b];
        nextBookId := nextBookId + 1;
      }
      err := None;
      if Valid(before) && RatingsCurrent(before) && Unique(before.reactions) && (who.Some? ==> who.value.id in before.users) {
        CreateKeepsInvariants(before, who, d, policy);
      }
    }

    /** The update request on book `id`. */
    method PerformUpdate(who: Option<User>, id: BookId, d: BookData, partial: bool, policy: Policy) returns (err: Option<Error>)
      modifies this
      ensures var r := UpdateBook(old(State()), who, id, d, partial, policy); State() == r.db && err == r.error
      ensures old(Invariant()) ==> Invariant()
    {
      ghost var before := State();
      var i := IndexOf(books, id);
      if i < 0 {
        return Some(NotFound);
      }
      if !policy(who, Update, Some(books[i])) {
        return Some(Denied);
      }
      if !ValidBookData(d, partial) {
        return Some(Invalid);
      }
      books := books[i := ApplyData(books[i], d)];
      err := None;
      if Valid(before) && RatingsCurrent(before) && Unique(before.reactions) {
        UpdateKeepsInvariants(before, who, id, d, partial, policy);
      }
    }

    /** The delete request on book `id`: the book goes, and its reaction rows with it. */
    method PerformDestroy(who: Option<User>, id: BookId, policy: Policy) returns (err: Option<Error>)
      modifies this
      ensures var r := DeleteBook(old(State()), who, id, policy); State() == r.db && err == r.error
      ensures old(Invariant()) ==> Invariant()
    {
      ghost var before := State();
      var i := IndexOf(books, id);
      if i < 0 {
        return Some(NotFound);
      }
      if !policy(who, Destroy, Some(books[i])) {
        return Some(Denied);
      }
      books := books[..i] + books[i + 1..];
      reactions := WithoutBook(reactions, id);
      err := None;
      if Valid(before) && RatingsCurrent(before) && Unique(before.reactions) {
        DeleteKeepsInvariants(before, who, id, policy);
      }
    }

    /** Deleting user `u`: clear the owner of each of their books in turn, drop their
        reaction rows, then the user. */
    method RemoveUser(u: UserId)
      modifies this
      ensures State() == DeleteUser(old(State()), u)
      ensures old(Valid(State()) && Unique(reactions)) ==> Valid(State()) && Unique(reactions)
    {
      ghost var before := State();
      var k := 0;
      while k < |books|
        invariant 0 <= k <= |books| == |before.books|
        invariant forall j :: 0 <= j < k ==> books[j] == Disown(before.books[j], u)
        invariant forall j :: k <= j < |books| ==> books[j] == before.books[j]
        invariant users == before.users && reactions == before.reactions && nextBookId == before.nextBookId
      {
        if books[k].owner == Some(u) {
          books := books[k := books[k].(owner := None)];
        }
        k := k + 1;
      }
      reactions := WithoutUser(reactions, u);
      users := users - {u};
      assert books == DeleteUser(before, u).books;
      if Valid(before) && Unique(before.reactions) {
        DeleteUserKeepsValid(before, u);
      }
    }
  }
}
