/** The records of the book catalogue (store/models.py): books, users and the
    per-(user, book) reactions, with the field domains and defaults of the schema. */
module Domain {

  datatype Option<+T> = None | Some(value: T) {
    function GetOr(default: T): T {
      match this
      case Some(v) => v
      case None => default
    }
  }

  type UserId = nat
  type BookId = nat

  /** A reaction's rate: one of the five choices, 1 ("OK") to 5 ("Incredible"). */
  type Rate = x: int | 1 <= x <= 5 witness 1

  /** A positive count. */
  type Positive = n: nat | n > 0 witness 1

  /** The exact mean of `count` rates whose sum is `total`. */
  datatype Mean = Mean(total: nat, count: Positive)

  /** The user records the catalogue refers to (the authentication user table). */
  datatype User = User(id: UserId, username: string, firstName: string, lastName: string, isStaff: bool)

  /** A book. `price` is in hundredths (a decimal with two places); `rating` is the
      derived mean of its reactions' rates, absent when there is none. */
  datatype Book = Book(
    id: BookId,
    name: string,
    price: int,
    authorName: string,
    isPublished: bool,
    owner: Option<UserId>,
    rating: Option<Mean>)

  /** One user's reaction to one book. */
  datatype Reaction = Reaction(user: UserId, book: BookId, like: bool, inBookmarks: bool, rate: Option<Rate>)

  const NameMaxLength := 255
  /** `price` has at most 7 digits, 2 of them after the point. */
  const PriceBound := 10_000_000
  /** `rating` has at most 3 digits, 2 of them after the point. */
  const RatingBound := 1_000

  /** A price in hundredths that the price column can hold. */
  predicate PriceFits(hundredths: int) {
    -PriceBound < hundredths < PriceBound
  }

  /** A rating in hundredths that the rating column can hold. */
  predicate RatingFits(hundredths: int) {
    -RatingBound < hundredths < RatingBound
  }

  /** The row a reaction starts as: no like, no bookmark, no rate. */
  function NewReaction(user: UserId, book: BookId): (r: Reaction)
    ensures r.user == user && r.book == book
    ensures !r.like && !r.inBookmarks && r.rate.None?
  {
    Reaction(user, book, false, false, None)
  }
}
