/** The rating rule of store/logic.py: a book's rating is the mean of the rates
    its reactions carry, reactions without a rate left out, and absent when no
    reaction of that book carries a rate. */
module Rating {
  import opened Domain
  import opened Decimals

  /** The rows of `rs` that react to book `id`, in row order. */
  function OfBook(rs: seq<Reaction>, id: BookId): (mine: seq<Reaction>)
    ensures |mine| <= |rs|
    ensures forall r :: r in mine <==> r in rs && r.book == id
  {
    if rs == [] then []
    else OfBook(rs[..|rs| - 1], id) + (if rs[|rs| - 1].book == id then [rs[|rs| - 1]] else [])
  }

  /** Each row of book `id` is kept as often as it occurs in the table, and no other
      row is kept. */
  lemma {:induction false} OfBookCounts(rs: seq<Reaction>, id: BookId)
    ensures forall r :: multiset(OfBook(rs, id))[r] == (if r.book == id then multiset(rs)[r] else 0)
  {
    if rs != [] {
      OfBookCounts(rs[..|rs| - 1], id);
      assert rs == rs[..|rs| - 1] + [rs[|rs| - 1]];
    }
  }

  /** The rates given to book `id`, in row order; rows without a rate contribute nothing. */
  function RatesOf(rs: seq<Reaction>, id: BookId): (rates: seq<Rate>)
    ensures |rates| <= |rs|
  {
    if rs == [] then []
    else
      var r := rs[|rs| - 1];
      RatesOf(rs[..|rs| - 1], id) + (if r.book == id && r.rate.Some? then [r.rate.value] else [])
  }

  /** The sum of some rates; each lies in 1..5, so the sum lies between |rates| and 5 |rates|. */
  function Sum(rates: seq<Rate>): (total: nat)
    ensures |rates| <= total <= 5 * |rates|
  {
    if rates == [] then 0 else Sum(rates[..|rates| - 1]) + rates[|rates| - 1]
  }

  /** The mean rate of book `id` over the reactions `rs`, as the aggregate query
      computes it (an SQL average ignores nulls and is null over no values).
      Every rate lies in 1..5, so a present mean total/count lies in [1, 5]. */
  function MeanRate(rs: seq<Reaction>, id: BookId): (m: Option<Mean>)
    ensures m.Some? ==> m.value.count <= m.value.total <= 5 * m.value.count
  {
    var rates := RatesOf(rs, id);
    if rates == [] then None else Some(Mean(Sum(rates), |rates|))
  }

  /** The rating is absent exactly when no reaction of the book carries a rate:
      a book without rated reactions gets no rating, not a rating of zero. */
  lemma {:induction false} NoMeanIffNoRate(rs: seq<Reaction>, id: BookId)
    ensures MeanRate(rs, id).None? <==> forall i :: 0 <= i < |rs| && rs[i].book == id ==> rs[i].rate.None?
  {
    if rs != [] {
      var init := rs[..|rs| - 1];
      NoMeanIffNoRate(init, id);
      assert forall i :: 0 <= i < |init| ==> init[i] == rs[i];
    }
  }

  /** A mean extended by one more rate. */
  function AddRate(m: Option<Mean>, v: Rate): Mean {
    match m
    case None => Mean(v, 1)
    case Some(prev) => Mean(prev.total + v, prev.count + 1)
  }

  /** Storing one more row changes the rating of book `id` only when the row is
      about that book and carries a rate; a row without a rate counts as nothing,
      not as zero, and a row of another book does not count at all. */
  lemma MeanRateAppend(rs: seq<Reaction>, r: Reaction, id: BookId)
    ensures MeanRate(rs + [r], id) ==
      if r.book == id && r.rate.Some? then Some(AddRate(MeanRate(rs, id), r.rate.value))
      else MeanRate(rs, id)
  {
    var rs' := rs + [r];
    assert rs'[..|rs'| - 1] == rs;
    var rates := RatesOf(rs, id);
    if r.book == id && r.rate.Some? {
      var v := r.rate.value;
      var rates' := rates + [v];
      assert RatesOf(rs', id) == rates';
      assert rates'[..|rates'| - 1] == rates;
      assert Sum(rates') == Sum(rates) + v;
      if rates == [] {
        assert MeanRate(rs', id) == Some(Mean(v, 1));
      } else {
        assert MeanRate(rs', id) == Some(Mean(Sum(rates) + v, |rates| + 1));
      }
    } else {
      assert RatesOf(rs', id) == rates;
    }
  }

  /** A row with the defaults carries no rate, so storing it changes no book's mean. */
  lemma DefaultRowKeepsMeans(rs: seq<Reaction>, u: UserId, b: BookId, id: BookId)
    ensures MeanRate(rs + [NewReaction(u, b)], id) == MeanRate(rs, id)
  {
    MeanRateAppend(rs, NewReaction(u, b), id);
  }

  lemma {:induction false} RatesOfOwnRows(rs: seq<Reaction>, id: BookId)
    ensures RatesOf(OfBook(rs, id), id) == RatesOf(rs, id)
  {
    if rs != [] {
      var init := rs[..|rs| - 1];
      var r := rs[|rs| - 1];
      RatesOfOwnRows(init, id);
      if r.book == id {
        var mine := OfBook(init, id) + [r];
        assert mine[..|mine| - 1] == OfBook(init, id);
      } else {
        assert OfBook(rs, id) == OfBook(init, id);
      }
    }
  }

  /** The rating of a book depends on that book's rows and nothing else: two
      tables with the same rows for the book give it the same rating. */
  lemma SameRowsSameMean(rs1: seq<Reaction>, rs2: seq<Reaction>, id: BookId)
    requires OfBook(rs1, id) == OfBook(rs2, id)
    ensures MeanRate(rs1, id) == MeanRate(rs2, id)
  {
    RatesOfOwnRows(rs1, id);
    RatesOfOwnRows(rs2, id);
  }

  /** Overwriting a row that neither was nor becomes a row of book `id` leaves the
      rows of `id` as they were. */
  lemma {:induction false} OfBookUpdateElsewhere(rs: seq<Reaction>, i: nat, r: Reaction, id: BookId)
    requires i < |rs| && rs[i].book != id && r.book != id
    ensures OfBook(rs[i := r], id) == OfBook(rs, id)
  {
    var rs' := rs[i := r];
    if i < |rs| - 1 {
      assert rs'[..|rs'| - 1] == rs[..|rs| - 1][i := r];
      OfBookUpdateElsewhere(rs[..|rs| - 1], i, r, id);
    } else {
      assert rs'[..|rs'| - 1] == rs[..|rs| - 1];
    }
  }

  /** The rows of `rs` that are not about book `b` (the rows a deleted book takes with it
      are the others). */
  function WithoutBook(rs: seq<Reaction>, b: BookId): (kept: seq<Reaction>)
    ensures |kept| <= |rs|
    ensures forall r :: r in kept <==> r in rs && r.book != b
  {
    if rs == [] then []
    else WithoutBook(rs[..|rs| - 1], b) + (if rs[|rs| - 1].book != b then [rs[|rs| - 1]] else [])
  }

  /** The rows of `rs` that are not by user `u`. */
  function WithoutUser(rs: seq<Reaction>, u: UserId): (kept: seq<Reaction>)
    ensures |kept| <= |rs|
    ensures forall r :: r in kept <==> r in rs && r.user != u
  {
    if rs == [] then []
    else WithoutUser(rs[..|rs| - 1], u) + (if rs[|rs| - 1].user != u then [rs[|rs| - 1]] else [])
  }

  /** A deleted book's rows go and every other row stays, as often as it occurs. */
  lemma {:induction false} WithoutBookCounts(rs: seq<Reaction>, b: BookId)
    ensures forall r :: multiset(WithoutBook(rs, b))[r] == (if r.book != b then multiset(rs)[r] else 0)
  {
    if rs != [] {
      WithoutBookCounts(rs[..|rs| - 1], b);
      assert rs == rs[..|rs| - 1] + [rs[|rs| - 1]];
    }
  }

  /** A deleted user's rows go and every other row stays, as often as it occurs. */
  lemma {:induction false} WithoutUserCounts(rs: seq<Reaction>, u: UserId)
    ensures forall r :: multiset(WithoutUser(rs, u))[r] == (if r.user != u then multiset(rs)[r] else 0)
  {
    if rs != [] {
      WithoutUserCounts(rs[..|rs| - 1], u);
      assert rs == rs[..|rs| - 1] + [rs[|rs| - 1]];
    }
  }

  /** Removing the rows of another book leaves the rows of book `id` as they were. */
  lemma {:induction false} OfBookWithoutOtherBook(rs: seq<Reaction>, b: BookId, id: BookId)
    requires b != id
    ensures OfBook(WithoutBook(rs, b), id) == OfBook(rs, id)
  {
    if rs != [] {
      var init := rs[..|rs| - 1];
      var r := rs[|rs| - 1];
      OfBookWithoutOtherBook(init, b, id);
      var kept0 := WithoutBook(init, b);
      if r.book != b {
        var kept := kept0 + [r];
        assert WithoutBook(rs, b) == kept;
        assert kept[..|kept| - 1] == kept0;
        assert OfBook(kept, id) == OfBook(kept0, id) + (if r.book == id then [r] else []);
      } else {
        assert WithoutBook(rs, b) == kept0;
        assert OfBook(rs, id) == OfBook(init, id);
      }
    }
  }

  /** The rendered rating of book `id` over `rs`, as the rating field shows it. */
  function ShownRating(rs: seq<Reaction>, id: BookId): (s: Option<string>)
    ensures s.None? <==> MeanRate(rs, id).None?
  {
    RenderMean(MeanRate(rs, id))
  }

  /** Rates 5, 5 and 4 give the rating 4.67. */
  lemma ShownRatingFiveFiveFour()
    ensures ShownRating([Reaction(1, 1, true, false, Some(5)),
                         Reaction(2, 1, true, false, Some(5)),
                         Reaction(3, 1, true, false, Some(4))], 1) == Some("4.67")
  {
    MeanFiveFiveFour();
    Renders467();
  }

  /** The serializer test's rows: rates 5, 4 and none give 4.50 (the missing rate
      is not counted as zero). */
  lemma ShownRatingFiveFourNone()
    ensures ShownRating([Reaction(1, 1, true, false, Some(5)),
                         Reaction(2, 1, true, false, Some(4)),
                         Reaction(3, 1, true, false, None)], 1) == Some("4.50")
  {
    MeanFiveFourNone();
    Renders450();
  }

  /** A further row with rate 1 gives 3.33. */
  lemma ShownRatingThenOne()
    ensures ShownRating([Reaction(1, 1, true, false, Some(5)),
                         Reaction(2, 1, true, false, Some(4)),
                         Reaction(3, 1, true, false, None),
                         Reaction(4, 1, true, false, Some(1))], 1) == Some("3.33")
  {
    MeanThenOne();
    Renders333();
  }

  /** Then the missing rate set to 5 gives 3.75. */
  lemma ShownRatingThenFive()
    ensures ShownRating([Reaction(1, 1, true, false, Some(5)),
                         Reaction(2, 1, true, false, Some(4)),
                         Reaction(3, 1, true, false, Some(5)),
                         Reaction(4, 1, true, false, Some(1))], 1) == Some("3.75")
  {
    MeanThenFive();
    Renders375();
  }

  /** The second book of the serializer test: rates 4, 3 and none give 3.50. */
  lemma ShownRatingFourThreeNone()
    ensures ShownRating([Reaction(1, 2, true, false, Some(4)),
                         Reaction(2, 2, true, false, Some(3)),
                         Reaction(3, 2, false, false, None)], 2) == Some("3.50")
  {
    MeanFourThreeNone();
    Renders350();
  }

  lemma MeanFiveFiveFour()
    ensures MeanRate([Reaction(1, 1, true, false, Some(5)),
                      Reaction(2, 1, true, false, Some(5)),
                      Reaction(3, 1, true, false, Some(4))], 1) == Some(Mean(14, 3))
  {
    var a := Reaction(1, 1, true, false, Some(5));
    var b := Reaction(2, 1, true, false, Some(5));
    var c := Reaction(3, 1, true, false, Some(4));
    assert MeanRate([a], 1) == Some(Mean(5, 1)) by {
      MeanRateAppend([], a, 1);
      assert [a] == [] + [a];
    }
    assert MeanRate([a, b], 1) == Some(Mean(10, 2)) by {
      MeanRateAppend([a], b, 1);
      assert [a, b] == [a] + [b];
    }
    assert MeanRate([a, b, c], 1) == Some(Mean(14, 3)) by {
      MeanRateAppend([a, b], c, 1);
      assert [a, b, c] == [a, b] + [c];
    }
  }

  lemma MeanFiveFourNone()
    ensures MeanRate([Reaction(1, 1, true, false, Some(5)),
                      Reaction(2, 1, true, false, Some(4)),
                      Reaction(3, 1, true, false, None)], 1) == Some(Mean(9, 2))
  {
    var a := Reaction(1, 1, true, false, Some(5));
    var b := Reaction(2, 1, true, false, Some(4));
    var c := Reaction(3, 1, true, false, None);
    assert MeanRate([a], 1) == Some(Mean(5, 1)) by {
      MeanRateAppend([], a, 1);
      assert [a] == [] + [a];
    }
    assert MeanRate([a, b], 1) == Some(Mean(9, 2)) by {
      MeanRateAppend([a], b, 1);
      assert [a, b] == [a] + [b];
    }
    assert MeanRate([a, b, c], 1) == Some(Mean(9, 2)) by {
      MeanRateAppend([a, b], c, 1);
      assert [a, b, c] == [a, b] + [c];
    }
  }

  lemma MeanThenOne()
    ensures MeanRate([Reaction(1, 1, true, false, Some(5)),
                      Reaction(2, 1, true, false, Some(4)),
                      Reaction(3, 1, true, false, None),
                      Reaction(4, 1, true, false, Some(1))], 1) == Some(Mean(10, 3))
  {
    var a := Reaction(1, 1, true, false, Some(5));
    var b := Reaction(2, 1, true, false, Some(4));
    var c := Reaction(3, 1, true, false, None);
    var d := Reaction(4, 1, true, false, Some(1));
    assert MeanRate([a], 1) == Some(Mean(5, 1)) by {
      MeanRateAppend([], a, 1);
      assert [a] == [] + [a];
    }
    assert MeanRate([a, b], 1) == Some(Mean(9, 2)) by {
      MeanRateAppend([a], b, 1);
      assert [a, b] == [a] + [b];
    }
    assert MeanRate([a, b, c], 1) == Some(Mean(9, 2)) by {
      MeanRateAppend([a, b], c, 1);
      assert [a, b, c] == [a, b] + [c];
    }
    assert MeanRate([a, b, c, d], 1) == Some(Mean(10, 3)) by {
      MeanRateAppend([a, b, c], d, 1);
      assert [a, b, c, d] == [a, b, c] + [d];
    }
  }

  lemma MeanThenFive()
    ensures MeanRate([Reaction(1, 1, true, false, Some(5)),
                      Reaction(2, 1, true, false, Some(4)),
                      Reaction(3, 1, true, false, Some(5)),
                      Reaction(4, 1, true, false, Some(1))], 1) == Some(Mean(15, 4))
  {
    var a := Reaction(1, 1, true, false, Some(5));
    var b := Reaction(2, 1, true, false, Some(4));
    var c := Reaction(3, 1, true, false, Some(5));
    var d := Reaction(4, 1, true, false, Some(1));
    assert MeanRate([a], 1) == Some(Mean(5, 1)) by {
      MeanRateAppend([], a, 1);
      assert [a] == [] + [a];
    }
    assert MeanRate([a, b], 1) == Some(Mean(9, 2)) by {
      MeanRateAppend([a], b, 1);
      assert [a, b] == [a] + [b];
    }
    assert MeanRate([a, b, c], 1) == Some(Mean(14, 3)) by {
      MeanRateAppend([a, b], c, 1);
      assert [a, b, c] == [a, b] + [c];
    }
    assert MeanRate([a, b, c, d], 1) == Some(Mean(15, 4)) by {
      MeanRateAppend([a, b, c], d, 1);
      assert [a, b, c, d] == [a, b, c] + [d];
    }
  }

  lemma MeanFourThreeNone()
    ensures MeanRate([Reaction(1, 2, true, false, Some(4)),
                      Reaction(2, 2, true, false, Some(3)),
                      Reaction(3, 2, false, false, None)], 2) == Some(Mean(7, 2))
  {
    var a := Reaction(1, 2, true, false, Some(4));
    var b := Reaction(2, 2, true, false, Some(3));
    var c := Reaction(3, 2, false, false, None);
    assert MeanRate([a], 2) == Some(Mean(4, 1)) by {
      MeanRateAppend([], a, 2);
      assert [a] == [] + [a];
    }
    assert MeanRate([a, b], 2) == Some(Mean(7, 2)) by {
      MeanRateAppend([a], b, 2);
      assert [a, b] == [a] + [b];
    }
    assert MeanRate([a, b, c], 2) == Some(Mean(7, 2)) by {
      MeanRateAppend([a, b], c, 2);
      assert [a, b, c] == [a, b] + [c];
    }
  }

  /** A mean of 14/3 rounds to 467 hundredths and shows as "4.67". */
  lemma Renders467()
    ensures RenderMean(Some(Mean(14, 3))) == Some("4.67")
  {
    assert Round2(Mean(14, 3)) == 467;
    assert Unsigned2(467) == "4.67" by {
      assert DigitChar(4) == '4' && DigitChar(6) == '6' && DigitChar(7) == '7';
    }
  }

  /** A mean of 9/2 rounds to 450 hundredths and shows as "4.50". */
  lemma Renders450()
    ensures RenderMean(Some(Mean(9, 2))) == Some("4.50")
  {
    assert Round2(Mean(9, 2)) == 450;
    assert Unsigned2(450) == "4.50" by {
      assert DigitChar(0) == '0' && DigitChar(4) == '4' && DigitChar(5) == '5';
    }
  }

  /** A mean of 10/3 rounds to 333 hundredths and shows as "3.33". */
  lemma Renders333()
    ensures RenderMean(Some(Mean(10, 3))) == Some("3.33")
  {
    assert Round2(Mean(10, 3)) == 333;
    assert Unsigned2(333) == "3.33" by {
      assert DigitChar(3) == '3';
    }
  }

  /** A mean of 15/4 rounds to 375 hundredths and shows as "3.75". */
  lemma Renders375()
    ensures RenderMean(Some(Mean(15, 4))) == Some("3.75")
  {
    assert Round2(Mean(15, 4)) == 375;
    assert Unsigned2(375) == "3.75" by {
      assert DigitChar(3) == '3' && DigitChar(5) == '5' && DigitChar(7) == '7';
    }
  }

  /** A mean of 7/2 rounds to 350 hundredths and shows as "3.50". */
  lemma Renders350()
    ensures RenderMean(Some(Mean(7, 2))) == Some("3.50")
  {
    assert Round2(Mean(7, 2)) == 350;
    assert Unsigned2(350) == "3.50" by {
      assert DigitChar(0) == '0' && DigitChar(3) == '3' && DigitChar(5) == '5';
    }
  }

  /** A single rate 4 shows as 4.00. */
  lemma ShownMeanOfFour()
    ensures RenderMean(Some(Mean(4, 1))) == Some("4.00")
  {
    assert Round2(Mean(4, 1)) == 400;
    assert Unsigned2(400) == "4.00" by {
      assert DigitChar(0) == '0' && DigitChar(4) == '4';
    }
  }
}
