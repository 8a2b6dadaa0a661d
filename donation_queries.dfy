/**
 * The per-creator donation queries: each query is a `where` filter over the
 * donation table followed by a `select` of the rows or of `sum(point)`.
 */
module DonationQueries {
  import opened Wrappers
  import opened DonationDomain
  import Time

  // ---- The predicates of the `where` clauses ----

  /** `donation.status.eq(WAITING_FOR_EXCHANGE)`: matches exactly the rows the exchanged predicate does not. */
  predicate WaitingForExchangeStatus(d: DonationRow)
    ensures WaitingForExchangeStatus(d) <==> !ExchangedStatus(d)
  {
    d.status == WaitingForExchange
  }

  /** `donation.status.eq(EXCHANGED)`. */
  predicate ExchangedStatus(d: DonationRow)
    ensures ExchangedStatus(d) ==> d.status != WaitingForExchange
  {
    d.status == Exchanged
  }

  /** `donation.creator.id.eq(creatorId)`: a donation without a creator never matches. */
  predicate DonationOwner(d: DonationRow, creatorId: MemberId)
    ensures d.creator.None? ==> !DonationOwner(d, creatorId)
    ensures DonationOwner(d, creatorId) ==> d.creator.value == creatorId
  {
    d.creator == Some(creatorId)
  }

  /** `createdAt < t`; a null `createdAt` compares to nothing. */
  predicate CreatedBefore(d: DonationRow, t: Time.LocalDateTime) {
    d.createdAt.Some? && Time.IsBefore(d.createdAt.value, t)
  }

  /** The request cutoff: day 1, 00:00 of the month after `exchangeOn`. */
  function RequestCutoff(exchangeOn: Time.YearMonth): (t: Time.LocalDateTime)
    requires exchangeOn.Valid()
    ensures t.Valid()
    ensures Time.MonthOf(t) == Time.PlusMonths(exchangeOn, 1)
    ensures forall u: Time.LocalDateTime ::
      u.Valid() && Time.MonthOf(u) == Time.PlusMonths(exchangeOn, 1) ==> !Time.IsBefore(u, t)
  {
    Time.StartOfMonth(Time.PlusMonths(exchangeOn, 1))
  }

  /**
   * `donation.createdAt.before(startOfNextMonth)`: a null timestamp never matches, and a
   * valid one matches exactly when it lies in `exchangeOn` or an earlier month.
   */
  predicate BeforeStartOfNextMonth(d: DonationRow, exchangeOn: Time.YearMonth)
    requires exchangeOn.Valid()
    ensures BeforeStartOfNextMonth(d, exchangeOn) ==> d.createdAt.Some?
    ensures d.createdAt.Some? && d.createdAt.value.Valid() ==>
      (BeforeStartOfNextMonth(d, exchangeOn) <==>
       Time.ProlepticMonth(Time.MonthOf(d.createdAt.value)) <= Time.ProlepticMonth(exchangeOn))
  {
    // Both arms compute the same comparison; the first also brings the month lemma into scope.
    if d.createdAt.Some? && d.createdAt.value.Valid() then
      Time.BeforeStartOfMonthIffEarlierMonth(d.createdAt.value, Time.PlusMonths(exchangeOn, 1));
      CreatedBefore(d, RequestCutoff(exchangeOn))
    else
      CreatedBefore(d, RequestCutoff(exchangeOn))
  }

  // ---- Relational operators ----

  /** The rows satisfying `p`, in table order. */
  function Where(ds: seq<DonationRow>, p: DonationRow -> bool): (r: seq<DonationRow>)
    ensures |r| <= |ds|
    ensures forall d :: d in r <==> d in ds && p(d)
    ensures forall d :: multiset(r)[d] == if p(d) then multiset(ds)[d] else 0
  {
    if ds == [] then []
    else
      assert ds == [ds[0]] + ds[1..];
      if p(ds[0]) then [ds[0]] + Where(ds[1..], p)
      else Where(ds[1..], p)
  }

  /** Reference sum of the points of a sequence of rows. */
  function Total(ds: seq<DonationRow>): int {
    if ds == [] then 0 else ds[0].point + Total(ds[1..])
  }

  /** SQL `sum(point)`: null over no rows, otherwise the sum. */
  function SumPoint(ds: seq<DonationRow>): (r: Option<int>)
    ensures r.None? <==> ds == []
    ensures r.Some? ==> r.value == Total(ds)
  {
    if ds == [] then None
    else match SumPoint(ds[1..])
         case None => Some(ds[0].point)
         case Some(s) => Some(ds[0].point + s)
  }

  /** Reference: the points `creatorId` received in status `s`, summed row by row. */
  function ReceivedPoints(ds: seq<DonationRow>, creatorId: MemberId, s: DonationStatus): int {
    if ds == [] then 0
    else (if ds[0].creator == Some(creatorId) && ds[0].status == s then ds[0].point else 0)
         + ReceivedPoints(ds[1..], creatorId, s)
  }

  /** Reference: every point `creatorId` ever received. */
  function ReceivedTotal(ds: seq<DonationRow>, creatorId: MemberId): int {
    if ds == [] then 0
    else (if ds[0].creator == Some(creatorId) then ds[0].point else 0)
         + ReceivedTotal(ds[1..], creatorId)
  }

  lemma {:induction false} TotalOfOwnerAndStatus(ds: seq<DonationRow>, p: DonationRow -> bool,
                                                 creatorId: MemberId, s: DonationStatus)
    requires forall d :: p(d) == (DonationOwner(d, creatorId) && d.status == s)
    ensures Total(Where(ds, p)) == ReceivedPoints(ds, creatorId, s)
  {
    if ds != [] {
      TotalOfOwnerAndStatus(ds[1..], p, creatorId, s);
    }
  }

  // ---- The queries ----

  /** `waitingTotalPoint(creatorId)`. */
  function WaitingTotalPoint(ds: seq<DonationRow>, creatorId: MemberId): (r: int)
    ensures r == ReceivedPoints(ds, creatorId, WaitingForExchange)
    ensures (forall d :: d in ds ==> !(DonationOwner(d, creatorId) && WaitingForExchangeStatus(d))) ==> r == 0
  {
    var p := (d: DonationRow) => DonationOwner(d, creatorId) && WaitingForExchangeStatus(d);
    TotalOfOwnerAndStatus(ds, p, creatorId, WaitingForExchange);
    SumPoint(Where(ds, p)).GetOr(0)
  }

  /** `exchangedTotalPoint(creatorId)`. */
  function ExchangedTotalPoint(ds: seq<DonationRow>, creatorId: MemberId): (r: int)
    ensures r == ReceivedPoints(ds, creatorId, Exchanged)
    ensures (forall d :: d in ds ==> !(DonationOwner(d, creatorId) && ExchangedStatus(d))) ==> r == 0
  {
    var p := (d: DonationRow) => DonationOwner(d, creatorId) && ExchangedStatus(d);
    TotalOfOwnerAndStatus(ds, p, creatorId, Exchanged);
    SumPoint(Where(ds, p)).GetOr(0)
  }

  /** The `where` clause shared by the two request-window queries. */
  function RequestFilter(creatorId: MemberId, exchangeOn: Time.YearMonth): DonationRow -> bool
    requires exchangeOn.Valid()
  {
    d => DonationOwner(d, creatorId) && WaitingForExchangeStatus(d) && BeforeStartOfNextMonth(d, exchangeOn)
  }

  /** `findDonationsToExchange(creator, exchangeOn)`. */
  function FindDonationsToExchange(ds: seq<DonationRow>, creatorId: MemberId,
                                   exchangeOn: Time.YearMonth): (r: seq<DonationRow>)
    requires exchangeOn.Valid()
    ensures forall d :: d in r <==>
      && d in ds
      && d.creator == Some(creatorId)
      && d.status == WaitingForExchange
      && d.createdAt.Some?
      && Time.IsBefore(d.createdAt.value, RequestCutoff(exchangeOn))
    ensures forall d :: multiset(r)[d] == if RequestFilter(creatorId, exchangeOn)(d) then multiset(ds)[d] else 0
  {
    Where(ds, RequestFilter(creatorId, exchangeOn))
  }

  /** `calculateExchangeAmountFromDonation(creator, exchangeOn)`: not null-coalesced. */
  function CalculateExchangeAmountFromDonation(ds: seq<DonationRow>, creatorId: MemberId,
                                               exchangeOn: Time.YearMonth): (r: Option<int>)
    requires exchangeOn.Valid()
    ensures r.None? <==> FindDonationsToExchange(ds, creatorId, exchangeOn) == []
    ensures r.Some? ==> r.value == Total(FindDonationsToExchange(ds, creatorId, exchangeOn))
  {
    SumPoint(Where(ds, RequestFilter(creatorId, exchangeOn)))
  }

  lemma {:induction false} WhereOfNoMatch(ds: seq<DonationRow>, p: DonationRow -> bool)
    requires forall d :: d in ds ==> !p(d)
    ensures Where(ds, p) == []
  {
    if ds != [] {
      assert ds[0] in ds;
      WhereOfNoMatch(ds[1..], p);
    }
  }

  lemma {:induction false} WhereIsExtensional(ds: seq<DonationRow>, p: DonationRow -> bool,
                                              q: DonationRow -> bool)
    requires forall d :: p(d) == q(d)
    ensures Where(ds, p) == Where(ds, q)
  {
    if ds != [] {
      WhereIsExtensional(ds[1..], p, q);
    }
  }

  // ---- Properties ----

  lemma {:induction false} ReceivedPointsPartitionTotal(ds: seq<DonationRow>, creatorId: MemberId)
    ensures ReceivedPoints(ds, creatorId, WaitingForExchange) + ReceivedPoints(ds, creatorId, Exchanged)
            == ReceivedTotal(ds, creatorId)
  {
    if ds != [] {
      ReceivedPointsPartitionTotal(ds[1..], creatorId);
    }
  }

  /** The waiting and the exchanged totals split everything the creator received. */
  lemma WaitingPlusExchangedIsTotal(ds: seq<DonationRow>, creatorId: MemberId)
    ensures WaitingTotalPoint(ds, creatorId) + ExchangedTotalPoint(ds, creatorId)
            == ReceivedTotal(ds, creatorId)
  {
    ReceivedPointsPartitionTotal(ds, creatorId);
  }

  /** A status change keeps everything the creator received. */
  lemma {:induction false} ReceivedTotalIgnoresStatus(ds: seq<DonationRow>, k: nat, creatorId: MemberId)
    requires k < |ds|
    ensures ReceivedTotal(ds[k := ds[k].ToExchanged()], creatorId) == ReceivedTotal(ds, creatorId)
  {
    if k > 0 {
      ReceivedTotalIgnoresStatus(ds[1..], k - 1, creatorId);
      assert ds[k := ds[k].ToExchanged()][1..] == ds[1..][k - 1 := ds[k].ToExchanged()];
    }
  }

  /** Exchanging one waiting donation moves exactly its points from the waiting to the exchanged total. */
  lemma {:induction false} ToExchangedMovesPoints(ds: seq<DonationRow>, k: nat, creatorId: MemberId)
    requires k < |ds|
    requires ds[k].creator == Some(creatorId) && ds[k].status == WaitingForExchange
    ensures WaitingTotalPoint(ds[k := ds[k].ToExchanged()], creatorId)
            == WaitingTotalPoint(ds, creatorId) - ds[k].point
    ensures ExchangedTotalPoint(ds[k := ds[k].ToExchanged()], creatorId)
            == ExchangedTotalPoint(ds, creatorId) + ds[k].point
  {
    WaitingPointsAfterExchange(ds, k, creatorId);
    WaitingPlusExchangedIsTotal(ds, creatorId);
    WaitingPlusExchangedIsTotal(ds[k := ds[k].ToExchanged()], creatorId);
    ReceivedTotalIgnoresStatus(ds, k, creatorId);
  }

  lemma {:induction false} WaitingPointsAfterExchange(ds: seq<DonationRow>, k: nat, creatorId: MemberId)
    requires k < |ds|
    requires ds[k].creator == Some(creatorId) && ds[k].status == WaitingForExchange
    ensures ReceivedPoints(ds[k := ds[k].ToExchanged()], creatorId, WaitingForExchange)
            == ReceivedPoints(ds, creatorId, WaitingForExchange) - ds[k].point
  {
    if k > 0 {
      WaitingPointsAfterExchange(ds[1..], k - 1, creatorId);
      assert ds[k := ds[k].ToExchanged()][1..] == ds[1..][k - 1 := ds[k].ToExchanged()];
    } else {
      assert ds[k := ds[k].ToExchanged()][1..] == ds[1..];
    }
  }

  /** The request window is every month up to and including `exchangeOn`. */
  lemma RequestWindowIsMonthsUpTo(ds: seq<DonationRow>, creatorId: MemberId,
                                  exchangeOn: Time.YearMonth, d: DonationRow)
    requires exchangeOn.Valid()
    requires d.createdAt.Some? && d.createdAt.value.Valid()
    ensures d in FindDonationsToExchange(ds, creatorId, exchangeOn) <==>
      && d in ds && d.creator == Some(creatorId) && d.status == WaitingForExchange
      && Time.ProlepticMonth(Time.MonthOf(d.createdAt.value)) <= Time.ProlepticMonth(exchangeOn)
  {
    Time.BeforeStartOfMonthIffEarlierMonth(d.createdAt.value, Time.PlusMonths(exchangeOn, 1));
  }

  /** The cutoff is exclusive; for December it is 1 January of the next year. */
  lemma RequestCutoffIsExclusive(ds: seq<DonationRow>, creatorId: MemberId,
                                 exchangeOn: Time.YearMonth, d: DonationRow)
    requires exchangeOn.Valid()
    requires d.createdAt == Some(RequestCutoff(exchangeOn))
    ensures d !in FindDonationsToExchange(ds, creatorId, exchangeOn)
    ensures exchangeOn.month == 12 ==>
      RequestCutoff(exchangeOn) == Time.LocalDateTime(exchangeOn.year + 1, 1, 1, 0, 0, 0, 0)
  {
    Time.PlusOneMonth(exchangeOn);
  }

  /** The last instant of the requested month is still inside the window. */
  lemma EndOfRequestedMonthIsIncluded(ds: seq<DonationRow>, creatorId: MemberId,
                                      exchangeOn: Time.YearMonth, d: DonationRow)
    requires exchangeOn.Valid()
    requires d in ds && d.creator == Some(creatorId) && d.status == WaitingForExchange
    requires d.createdAt == Some(Time.EndOfMonth(exchangeOn))
    ensures d in FindDonationsToExchange(ds, creatorId, exchangeOn)
  {
    RequestWindowIsMonthsUpTo(ds, creatorId, exchangeOn, d);
  }

  /** A later month selects every donation an earlier month selects. */
  lemma FindDonationsToExchangeIsMonotone(ds: seq<DonationRow>, creatorId: MemberId,
                                          earlier: Time.YearMonth, later: Time.YearMonth)
    requires earlier.Valid() && later.Valid()
    requires Time.ProlepticMonth(earlier) <= Time.ProlepticMonth(later)
    ensures forall d :: d in FindDonationsToExchange(ds, creatorId, earlier) ==>
                        d in FindDonationsToExchange(ds, creatorId, later)
  {
    var a, b := RequestCutoff(earlier), RequestCutoff(later);
    Time.StartOfMonthIsMonotone(Time.PlusMonths(earlier, 1), Time.PlusMonths(later, 1));
    if Time.ProlepticMonth(earlier) == Time.ProlepticMonth(later) {
      Time.ProlepticMonthIsInjective(earlier, later);
    }
    forall d | d in FindDonationsToExchange(ds, creatorId, earlier)
      ensures d in FindDonationsToExchange(ds, creatorId, later)
    {
      Time.IsBeforeIsStrictTotalOrder(d.createdAt.value, a, b);
    }
  }

  /** 2024-02-01T00:00 is not in the window for January 2024. */
  lemma FirstOfFebruaryIsOutsideJanuary(ds: seq<DonationRow>, creatorId: MemberId, d: DonationRow)
    requires d.createdAt == Some(Time.LocalDateTime(2024, 2, 1, 0, 0, 0, 0))
    ensures d !in FindDonationsToExchange(ds, creatorId, Time.YearMonth(2024, 1))
  {
    Time.PlusOneMonth(Time.YearMonth(2024, 1));
  }
}
