/**
 * The approval-time query: every waiting exchange, left-joined with the
 * donations its member received, filtered by the `where` clause and grouped
 * by exchange id into (exchange id, sum of points) rows.
 */
module ExchangeQueries {
  import opened Wrappers
  import opened Primitives
  import opened DonationDomain
  import Time
  import DonationQueries

  datatype ExchangeStatus = Waiting | Approved | Rejected

  /** A row of the exchange table: its id, the member asking for the payout, its status. */
  datatype ExchangeRow = ExchangeRow(id: Long, memberId: MemberId, status: ExchangeStatus)

  /** A row of `exchange left join exchange.member.receivedDonations`. */
  datatype JoinedRow = JoinedRow(exchange: ExchangeRow, donation: Option<DonationRow>)

  /** `ExchangeAmountDto(exchange.id, sum(donation.point))`. */
  datatype ExchangeAmount = ExchangeAmount(exchangeId: Long, amount: int)

  /** The primary key: no two exchange rows share an id. */
  predicate UniqueIds(es: seq<ExchangeRow>) {
    forall i, j :: 0 <= i < j < |es| ==> es[i].id != es[j].id
  }

  // ---- The left join ----

  function Attach(e: ExchangeRow, ds: seq<DonationRow>): (r: seq<JoinedRow>)
    ensures forall row :: row in r <==> row.exchange == e && row.donation.Some? && row.donation.value in ds
    ensures |r| == |ds| && forall i :: 0 <= i < |ds| ==> r[i] == JoinedRow(e, Some(ds[i]))
  {
    if ds == [] then [] else [JoinedRow(e, Some(ds[0]))] + Attach(e, ds[1..])
  }

  /** `member.receivedDonations`: the donations whose creator is the member. */
  function ReceivedBy(memberId: MemberId): (r: DonationRow -> bool)
    ensures forall d :: r(d) <==> d.creator == Some(memberId)
  {
    d => DonationQueries.DonationOwner(d, memberId)
  }

  /** The joined rows of one exchange: one per received donation, or a single null-joined row. */
  function JoinOne(e: ExchangeRow, ds: seq<DonationRow>): (r: seq<JoinedRow>)
    ensures forall row :: row in r ==> row.exchange == e
  {
    var received := DonationQueries.Where(ds, ReceivedBy(e.memberId));
    if received == [] then [JoinedRow(e, None)] else Attach(e, received)
  }

  function LeftJoin(es: seq<ExchangeRow>, ds: seq<DonationRow>): (r: seq<JoinedRow>)
    ensures forall row :: row in r <==>
      && row.exchange in es
      && (match row.donation
          case Some(d) => d in ds && d.creator == Some(row.exchange.memberId)
          case None => forall d :: d in ds ==> d.creator != Some(row.exchange.memberId))
  {
    if es == [] then [] else JoinOne(es[0], ds) + LeftJoin(es[1..], ds)
  }

  // ---- The `where` clause ----

  /** `exchange.status.eq(WAITING)`: approved and rejected exchanges never match. */
  predicate WaitingStatus(row: JoinedRow)
    ensures WaitingStatus(row) ==> row.exchange.status != Approved && row.exchange.status != Rejected
  {
    row.exchange.status == Waiting
  }

  /**
   * `donation.status.eq(WAITING_FOR_EXCHANGE)` on a joined row: on a null-joined row the
   * comparison is unknown, so the row is dropped.
   */
  predicate WaitingForExchangeStatus(row: JoinedRow)
    ensures row.donation.None? ==> !WaitingForExchangeStatus(row)
    ensures WaitingForExchangeStatus(row) ==> !DonationQueries.ExchangedStatus(row.donation.value)
  {
    row.donation.Some? && DonationQueries.WaitingForExchangeStatus(row.donation.value)
  }

  /** The approval cutoff: day 1, 00:00 of the approval month itself. */
  function ApprovalCutoff(exchangeApproveOn: Time.YearMonth): (t: Time.LocalDateTime)
    requires exchangeApproveOn.Valid()
    ensures t.Valid() && Time.MonthOf(t) == exchangeApproveOn
    ensures forall u: Time.LocalDateTime ::
      u.Valid() && Time.MonthOf(u) == exchangeApproveOn ==> !Time.IsBefore(u, t)
  {
    Time.StartOfMonth(exchangeApproveOn)
  }

  /**
   * `donation.createdAt.before(startOfThisMonth)` on a joined row: a null-joined row or a
   * null timestamp never matches (`ApprovalWindowIsMonthsBefore` gives the months that do).
   */
  predicate BeforeStartOfThisMonth(row: JoinedRow, exchangeApproveOn: Time.YearMonth)
    requires exchangeApproveOn.Valid()
    ensures BeforeStartOfThisMonth(row, exchangeApproveOn) ==>
      row.donation.Some? && row.donation.value.createdAt.Some?
  {
    row.donation.Some? && DonationQueries.CreatedBefore(row.donation.value, ApprovalCutoff(exchangeApproveOn))
  }

  predicate InWhere(row: JoinedRow, exchangeApproveOn: Time.YearMonth)
    requires exchangeApproveOn.Valid()
  {
    WaitingStatus(row) && WaitingForExchangeStatus(row) && BeforeStartOfThisMonth(row, exchangeApproveOn)
  }

  function Filter(rows: seq<JoinedRow>, exchangeApproveOn: Time.YearMonth): (r: seq<JoinedRow>)
    requires exchangeApproveOn.Valid()
    ensures forall row :: row in r <==> row in rows && InWhere(row, exchangeApproveOn)
  {
    if rows == [] then []
    else
      (if InWhere(rows[0], exchangeApproveOn) then [rows[0]] else [])
      + Filter(rows[1..], exchangeApproveOn)
  }

  // ---- Group by exchange id ----

  /** The distinct exchange ids of `rows`, in order of first appearance. */
  function GroupIds(rows: seq<JoinedRow>): (ids: seq<Long>)
    ensures forall i, j :: 0 <= i < j < |ids| ==> ids[i] != ids[j]
    ensures forall id :: id in ids <==> exists row :: row in rows && row.exchange.id == id
  {
    if rows == [] then []
    else
      var front := rows[..|rows| - 1];
      assert rows == front + [rows[|rows| - 1]];
      var ids := GroupIds(front);
      var id := rows[|rows| - 1].exchange.id;
      if id in ids then ids else ids + [id]
  }

  /** `sum(donation.point)` over the group of `id`. */
  function GroupAmount(rows: seq<JoinedRow>, id: Long): int
  {
    if rows == [] then 0
    else (if rows[0].exchange.id == id && rows[0].donation.Some? then rows[0].donation.value.point else 0)
         + GroupAmount(rows[1..], id)
  }

  // ---- The query ----

  /** A donation counted for `memberId` at approval month `exchangeApproveOn`. */
  predicate Qualifies(d: DonationRow, memberId: MemberId, exchangeApproveOn: Time.YearMonth)
    requires exchangeApproveOn.Valid()
  {
    && DonationQueries.DonationOwner(d, memberId)
    && DonationQueries.WaitingForExchangeStatus(d)
    && DonationQueries.CreatedBefore(d, ApprovalCutoff(exchangeApproveOn))
  }

  /** Some joined row belongs to the group of `id`. */
  predicate HasGroup(rows: seq<JoinedRow>, id: Long) {
    exists row :: row in rows && row.exchange.id == id
  }

  /** Some result row carries `id`. */
  predicate HasRow(r: seq<ExchangeAmount>, id: Long) {
    exists a :: a in r && a.exchangeId == id
  }

  /** A waiting exchange with id `id` whose member has a qualifying donation. */
  predicate PendingWithQualifying(es: seq<ExchangeRow>, ds: seq<DonationRow>, id: Long,
                                  exchangeApproveOn: Time.YearMonth)
    requires exchangeApproveOn.Valid()
  {
    exists e, d :: e in es && d in ds && e.id == id && e.status == Waiting
                   && Qualifies(d, e.memberId, exchangeApproveOn)
  }

  /** One (id, amount) row per group, in order of first appearance. */
  function GroupRows(kept: seq<JoinedRow>): (r: seq<ExchangeAmount>)
    ensures forall i, j :: 0 <= i < j < |r| ==> r[i].exchangeId != r[j].exchangeId
    ensures forall id :: HasRow(r, id) <==> HasGroup(kept, id)
    ensures forall a :: a in r ==> a.amount == GroupAmount(kept, a.exchangeId)
  {
    var ids := GroupIds(kept);
    var r := seq(|ids|, i requires 0 <= i < |ids| => ExchangeAmount(ids[i], GroupAmount(kept, ids[i])));
    assert forall id :: HasRow(r, id) <==> id in ids by {
      forall id ensures HasRow(r, id) <==> id in ids {
        if id in ids {
          var i :| 0 <= i < |ids| && ids[i] == id;
          assert r[i] in r;
        }
      }
    }
    r
  }

  lemma KeptRowIsPending(es: seq<ExchangeRow>, ds: seq<DonationRow>, exchangeApproveOn: Time.YearMonth,
                          row: JoinedRow)
    requires exchangeApproveOn.Valid()
    requires row in Filter(LeftJoin(es, ds), exchangeApproveOn)
    ensures PendingWithQualifying(es, ds, row.exchange.id, exchangeApproveOn)
  {
    assert row in LeftJoin(es, ds) && InWhere(row, exchangeApproveOn);
    var d := row.donation.value;
    assert d in ds && d.creator == Some(row.exchange.memberId);
    assert Qualifies(d, row.exchange.memberId, exchangeApproveOn);
  }

  lemma PendingRowIsKept(es: seq<ExchangeRow>, ds: seq<DonationRow>, exchangeApproveOn: Time.YearMonth,
                         e: ExchangeRow, d: DonationRow)
    requires exchangeApproveOn.Valid()
    requires e in es && d in ds && e.status == Waiting && Qualifies(d, e.memberId, exchangeApproveOn)
    ensures JoinedRow(e, Some(d)) in Filter(LeftJoin(es, ds), exchangeApproveOn)
  {
    var row := JoinedRow(e, Some(d));
    assert row in LeftJoin(es, ds);
    assert InWhere(row, exchangeApproveOn);
  }

  lemma KeptGroupsArePending(es: seq<ExchangeRow>, ds: seq<DonationRow>, exchangeApproveOn: Time.YearMonth)
    requires exchangeApproveOn.Valid()
    ensures forall id :: HasGroup(Filter(LeftJoin(es, ds), exchangeApproveOn), id)
                         <==> PendingWithQualifying(es, ds, id, exchangeApproveOn)
  {
    var kept := Filter(LeftJoin(es, ds), exchangeApproveOn);
    forall id ensures HasGroup(kept, id) <==> PendingWithQualifying(es, ds, id, exchangeApproveOn) {
      if HasGroup(kept, id) {
        var row :| row in kept && row.exchange.id == id;
        KeptRowIsPending(es, ds, exchangeApproveOn, row);
      }
      if PendingWithQualifying(es, ds, id, exchangeApproveOn) {
        var e, d :| e in es && d in ds && e.id == id && e.status == Waiting
                    && Qualifies(d, e.memberId, exchangeApproveOn);
        PendingRowIsKept(es, ds, exchangeApproveOn, e, d);
      }
    }
  }

  /** `calculateExchangeAmountFromDonation(exchangeApproveOn)`. */
  function CalculateExchangeAmountFromDonation(es: seq<ExchangeRow>, ds: seq<DonationRow>,
                                               exchangeApproveOn: Time.YearMonth): (r: seq<ExchangeAmount>)
    requires exchangeApproveOn.Valid()
    ensures forall i, j :: 0 <= i < j < |r| ==> r[i].exchangeId != r[j].exchangeId
    ensures forall a :: a in r ==> exists e :: e in es && e.id == a.exchangeId && e.status == Waiting
    ensures forall id :: HasRow(r, id) <==> PendingWithQualifying(es, ds, id, exchangeApproveOn)
  {
    var kept := Filter(LeftJoin(es, ds), exchangeApproveOn);
    KeptGroupsArePending(es, ds, exchangeApproveOn);
    var r := GroupRows(kept);
    assert forall a :: a in r ==> HasRow(r, a.exchangeId);
    r
  }

  // ---- Properties ----

  function QualifiesAt(memberId: MemberId, exchangeApproveOn: Time.YearMonth): DonationRow -> bool
    requires exchangeApproveOn.Valid()
  {
    d => Qualifies(d, memberId, exchangeApproveOn)
  }

  /** The donations of `memberId` that the approval at `exchangeApproveOn` counts. */
  function QualifyingDonations(ds: seq<DonationRow>, memberId: MemberId,
                               exchangeApproveOn: Time.YearMonth): (r: seq<DonationRow>)
    requires exchangeApproveOn.Valid()
    ensures forall d :: d in r <==> d in ds && Qualifies(d, memberId, exchangeApproveOn)
    ensures forall d :: multiset(r)[d] == if Qualifies(d, memberId, exchangeApproveOn) then multiset(ds)[d] else 0
  {
    DonationQueries.Where(ds, QualifiesAt(memberId, exchangeApproveOn))
  }

  /** `sum` is additive: a group's amount over two row sequences is the sum of its amounts over each. */
  lemma {:induction false} GroupAmountOfAppend(a: seq<JoinedRow>, b: seq<JoinedRow>, id: Long)
    ensures GroupAmount(a + b, id) == GroupAmount(a, id) + GroupAmount(b, id)
  {
    if a == [] {
      assert a + b == b;
    } else {
      assert (a + b)[0] == a[0] && (a + b)[1..] == a[1..] + b;
      GroupAmountOfAppend(a[1..], b, id);
    }
  }

  lemma {:induction false} FilterOfAppend(a: seq<JoinedRow>, b: seq<JoinedRow>, exchangeApproveOn: Time.YearMonth)
    requires exchangeApproveOn.Valid()
    ensures Filter(a + b, exchangeApproveOn) == Filter(a, exchangeApproveOn) + Filter(b, exchangeApproveOn)
  {
    if a == [] {
      assert a + b == b;
    } else {
      assert (a + b)[0] == a[0] && (a + b)[1..] == a[1..] + b;
      FilterOfAppend(a[1..], b, exchangeApproveOn);
    }
  }

  /** A group none of whose rows names exchange `id` sums to 0. */
  lemma {:induction false} GroupAmountOfOtherGroups(rows: seq<JoinedRow>, id: Long)
    requires forall row :: row in rows ==> row.exchange.id != id
    ensures GroupAmount(rows, id) == 0
  {
    if rows != [] {
      assert rows[0] in rows;
      GroupAmountOfOtherGroups(rows[1..], id);
    }
  }

  lemma OneRowAmount(e: ExchangeRow, d: DonationRow, exchangeApproveOn: Time.YearMonth)
    requires exchangeApproveOn.Valid()
    requires e.status == Waiting && d.creator == Some(e.memberId)
    ensures GroupAmount(Filter([JoinedRow(e, Some(d))], exchangeApproveOn), e.id)
            == if Qualifies(d, e.memberId, exchangeApproveOn) then d.point else 0
  {
    assert [JoinedRow(e, Some(d))][1..] == [];
  }

  /** For a waiting exchange, the rows kept from its received donations sum to its qualifying points. */
  lemma {:induction false} AttachedAmount(e: ExchangeRow, ds: seq<DonationRow>, exchangeApproveOn: Time.YearMonth)
    requires exchangeApproveOn.Valid()
    requires e.status == Waiting
    ensures GroupAmount(Filter(Attach(e, DonationQueries.Where(ds, ReceivedBy(e.memberId))), exchangeApproveOn), e.id)
            == DonationQueries.Total(QualifyingDonations(ds, e.memberId, exchangeApproveOn))
  {
    if ds != [] {
      AttachedAmount(e, ds[1..], exchangeApproveOn);
      var d := ds[0];
      var rest := DonationQueries.Where(ds[1..], ReceivedBy(e.memberId));
      var restRows := Filter(Attach(e, rest), exchangeApproveOn);
      var q := QualifyingDonations(ds[1..], e.memberId, exchangeApproveOn);
      if ReceivedBy(e.memberId)(d) {
        assert DonationQueries.Where(ds, ReceivedBy(e.memberId)) == [d] + rest;
        var row := JoinedRow(e, Some(d));
        assert ([d] + rest)[0] == d && ([d] + rest)[1..] == rest;
        assert Attach(e, [d] + rest) == [row] + Attach(e, rest);
        FilterOfAppend([row], Attach(e, rest), exchangeApproveOn);
        GroupAmountOfAppend(Filter([row], exchangeApproveOn), restRows, e.id);
        OneRowAmount(e, d, exchangeApproveOn);
        if Qualifies(d, e.memberId, exchangeApproveOn) {
          assert QualifyingDonations(ds, e.memberId, exchangeApproveOn) == [d] + q;
          assert ([d] + q)[0] == d && ([d] + q)[1..] == q;
        } else {
          assert QualifyingDonations(ds, e.memberId, exchangeApproveOn) == q;
        }
      } else {
        assert DonationQueries.Where(ds, ReceivedBy(e.memberId)) == rest;
        assert QualifyingDonations(ds, e.memberId, exchangeApproveOn) == q;
      }
    }
  }

  lemma NothingIsKept(rows: seq<JoinedRow>, exchangeApproveOn: Time.YearMonth)
    requires exchangeApproveOn.Valid()
    requires forall row :: row in rows ==> !InWhere(row, exchangeApproveOn)
    ensures Filter(rows, exchangeApproveOn) == []
  {
  }

  lemma JoinOneAmount(e: ExchangeRow, ds: seq<DonationRow>, exchangeApproveOn: Time.YearMonth)
    requires exchangeApproveOn.Valid()
    ensures GroupAmount(Filter(JoinOne(e, ds), exchangeApproveOn), e.id)
            == if e.status == Waiting then DonationQueries.Total(QualifyingDonations(ds, e.memberId, exchangeApproveOn))
               else 0
  {
    var received := DonationQueries.Where(ds, ReceivedBy(e.memberId));
    if e.status != Waiting {
      NothingIsKept(JoinOne(e, ds), exchangeApproveOn);
    } else if received == [] {
      NothingIsKept(JoinOne(e, ds), exchangeApproveOn);
      DonationQueries.WhereOfNoMatch(ds, QualifiesAt(e.memberId, exchangeApproveOn));
    } else {
      AttachedAmount(e, ds, exchangeApproveOn);
    }
  }

  /** The rows joined to one exchange add nothing to another exchange's group. */
  lemma OtherExchangeAmount(e: ExchangeRow, ds: seq<DonationRow>, exchangeApproveOn: Time.YearMonth, id: Long)
    requires exchangeApproveOn.Valid()
    requires e.id != id
    ensures GroupAmount(Filter(JoinOne(e, ds), exchangeApproveOn), id) == 0
  {
    GroupAmountOfOtherGroups(Filter(JoinOne(e, ds), exchangeApproveOn), id);
  }

  /** Every joined row of `es` names an exchange of `es`. */
  lemma {:induction false} JoinedExchangesComeFrom(es: seq<ExchangeRow>, ds: seq<DonationRow>,
                                                   exchangeApproveOn: Time.YearMonth)
    requires exchangeApproveOn.Valid()
    ensures forall row :: row in Filter(LeftJoin(es, ds), exchangeApproveOn) ==> row.exchange in es
  {
  }

  /** With unique ids, no joined row of the tail of `es` belongs to the group of its head. */
  lemma TailRowsOfOtherGroups(es: seq<ExchangeRow>, ds: seq<DonationRow>, exchangeApproveOn: Time.YearMonth)
    requires exchangeApproveOn.Valid()
    requires UniqueIds(es) && es != []
    ensures forall row :: row in Filter(LeftJoin(es[1..], ds), exchangeApproveOn) ==> row.exchange.id != es[0].id
  {
    JoinedExchangesComeFrom(es[1..], ds, exchangeApproveOn);
    forall row | row in Filter(LeftJoin(es[1..], ds), exchangeApproveOn) ensures row.exchange.id != es[0].id {
      var k :| 0 <= k < |es[1..]| && es[1..][k] == row.exchange;
      assert es[k + 1] == row.exchange;
    }
  }

  /** A group's amount over the join of `es` is its amount over the head's rows plus over the tail's. */
  lemma LeftJoinGroupAmount(es: seq<ExchangeRow>, ds: seq<DonationRow>, exchangeApproveOn: Time.YearMonth, id: Long)
    requires exchangeApproveOn.Valid()
    requires es != []
    ensures GroupAmount(Filter(LeftJoin(es, ds), exchangeApproveOn), id)
            == GroupAmount(Filter(JoinOne(es[0], ds), exchangeApproveOn), id)
               + GroupAmount(Filter(LeftJoin(es[1..], ds), exchangeApproveOn), id)
  {
    var head, tail := JoinOne(es[0], ds), LeftJoin(es[1..], ds);
    assert LeftJoin(es, ds) == head + tail;
    FilterOfAppend(head, tail, exchangeApproveOn);
    GroupAmountOfAppend(Filter(head, exchangeApproveOn), Filter(tail, exchangeApproveOn), id);
  }

  /** With unique ids, the group of the first exchange sums its own qualifying points only. */
  lemma HeadExchangeAmount(es: seq<ExchangeRow>, ds: seq<DonationRow>, exchangeApproveOn: Time.YearMonth)
    requires exchangeApproveOn.Valid()
    requires UniqueIds(es) && es != []
    ensures GroupAmount(Filter(LeftJoin(es, ds), exchangeApproveOn), es[0].id)
            == if es[0].status == Waiting
               then DonationQueries.Total(QualifyingDonations(ds, es[0].memberId, exchangeApproveOn))
               else 0
  {
    LeftJoinGroupAmount(es, ds, exchangeApproveOn, es[0].id);
    JoinOneAmount(es[0], ds, exchangeApproveOn);
    TailRowsOfOtherGroups(es, ds, exchangeApproveOn);
    GroupAmountOfOtherGroups(Filter(LeftJoin(es[1..], ds), exchangeApproveOn), es[0].id);
  }

  lemma {:induction false} LeftJoinAmount(es: seq<ExchangeRow>, ds: seq<DonationRow>,
                                          exchangeApproveOn: Time.YearMonth, e: ExchangeRow)
    requires exchangeApproveOn.Valid()
    requires UniqueIds(es) && e in es
    ensures GroupAmount(Filter(LeftJoin(es, ds), exchangeApproveOn), e.id)
            == if e.status == Waiting then DonationQueries.Total(QualifyingDonations(ds, e.memberId, exchangeApproveOn))
               else 0
  {
    if es[0] == e {
      HeadExchangeAmount(es, ds, exchangeApproveOn);
    } else {
      var j :| 0 <= j < |es| && es[j] == e;
      assert es[0].id != e.id;
      assert es[1..][j - 1] == e;
      assert UniqueIds(es[1..]);
      LeftJoinGroupAmount(es, ds, exchangeApproveOn, e.id);
      OtherExchangeAmount(es[0], ds, exchangeApproveOn, e.id);
      LeftJoinAmount(es[1..], ds, exchangeApproveOn, e);
    }
  }

  /**
   * With unique exchange ids, a waiting exchange has a row exactly when its member has a
   * qualifying donation, and the row's amount is the sum of those donations' points.
   */
  lemma AmountOfWaitingExchange(es: seq<ExchangeRow>, ds: seq<DonationRow>,
                                exchangeApproveOn: Time.YearMonth, e: ExchangeRow)
    requires exchangeApproveOn.Valid()
    requires UniqueIds(es) && e in es && e.status == Waiting
    ensures var r := CalculateExchangeAmountFromDonation(es, ds, exchangeApproveOn);
      && (HasRow(r, e.id) <==> QualifyingDonations(ds, e.memberId, exchangeApproveOn) != [])
      && forall a :: a in r && a.exchangeId == e.id ==>
           a.amount == DonationQueries.Total(QualifyingDonations(ds, e.memberId, exchangeApproveOn))
  {
    var q := QualifyingDonations(ds, e.memberId, exchangeApproveOn);
    LeftJoinAmount(es, ds, exchangeApproveOn, e);
    if PendingWithQualifying(es, ds, e.id, exchangeApproveOn) {
      var e', d :| e' in es && d in ds && e'.id == e.id && e'.status == Waiting
                   && Qualifies(d, e'.memberId, exchangeApproveOn);
      var i :| 0 <= i < |es| && es[i] == e;
      var j :| 0 <= j < |es| && es[j] == e';
      assert i == j;
      assert d in q;
    }
    if q != [] {
      assert q[0] in q;
    }
  }

  /** A waiting exchange of a member who qualifies for nothing yields no row. */
  lemma NoRowWithoutQualifyingDonation(es: seq<ExchangeRow>, ds: seq<DonationRow>,
                                       exchangeApproveOn: Time.YearMonth, e: ExchangeRow)
    requires exchangeApproveOn.Valid()
    requires UniqueIds(es) && e in es && e.status == Waiting
    requires forall d :: d in ds ==> !Qualifies(d, e.memberId, exchangeApproveOn)
    ensures !HasRow(CalculateExchangeAmountFromDonation(es, ds, exchangeApproveOn), e.id)
  {
    AmountOfWaitingExchange(es, ds, exchangeApproveOn, e);
  }

  /** The approval window is every month strictly before `exchangeApproveOn`. */
  lemma ApprovalWindowIsMonthsBefore(ds: seq<DonationRow>, memberId: MemberId,
                                     exchangeApproveOn: Time.YearMonth, d: DonationRow)
    requires exchangeApproveOn.Valid()
    requires d.createdAt.Some? && d.createdAt.value.Valid()
    ensures d in QualifyingDonations(ds, memberId, exchangeApproveOn) <==>
      && d in ds && d.creator == Some(memberId) && d.status == WaitingForExchange
      && Time.ProlepticMonth(Time.MonthOf(d.createdAt.value)) < Time.ProlepticMonth(exchangeApproveOn)
  {
    Time.BeforeStartOfMonthIffEarlierMonth(d.createdAt.value, exchangeApproveOn);
  }

  /** A donation made at 00:00 on day 1 of the approval month is not counted. */
  lemma ApprovalCutoffIsExclusive(ds: seq<DonationRow>, memberId: MemberId,
                                  exchangeApproveOn: Time.YearMonth, d: DonationRow)
    requires exchangeApproveOn.Valid()
    requires d.createdAt == Some(Time.LocalDateTime(exchangeApproveOn.year, exchangeApproveOn.month, 1, 0, 0, 0, 0))
    ensures d !in QualifyingDonations(ds, memberId, exchangeApproveOn)
  {
  }

  /** Approving at month M counts exactly what a request for M - 1 selects. */
  lemma ApprovalWindowIsPreviousRequestWindow(ds: seq<DonationRow>, memberId: MemberId,
                                              exchangeApproveOn: Time.YearMonth)
    requires exchangeApproveOn.Valid()
    ensures QualifyingDonations(ds, memberId, exchangeApproveOn)
            == DonationQueries.FindDonationsToExchange(ds, memberId, Time.MinusMonths(exchangeApproveOn, 1))
  {
    Time.PlusMonthsAfterMinusMonths(exchangeApproveOn, 1);
    DonationQueries.WhereIsExtensional(ds, QualifiesAt(memberId, exchangeApproveOn),
      DonationQueries.RequestFilter(memberId, Time.MinusMonths(exchangeApproveOn, 1)));
  }

  /**
   * For a waiting exchange, the approval amount at month M is the request amount for month M - 1:
   * a row with amount `a` exactly when that request sums to `a`, no row exactly when it is null.
   */
  lemma ApprovalMatchesPreviousMonthRequest(es: seq<ExchangeRow>, ds: seq<DonationRow>,
                                            exchangeApproveOn: Time.YearMonth, e: ExchangeRow)
    requires exchangeApproveOn.Valid()
    requires UniqueIds(es) && e in es && e.status == Waiting
    ensures var r := CalculateExchangeAmountFromDonation(es, ds, exchangeApproveOn);
      var request := DonationQueries.CalculateExchangeAmountFromDonation(ds, e.memberId,
                                                                         Time.MinusMonths(exchangeApproveOn, 1));
      && (request.None? <==> !HasRow(r, e.id))
      && forall a :: a in r && a.exchangeId == e.id ==> request == Some(a.amount)
  {
    AmountOfWaitingExchange(es, ds, exchangeApproveOn, e);
    ApprovalWindowIsPreviousRequestWindow(ds, e.memberId, exchangeApproveOn);
  }

  /**
   * The two windows differ: a waiting donation made during month M is in the request
   * for M but not in the approval at M.
   */
  lemma DonationOfApprovalMonthIsOnlyRequested(ds: seq<DonationRow>, memberId: MemberId,
                                               month: Time.YearMonth, d: DonationRow)
    requires month.Valid()
    requires d in ds && d.creator == Some(memberId) && d.status == WaitingForExchange
    requires d.createdAt.Some? && d.createdAt.value.Valid() && Time.MonthOf(d.createdAt.value) == month
    ensures d in DonationQueries.FindDonationsToExchange(ds, memberId, month)
    ensures d !in QualifyingDonations(ds, memberId, month)
  {
    DonationQueries.RequestWindowIsMonthsUpTo(ds, memberId, month, d);
    ApprovalWindowIsMonthsBefore(ds, memberId, month, d);
  }
}
