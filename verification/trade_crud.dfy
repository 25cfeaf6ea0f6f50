/**
 * The `trades` table and its CRUD: creation with enums stored as strings, owner-scoped
 * lookup, PATCH that writes only the fields the body set, and the newest-first listing
 * with and without the chart flag.
 *
 * The table is a sequence of rows in storage order; trade ids come from an abstract supply
 * of fresh identifiers standing for UUID generation, and `createdAt` from the clock.
 */
module TradeCrud {
  import opened Common
  import opened TradeSchema
  import ImageStore

  /** The input columns of a trade, with the enums as their stored strings. */
  datatype StoredInputs = StoredInputs(
    balanceChf: Option<real>, riskPct: Option<real>,
    symbol: string, direction: string, entryPrice: real,
    stopDistance: real, stopUnit: string,
    tpRMultiple: Option<real>, lotStep: Option<real>,
    usdchfRate: Option<real>, tickSize: Option<real>, contractSize: Option<real>)

  /** The journal columns of a trade, with the status as its stored string. */
  datatype StoredJournal = StoredJournal(
    note: Option<string>, status: string,
    openedAt: Option<Timestamp>, closedAt: Option<Timestamp>,
    realizedPnlChf: Option<real>, realizedRMultiple: Option<real>)

  /** A `trades` row (the `updated_at` timestamp left out). */
  datatype Trade = Trade(
    id: string, userId: int, createdAt: Timestamp,
    inputs: StoredInputs, outputs: TradeOutputs, journal: StoredJournal)

  /** Every trade id occurs once. */
  predicate UniqueIds(table: seq<Trade>) {
    forall i, j | 0 <= i < |table| && 0 <= j < |table| && table[i].id == table[j].id :: i == j
  }

  function StoreInputs(i: TradeInputs): StoredInputs {
    StoredInputs(i.balanceChf, i.riskPct, i.symbol, i.direction.Value(), i.entryPrice,
                 i.stopDistance, i.stopUnit.Value(), i.tpRMultiple, i.lotStep,
                 i.usdchfRate, i.tickSize, i.contractSize)
  }

  function StoreJournal(j: TradeJournal): StoredJournal {
    StoredJournal(j.note, j.status.Value(), j.openedAt, j.closedAt, j.realizedPnlChf, j.realizedRMultiple)
  }

  /**
   * `create_trade`: appends one row for the user with a fresh id; the enum fields are stored
   * as their string values, from which the enums can be read back.
   */
  function CreateTrade(table: seq<Trade>, userId: int, payload: TradeCreate, freshId: string, now: Timestamp)
    : (r: (seq<Trade>, Trade))
    requires forall t | t in table :: t.id != freshId
    ensures r.0 == table + [r.1]
    ensures r.1.id == freshId && r.1.userId == userId && r.1.createdAt == now
    ensures ParseDirection(r.1.inputs.direction) == Some(payload.inputs.direction)
    ensures ParseStopUnit(r.1.inputs.stopUnit) == Some(payload.inputs.stopUnit)
    ensures ParseStatus(r.1.journal.status) == Some(payload.journal.status)
    ensures r.1.inputs.symbol == payload.inputs.symbol && r.1.outputs == payload.outputs
    ensures r.1.journal.note == payload.journal.note
    ensures UniqueIds(table) ==> UniqueIds(r.0)
  {
    var t := Trade(freshId, userId, now, StoreInputs(payload.inputs), payload.outputs, StoreJournal(payload.journal));
    assert (table + [t])[|table|] == t;
    (table + [t], t)
  }

  /** Index of the first row with this id owned by this user. */
  function FindOwned(table: seq<Trade>, userId: int, tradeId: string): (r: Option<nat>)
    ensures r.Some? ==> r.value < |table| && table[r.value].id == tradeId && table[r.value].userId == userId
    ensures r.None? <==> forall i | 0 <= i < |table| :: !(table[i].id == tradeId && table[i].userId == userId)
  {
    if |table| == 0 then None
    else if table[0].id == tradeId && table[0].userId == userId then Some(0)
    else
      match FindOwned(table[1..], userId, tradeId)
      case None => None
      case Some(i) => Some(i + 1)
  }

  /** `get_trade_for_user`: a trade is found only when both its id and its owner match. */
  function GetTradeForUser(table: seq<Trade>, userId: int, tradeId: string): (r: Option<Trade>)
    ensures r.Some? ==> r.value in table && r.value.id == tradeId && r.value.userId == userId
    ensures r.None? <==> forall t | t in table :: !(t.id == tradeId && t.userId == userId)
  {
    match FindOwned(table, userId, tradeId)
    case None => None
    case Some(i) => Some(table[i])
  }

  /** Another user's trade is invisible, whatever its id. */
  lemma OtherUsersTradeInvisible(table: seq<Trade>, userId: int, tradeId: string)
    requires UniqueIds(table)
    requires exists t | t in table :: t.id == tradeId && t.userId != userId
    ensures GetTradeForUser(table, userId, tradeId).None?
  {
  }

  /** Patch semantics on one field: an unset field keeps its value, a set one takes the given value. */
  function Patched<T>(p: Patch<T>, current: Option<T>): (r: Option<T>)
    ensures p.Unset? ==> r == current
    ensures p.SetTo? ==> r == p.value
  {
    match p
    case Unset => current
    case SetTo(v) => v
  }

  /** The journal after writing the fields a PATCH set (`setattr` for each key of the dump). */
  function ApplyUpdate(t: Trade, u: TradeUpdate): (r: Trade)
    requires !(u.status.SetTo? && u.status.value.None?)
    ensures r.id == t.id && r.userId == t.userId && r.createdAt == t.createdAt
    ensures r.inputs == t.inputs && r.outputs == t.outputs
    ensures u.status.Unset? ==> r.journal.status == t.journal.status
    ensures u.status.SetTo? ==> r.journal.status == u.status.value.value.Value()
    ensures u.note.Unset? ==> r.journal.note == t.journal.note
    ensures u.note.SetTo? ==> r.journal.note == u.note.value
    ensures u.openedAt.Unset? ==> r.journal.openedAt == t.journal.openedAt
    ensures u.openedAt.SetTo? ==> r.journal.openedAt == u.openedAt.value
    ensures u.closedAt.Unset? ==> r.journal.closedAt == t.journal.closedAt
    ensures u.closedAt.SetTo? ==> r.journal.closedAt == u.closedAt.value
    ensures u.realizedPnlChf.Unset? ==> r.journal.realizedPnlChf == t.journal.realizedPnlChf
    ensures u.realizedPnlChf.SetTo? ==> r.journal.realizedPnlChf == u.realizedPnlChf.value
    ensures u.realizedRMultiple.Unset? ==> r.journal.realizedRMultiple == t.journal.realizedRMultiple
    ensures u.realizedRMultiple.SetTo? ==> r.journal.realizedRMultiple == u.realizedRMultiple.value
    ensures SetFields(u) == {} ==> r == t
  {
    var j := t.journal;
    t.(journal := StoredJournal(
      Patched(u.note, j.note),
      if u.status.SetTo? then u.status.value.value.Value() else j.status,
      Patched(u.openedAt, j.openedAt),
      Patched(u.closedAt, j.closedAt),
      Patched(u.realizedPnlChf, j.realizedPnlChf),
      Patched(u.realizedRMultiple, j.realizedRMultiple)))
  }

  /** PATCH outcomes: no such trade for this user; the updated table and row; or the commit refused. */
  datatype UpdateOutcome = NotFound | Updated(table: seq<Trade>, trade: Trade) | IntegrityError

  /**
   * `update_trade_for_user`: a missing or foreign trade is `NotFound` and nothing changes; an
   * explicit `"status": null` writes NULL into a NOT NULL column, so the commit fails and
   * nothing changes; otherwise the owned row, and only it, is replaced by its patched form.
   */
  function UpdateTradeForUser(table: seq<Trade>, userId: int, tradeId: string, u: TradeUpdate): (r: UpdateOutcome)
    ensures r == NotFound <==> GetTradeForUser(table, userId, tradeId).None?
    ensures r == IntegrityError <==> GetTradeForUser(table, userId, tradeId).Some? && u.status == SetTo(None)
    ensures r.Updated? ==>
      && FindOwned(table, userId, tradeId).Some?
      && var i := FindOwned(table, userId, tradeId).value;
      && r.trade == ApplyUpdate(table[i], u)
      && |r.table| == |table| && r.table[i] == r.trade
      && (forall k | 0 <= k < |table| && k != i :: r.table[k] == table[k])
  {
    match FindOwned(table, userId, tradeId)
    case None => NotFound
    case Some(i) =>
      if u.status == SetTo(None) then IntegrityError
      else
        var t := ApplyUpdate(table[i], u);
        Updated(table[i := t], t)
  }

  /** A PATCH keeps the id set, so trade ids stay unique. */
  lemma UpdateKeepsUniqueIds(table: seq<Trade>, userId: int, tradeId: string, u: TradeUpdate)
    requires UniqueIds(table)
    requires UpdateTradeForUser(table, userId, tradeId, u).Updated?
    ensures UniqueIds(UpdateTradeForUser(table, userId, tradeId, u).table)
  {
  }

  /** The rows of one user, in storage order. */
  function OwnedBy(table: seq<Trade>, userId: int): (r: seq<Trade>)
    ensures forall t | t in r :: t in table && t.userId == userId
    ensures forall t | t in table && t.userId == userId :: t in r
    ensures multiset(r) <= multiset(table)
  {
    if |table| == 0 then []
    else
      assert table == [table[0]] + table[1..];
      if table[0].userId == userId then [table[0]] + OwnedBy(table[1..], userId)
      else OwnedBy(table[1..], userId)
  }

  /** Ordered by `created_at`, newest first. */
  predicate NewestFirst(s: seq<Trade>) {
    forall i, j | 0 <= i < j < |s| :: s[i].createdAt >= s[j].createdAt
  }

  function InsertNewestFirst(t: Trade, s: seq<Trade>): (r: seq<Trade>)
    requires NewestFirst(s)
    ensures NewestFirst(r)
    ensures multiset(r) == multiset(s) + multiset{t}
    ensures |r| == |s| + 1
    ensures r[0] == t || (|s| > 0 && r[0] == s[0])
    ensures forall x :: x in r <==> x in s || x == t
  {
    if |s| == 0 || t.createdAt >= s[0].createdAt then [t] + s
    else
      var rest := InsertNewestFirst(t, s[1..]);
      assert s == [s[0]] + s[1..];
      [s[0]] + rest
  }

  /** Insertion sort, newest first (`ORDER BY created_at DESC`). */
  function SortNewestFirst(s: seq<Trade>): (r: seq<Trade>)
    ensures NewestFirst(r)
    ensures multiset(r) == multiset(s)
    ensures |r| == |s|
    ensures forall x :: x in r <==> x in s
  {
    if |s| == 0 then []
    else
      assert s == [s[0]] + s[1..];
      InsertNewestFirst(s[0], SortNewestFirst(s[1..]))
  }

  const DefaultLimit: nat := 50
  const DefaultOffset: nat := 0

  function Min(a: int, b: int): int {
    if a <= b then a else b
  }

  /** How many rows `OFFSET offset LIMIT limit` keeps out of `n`. */
  function PageCount(n: nat, limit: nat, offset: nat): nat {
    Min(limit, if offset <= n then n - offset else 0)
  }

  /** `OFFSET offset LIMIT limit` on an ordered result. */
  function Page(s: seq<Trade>, limit: nat, offset: nat): (r: seq<Trade>)
    ensures |r| == PageCount(|s|, limit, offset)
    ensures forall k | 0 <= k < |r| :: r[k] == s[offset + k]
    ensures forall x | x in r :: x in s
    ensures NewestFirst(s) ==> NewestFirst(r)
  {
    var lo := Min(offset, |s|);
    var hi := Min(offset + limit, |s|);
    s[lo..hi]
  }

  /** Within range, a page is the contiguous run of the list that starts at `offset`. */
  lemma PageIsWindow(s: seq<Trade>, limit: nat, offset: nat)
    requires offset <= |s|
    ensures offset + |Page(s, limit, offset)| <= |s|
    ensures Page(s, limit, offset) == s[offset..offset + |Page(s, limit, offset)|]
  {
  }


  /** Any page of a newest-first ordering is a window of the rows it orders. */
  lemma OrderingPageIsWindow(L: seq<Trade>, owned: seq<Trade>, limit: nat, offset: nat)
    requires IsNewestFirstOrder(L, owned) && offset <= |L|
    ensures IsWindow(Page(L, limit, offset), owned, offset)
  {
    PageIsWindow(L, limit, offset);
  }

  /** `L` lists exactly the trades of `owned`, each as often, newest first. */
  predicate IsNewestFirstOrder(L: seq<Trade>, owned: seq<Trade>) {
    NewestFirst(L) && multiset(L) == multiset(owned)
  }

  /** `r` is the contiguous run starting at position `offset` of some newest-first ordering of `owned`. */
  ghost predicate IsWindow(r: seq<Trade>, owned: seq<Trade>, offset: nat) {
    exists L {:trigger IsNewestFirstOrder(L, owned)} :: IsNewestFirstOrder(L, owned) && offset + |r| <= |L| && r == L[offset..offset + |r|]
  }

  /** `ORDER BY created_at DESC OFFSET offset LIMIT limit` over the given rows. */
  function SortedPage(owned: seq<Trade>, limit: nat, offset: nat): (r: seq<Trade>)
    ensures forall t | t in r :: t in owned
    ensures NewestFirst(r)
    ensures |r| == PageCount(|owned|, limit, offset)
    ensures offset <= |owned| ==> IsWindow(r, owned, offset)
  {
    var sorted := SortNewestFirst(owned);
    if offset <= |owned| then
      OrderingPageIsWindow(sorted, owned, limit, offset);
      Page(sorted, limit, offset)
    else Page(sorted, limit, offset)
  }

  /**
   * `list_trades_for_user`: only the user's trades, newest first, at most `limit` of them
   * after skipping `offset`.
   */
  function ListTradesForUser(table: seq<Trade>, userId: int, limit: nat, offset: nat): (r: seq<Trade>)
    ensures forall t | t in r :: t in table && t.userId == userId
    ensures NewestFirst(r)
    ensures |r| == PageCount(|OwnedBy(table, userId)|, limit, offset)
    ensures offset <= |OwnedBy(table, userId)| ==> IsWindow(r, OwnedBy(table, userId), offset)
  {
    ListingOwned(table, userId, limit, offset);
    SortedPage(OwnedBy(table, userId), limit, offset)
  }

  /** The sorted page of a user's rows holds only that user's rows of the table. */
  lemma ListingOwned(table: seq<Trade>, userId: int, limit: nat, offset: nat)
    ensures forall t | t in SortedPage(OwnedBy(table, userId), limit, offset) :: t in table && t.userId == userId
  {
    var owned := OwnedBy(table, userId);
    var page := SortedPage(owned, limit, offset);
    forall t | t in page ensures t in table && t.userId == userId {
      assert t in owned;
    }
  }

  /** With no offset and room for everything, the listing holds every one of the user's trades. */
  lemma FirstPageHoldsAll(table: seq<Trade>, userId: int, limit: nat)
    requires |OwnedBy(table, userId)| <= limit
    ensures multiset(ListTradesForUser(table, userId, limit, 0)) == multiset(OwnedBy(table, userId))
  {
    var sorted := SortNewestFirst(OwnedBy(table, userId));
    assert Page(sorted, limit, 0) == sorted;
  }

  /**
   * A trade created at a time later than every existing trade heads its owner's listing
   * (the listing is newest first).
   */
  lemma NewTradeListedFirst(table: seq<Trade>, userId: int, payload: TradeCreate, freshId: string, now: Timestamp, limit: nat)
    requires forall t | t in table :: t.id != freshId && t.createdAt < now
    requires limit >= 1
    ensures var (table', t) := CreateTrade(table, userId, payload, freshId, now);
      var page := ListTradesForUser(table', userId, limit, 0);
      |page| >= 1 && page[0] == t
  {
    var (table', t) := CreateTrade(table, userId, payload, freshId, now);
    var owned := OwnedBy(table', userId);
    var sorted := SortNewestFirst(owned);
    assert t in table';
    assert t in sorted;
    var k :| 0 <= k < |sorted| && sorted[k] == t;
    assert sorted[0].createdAt >= t.createdAt;
    assert sorted[0] in table';
    var page := ListTradesForUser(table', userId, limit, 0);
    assert page == Page(sorted, limit, 0);
  }

  /** Two consecutive pages are the double-size page. */
  lemma PagesConcatenate(table: seq<Trade>, userId: int, limit: nat, offset: nat)
    ensures ListTradesForUser(table, userId, limit, offset) + ListTradesForUser(table, userId, limit, offset + limit)
         == ListTradesForUser(table, userId, 2 * limit, offset)
  {
    var sorted := SortNewestFirst(OwnedBy(table, userId));
    assert ListTradesForUser(table, userId, limit, offset) == Page(sorted, limit, offset);
    assert ListTradesForUser(table, userId, limit, offset + limit) == Page(sorted, limit, offset + limit);
    assert ListTradesForUser(table, userId, 2 * limit, offset) == Page(sorted, 2 * limit, offset);
    AdjacentPages(sorted, limit, offset);
  }

  /** On any list, the page at `offset` followed by the page at `offset + limit` is the double page. */
  lemma AdjacentPages(s: seq<Trade>, limit: nat, offset: nat)
    ensures Page(s, limit, offset) + Page(s, limit, offset + limit) == Page(s, 2 * limit, offset)
  {
  }

  /** Whether the image store holds a chart for the trade (the `EXISTS` sub-query). */
  function HasChart(images: ImageStore.Db, tradeId: string): (b: bool)
    ensures b <==> ImageStore.Get(images, tradeId, ImageStore.ChartKind).Some?
  {
    ImageStore.Key(tradeId, ImageStore.ChartKind) in images.rows
  }

  /**
   * `list_trades_for_user_with_chart_flag`: the same page as `list_trades_for_user`, each trade
   * paired with whether a `CHART` image exists for it.
   */
  function ListTradesWithChartFlag(table: seq<Trade>, images: ImageStore.Db, userId: int, limit: nat, offset: nat)
    : (r: seq<(Trade, bool)>)
    ensures |r| == |ListTradesForUser(table, userId, limit, offset)|
    ensures forall k | 0 <= k < |r| ::
      r[k].0 == ListTradesForUser(table, userId, limit, offset)[k]
      && (r[k].1 <==> ImageStore.Key(r[k].0.id, ImageStore.ChartKind) in images.rows)
  {
    var page := ListTradesForUser(table, userId, limit, offset);
    seq(|page|, k requires 0 <= k < |page| => (page[k], HasChart(images, page[k].id)))
  }
}
