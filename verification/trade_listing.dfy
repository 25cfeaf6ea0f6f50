/**
 * `GET /trades` (`list_my_trades`): the crud listing with its chart flag, each row projected
 * onto the `TradeSummaryOut` response schema.
 *
 * A Pydantic model built from keyword arguments keeps only the fields it declares: with the
 * default `extra="ignore"` any other keyword is dropped without an error, and the response is
 * serialised from what is kept. A summary is modelled as the map from kept field names to
 * their values.
 */
module TradeListing {
  import Common
  import TradeSchema
  import ImageCodec
  import TradeCrud
  import ImageStore
  import ChartEndpoints

  /** The value of one summary field. */
  datatype SummaryValue =
    | Str(s: string)
    | Time(t: TradeSchema.Timestamp)
    | Flag(b: bool)
    | Outputs(o: TradeSchema.TradeOutputs)

  /** The keyword arguments `_to_summary_out` passes, by name. */
  datatype Field = Id | CreatedAt | Symbol | Direction | Status | HasCharts | OutputsField
  {
    /** The JSON key the field is serialised under. */
    function Name(): string {
      match this
      case Id => "id"
      case CreatedAt => "created_at"
      case Symbol => "symbol"
      case Direction => "direction"
      case Status => "status"
      case HasCharts => "has_charts"
      case OutputsField => "outputs"
    }
  }

  type Summary = map<Field, SummaryValue>

  /** The fields `TradeSummaryOut` declares. */
  const SummaryFields: set<Field> := {Id, CreatedAt, Symbol, Direction, Status, OutputsField}

  /** The fields of a summary that carries the chart flag. */
  const FlaggedSummaryFields: set<Field> := SummaryFields + {HasCharts}

  /** Building a Pydantic model that ignores extra keywords: only the declared fields survive. */
  function Construct(declared: set<Field>, kwargs: Summary): (r: Summary)
    ensures r.Keys == declared * kwargs.Keys
    ensures forall k | k in r :: r[k] == kwargs[k]
  {
    map k | k in kwargs && k in declared :: kwargs[k]
  }

  /** The keyword arguments `_to_summary_out` passes, the chart flag among them. */
  function SummaryKwargs(t: TradeCrud.Trade, hasCharts: bool): (r: Summary)
    ensures r.Keys == FlaggedSummaryFields
    ensures r[HasCharts] == Flag(hasCharts)
    ensures r[Id] == Str(t.id)
  {
    map[Id := Str(t.id),
        CreatedAt := Time(t.createdAt),
        Symbol := Str(t.inputs.symbol),
        Direction := Str(t.inputs.direction),
        Status := Str(t.journal.status),
        HasCharts := Flag(hasCharts),
        OutputsField := Outputs(t.outputs)]
  }

  /** `_to_summary_out` as written: the schema has no `has_charts` field, so the flag is dropped. */
  function ToSummaryOut(t: TradeCrud.Trade, hasCharts: bool): (r: Summary)
    ensures r.Keys == SummaryFields
    ensures HasCharts !in r
    ensures r[Id] == Str(t.id)
  {
    Construct(SummaryFields, SummaryKwargs(t, hasCharts))
  }

  /** The summaries, as written, of flagged listing rows, in order. */
  function Summaries(rows: seq<(TradeCrud.Trade, bool)>): (r: seq<Summary>)
    ensures |r| == |rows|
    ensures forall k | 0 <= k < |r| :: Id in r[k] && r[k][Id] == Str(rows[k].0.id) && HasCharts !in r[k]
  {
    seq(|rows|, k requires 0 <= k < |rows| => ToSummaryOut(rows[k].0, rows[k].1))
  }

  /** `list_my_trades` as written: one summary per row of the flagged listing, with default paging. */
  function ListMyTrades(table: seq<TradeCrud.Trade>, images: ImageStore.Db, userId: int): (r: seq<Summary>)
    ensures |r| == |TradeCrud.ListTradesForUser(table, userId, TradeCrud.DefaultLimit, TradeCrud.DefaultOffset)|
    ensures forall k | 0 <= k < |r| ::
      Id in r[k] && r[k][Id] == Str(TradeCrud.ListTradesForUser(table, userId, TradeCrud.DefaultLimit, TradeCrud.DefaultOffset)[k].id)
    ensures forall k | 0 <= k < |r| :: HasCharts !in r[k]
  {
    Summaries(TradeCrud.ListTradesWithChartFlag(table, images, userId, TradeCrud.DefaultLimit, TradeCrud.DefaultOffset))
  }

  /**
   * As written, a trade whose chart was just uploaded, and which the crud listing flags as
   * having one, is listed without any `has_charts` key: a client reading the flag from the
   * listing finds nothing there.
   */
  lemma UploadThenListedWithoutFlag(
    trades: seq<TradeCrud.Trade>, userId: int, tradeId: string,
    contentType: Common.Option<string>, raw: Common.Bytes,
    pil: ImageCodec.Pil, sha: ImageCodec.Hasher, images: ImageStore.Db, k: nat)
    requires ImageStore.Valid(images, sha) && ChartEndpoints.AllWebp(images)
    requires ChartEndpoints.UploadTradeChart(trades, userId, tradeId, contentType, raw, pil, sha, images).0.NoContent?
    requires k < |ListMyTrades(trades, ChartEndpoints.UploadTradeChart(trades, userId, tradeId, contentType, raw, pil, sha, images).1, userId)|
    requires Id in ListMyTrades(trades, ChartEndpoints.UploadTradeChart(trades, userId, tradeId, contentType, raw, pil, sha, images).1, userId)[k]
    requires ListMyTrades(trades, ChartEndpoints.UploadTradeChart(trades, userId, tradeId, contentType, raw, pil, sha, images).1, userId)[k][Id] == Str(tradeId)
    ensures TradeCrud.HasChart(ChartEndpoints.UploadTradeChart(trades, userId, tradeId, contentType, raw, pil, sha, images).1, tradeId)
    ensures HasCharts !in ListMyTrades(trades, ChartEndpoints.UploadTradeChart(trades, userId, tradeId, contentType, raw, pil, sha, images).1, userId)[k]
  {
    ChartEndpoints.UploadThenDownload(trades, userId, tradeId, contentType, raw, pil, sha, images);
  }

  /** `_to_summary_out` with the schema declaring `has_charts: bool`, as the listing's clients expect. */
  function ToFlaggedSummary(t: TradeCrud.Trade, hasCharts: bool): (r: Summary)
    ensures r.Keys == FlaggedSummaryFields
    ensures r[HasCharts] == Flag(hasCharts)
    ensures r[Id] == Str(t.id)
  {
    Construct(FlaggedSummaryFields, SummaryKwargs(t, hasCharts))
  }

  /** The flagged summaries of flagged listing rows, in order. */
  function FlaggedSummaries(rows: seq<(TradeCrud.Trade, bool)>): (r: seq<Summary>)
    ensures |r| == |rows|
    ensures forall k | 0 <= k < |r| ::
      Id in r[k] && r[k][Id] == Str(rows[k].0.id) && HasCharts in r[k] && r[k][HasCharts] == Flag(rows[k].1)
  {
    seq(|rows|, k requires 0 <= k < |rows| => ToFlaggedSummary(rows[k].0, rows[k].1))
  }

  /** The listing with the chart flag kept: each summary says whether its trade has a chart. */
  function ListMyTradesFlagged(table: seq<TradeCrud.Trade>, images: ImageStore.Db, userId: int): (r: seq<Summary>)
    ensures |r| == |TradeCrud.ListTradesForUser(table, userId, TradeCrud.DefaultLimit, TradeCrud.DefaultOffset)|
    ensures forall k | 0 <= k < |r| ::
      var t := TradeCrud.ListTradesForUser(table, userId, TradeCrud.DefaultLimit, TradeCrud.DefaultOffset)[k];
      && Id in r[k] && r[k][Id] == Str(t.id)
      && HasCharts in r[k]
      && (r[k][HasCharts] == Flag(true) <==> TradeCrud.HasChart(images, t.id))
  {
    FlaggedSummaries(TradeCrud.ListTradesWithChartFlag(table, images, userId, TradeCrud.DefaultLimit, TradeCrud.DefaultOffset))
  }

  /** The two listings differ only in the flag: dropping `has_charts` from each flagged summary gives the listing as written. */
  lemma FlaggedListingExtendsListing(table: seq<TradeCrud.Trade>, images: ImageStore.Db, userId: int)
    ensures |ListMyTradesFlagged(table, images, userId)| == |ListMyTrades(table, images, userId)|
    ensures forall k | 0 <= k < |ListMyTrades(table, images, userId)| ::
      ListMyTradesFlagged(table, images, userId)[k] - {HasCharts} == ListMyTrades(table, images, userId)[k]
  {
    FlaggedSummariesExtend(TradeCrud.ListTradesWithChartFlag(table, images, userId, TradeCrud.DefaultLimit, TradeCrud.DefaultOffset));
  }

  /** Row by row, a flagged summary without its flag is the summary as written. */
  lemma FlaggedSummariesExtend(rows: seq<(TradeCrud.Trade, bool)>)
    ensures forall k | 0 <= k < |rows| :: FlaggedSummaries(rows)[k] - {HasCharts} == Summaries(rows)[k]
  {
    forall k | 0 <= k < |rows| ensures FlaggedSummaries(rows)[k] - {HasCharts} == Summaries(rows)[k] {
      assert Summaries(rows)[k] == ToSummaryOut(rows[k].0, rows[k].1);
      assert FlaggedSummaries(rows)[k] == ToFlaggedSummary(rows[k].0, rows[k].1);
      FlaggedSummaryExtends(rows[k].0, rows[k].1);
    }
  }

  /** Declaring `has_charts` adds exactly that field and changes no other. */
  lemma FlaggedSummaryExtends(t: TradeCrud.Trade, hasCharts: bool)
    ensures ToFlaggedSummary(t, hasCharts) - {HasCharts} == ToSummaryOut(t, hasCharts)
  {
    var f := ToFlaggedSummary(t, hasCharts);
    var s := ToSummaryOut(t, hasCharts);
    assert (f - {HasCharts}).Keys == s.Keys;
  }

  /** After a chart upload, the trade's entry in the flagged listing says it has a chart. */
  lemma UploadThenListedWithChart(
    trades: seq<TradeCrud.Trade>, userId: int, tradeId: string,
    contentType: Common.Option<string>, raw: Common.Bytes,
    pil: ImageCodec.Pil, sha: ImageCodec.Hasher, images: ImageStore.Db, k: nat)
    requires ImageStore.Valid(images, sha) && ChartEndpoints.AllWebp(images)
    requires ChartEndpoints.UploadTradeChart(trades, userId, tradeId, contentType, raw, pil, sha, images).0.NoContent?
    requires k < |ListMyTradesFlagged(trades, ChartEndpoints.UploadTradeChart(trades, userId, tradeId, contentType, raw, pil, sha, images).1, userId)|
    requires Id in ListMyTradesFlagged(trades, ChartEndpoints.UploadTradeChart(trades, userId, tradeId, contentType, raw, pil, sha, images).1, userId)[k]
    requires ListMyTradesFlagged(trades, ChartEndpoints.UploadTradeChart(trades, userId, tradeId, contentType, raw, pil, sha, images).1, userId)[k][Id] == Str(tradeId)
    ensures ListMyTradesFlagged(trades, ChartEndpoints.UploadTradeChart(trades, userId, tradeId, contentType, raw, pil, sha, images).1, userId)[k][HasCharts] == Flag(true)
  {
    ChartEndpoints.UploadThenDownload(trades, userId, tradeId, contentType, raw, pil, sha, images);
  }
}
