/**
 * Trade-image storage: the `trade_images` table, the `StoredImage` / `StoredImageData`
 * value types, and the database-backed store's `save`, `get` and `delete`.
 *
 * The table is an immutable map keyed by `(trade_id, kind)`, so the table's uniqueness
 * constraint holds by construction; each operation is a pure transition from one table
 * to the next. Primary keys come from an abstract supply (`nextId`) standing for UUID
 * generation.
 */
module ImageStore {
  import opened Common
  import ImageCodec

  type Hasher = ImageCodec.Hasher

  /** The one image kind in use, and the column's server default. */
  const ChartKind: string := "CHART"

  /** The unique key of a `trade_images` row. */
  datatype Key = Key(tradeId: string, kind: string)

  /** The non-key columns of a `trade_images` row (timestamps left out). */
  datatype Row = Row(id: nat, mime: string, sha256: string, byteSize: int, data: Bytes)

  /** The table, plus the supply of identifiers never handed out yet. */
  datatype Db = Db(rows: map<Key, Row>, nextId: nat)

  /** Metadata of a stored image, without its payload. */
  datatype StoredImage = StoredImage(tradeId: string, kind: string, mime: string, sha256: string, byteSize: int)

  /** A stored image with its payload. */
  datatype StoredImageData = StoredImageData(
    tradeId: string, kind: string, mime: string, sha256: string, byteSize: int, data: Bytes)

  /** The metadata part of a stored image. */
  function Metadata(d: StoredImageData): StoredImage {
    StoredImage(d.tradeId, d.kind, d.mime, d.sha256, d.byteSize)
  }

  /** Extends metadata with a payload: `StoredImageData` is `StoredImage` plus `data`, nothing else. */
  function WithData(m: StoredImage, data: Bytes): (d: StoredImageData)
    ensures Metadata(d) == m && d.data == data
  {
    StoredImageData(m.tradeId, m.kind, m.mime, m.sha256, m.byteSize, data)
  }

  /** Splitting a `StoredImageData` into metadata and payload and joining them again is the identity. */
  lemma MetadataSplit(d: StoredImageData)
    ensures WithData(Metadata(d), d.data) == d
  {
  }

  /** The metadata the store reports for a row under the given key. */
  function Describe(tradeId: string, kind: string, row: Row): StoredImage {
    StoredImage(tradeId, kind, row.mime, row.sha256, row.byteSize)
  }

  /** A row whose size and digest columns agree with its payload. */
  ghost predicate RowMatches(sha: Hasher, row: Row) {
    row.byteSize == |row.data| && row.sha256 == sha(row.data)
  }

  /** The table invariant: every row is self-consistent, and row ids are distinct and already handed out. */
  ghost predicate Valid(db: Db, sha: Hasher) {
    && (forall k | k in db.rows :: RowMatches(sha, db.rows[k]) && db.rows[k].id < db.nextId)
    && (forall k1, k2 | k1 in db.rows && k2 in db.rows && db.rows[k1].id == db.rows[k2].id :: k1 == k2)
  }

  /** The three ways `save` can go. */
  datatype SaveOutcome = Unchanged | Overwritten | Created

  function Classify(db: Db, sha: Hasher, tradeId: string, kind: string, data: Bytes): SaveOutcome {
    var key := Key(tradeId, kind);
    if key in db.rows && db.rows[key].sha256 == sha(data) then Unchanged
    else if key in db.rows then Overwritten
    else Created
  }

  /**
   * `DbTradeImageStore.save`: a no-op when the stored digest equals the new one, an in-place
   * overwrite when it differs, an insert with a fresh id when no row exists. Every branch
   * reports the stored row's metadata and leaves every other key alone.
   */
  function Save(db: Db, sha: Hasher, tradeId: string, kind: string, data: Bytes, mime: string): (r: (Db, StoredImage))
    ensures r.1.tradeId == tradeId && r.1.kind == kind
    ensures r.1.sha256 == sha(data)
    ensures Key(tradeId, kind) in r.0.rows && r.1 == Describe(tradeId, kind, r.0.rows[Key(tradeId, kind)])
    ensures r.0.rows.Keys == db.rows.Keys + {Key(tradeId, kind)}
    ensures forall k | k in db.rows && k != Key(tradeId, kind) :: r.0.rows[k] == db.rows[k]
    ensures Classify(db, sha, tradeId, kind, data) == Unchanged ==>
      r.0 == db && r.1.mime == db.rows[Key(tradeId, kind)].mime && r.1.byteSize == db.rows[Key(tradeId, kind)].byteSize
    ensures Classify(db, sha, tradeId, kind, data) == Overwritten ==>
      r.0.rows[Key(tradeId, kind)] == Row(db.rows[Key(tradeId, kind)].id, mime, sha(data), |data|, data)
      && r.0.nextId == db.nextId
    ensures Classify(db, sha, tradeId, kind, data) == Created ==>
      r.0.rows[Key(tradeId, kind)] == Row(db.nextId, mime, sha(data), |data|, data)
      && r.0.nextId == db.nextId + 1
  {
    var digest := sha(data);
    var key := Key(tradeId, kind);
    if key in db.rows && db.rows[key].sha256 == digest then
      (db, Describe(tradeId, kind, db.rows[key]))
    else if key in db.rows then
      var row := db.rows[key].(data := data, mime := mime, sha256 := digest, byteSize := |data|);
      (db.(rows := db.rows[key := row]), Describe(tradeId, kind, row))
    else
      var row := Row(db.nextId, mime, digest, |data|, data);
      (Db(db.rows[key := row], db.nextId + 1), Describe(tradeId, kind, row))
  }

  /** `DbTradeImageStore.get`: absent exactly when no row exists; otherwise that row's metadata and payload. */
  function Get(db: Db, tradeId: string, kind: string): (r: Option<StoredImageData>)
    ensures r.None? <==> Key(tradeId, kind) !in db.rows
    ensures r.Some? ==>
      var row := db.rows[Key(tradeId, kind)];
      Metadata(r.value) == Describe(tradeId, kind, row) && r.value.data == row.data
  {
    var key := Key(tradeId, kind);
    if key !in db.rows then None
    else
      var row := db.rows[key];
      Some(WithData(Describe(tradeId, kind, row), row.data))
  }

  /** `DbTradeImageStore.delete`: removes the row under the key if there is one; absence is not an error. */
  function Delete(db: Db, tradeId: string, kind: string): (r: Db)
    ensures Key(tradeId, kind) !in r.rows
    ensures r.rows.Keys == db.rows.Keys - {Key(tradeId, kind)}
    ensures forall k | k in r.rows :: r.rows[k] == db.rows[k]
    ensures Key(tradeId, kind) !in db.rows ==> r == db
    ensures r.nextId == db.nextId
  {
    var key := Key(tradeId, kind);
    if key !in db.rows then db else db.(rows := db.rows - {key})
  }

  /** Cascade of a trade's deletion: every image of the trade goes, every other row stays. */
  function DeleteTradeImages(db: Db, tradeId: string): (r: Db)
    ensures forall k | k in r.rows :: k.tradeId != tradeId && k in db.rows && r.rows[k] == db.rows[k]
    ensures forall k | k in db.rows && k.tradeId != tradeId :: k in r.rows
    ensures r.nextId == db.nextId
  {
    db.(rows := map k | k in db.rows && k.tradeId != tradeId :: db.rows[k])
  }

  /** `save` keeps the table invariant. */
  lemma SavePreservesValid(db: Db, sha: Hasher, tradeId: string, kind: string, data: Bytes, mime: string)
    requires Valid(db, sha)
    ensures Valid(Save(db, sha, tradeId, kind, data, mime).0, sha)
  {
  }

  /** `delete` and the trade cascade keep the table invariant. */
  lemma DeletePreservesValid(db: Db, sha: Hasher, tradeId: string, kind: string)
    requires Valid(db, sha)
    ensures Valid(Delete(db, tradeId, kind), sha)
    ensures Valid(DeleteTradeImages(db, tradeId), sha)
  {
  }

  /**
   * Round trip: after `save`, `get` finds the image under the same key with the digest of the
   * new data and a size equal to its payload's. The payload is the new data unless the old row
   * held different bytes with the same digest (a hash collision).
   */
  lemma SaveThenGet(db: Db, sha: Hasher, tradeId: string, kind: string, data: Bytes, mime: string)
    requires Valid(db, sha)
    ensures var got := Get(Save(db, sha, tradeId, kind, data, mime).0, tradeId, kind);
      && got.Some?
      && got.value.tradeId == tradeId && got.value.kind == kind
      && got.value.sha256 == sha(data)
      && got.value.byteSize == |got.value.data|
      && (got.value.data == data <==>
            !(Key(tradeId, kind) in db.rows && db.rows[Key(tradeId, kind)].data != data
              && sha(db.rows[Key(tradeId, kind)].data) == sha(data)))
  {
    var key := Key(tradeId, kind);
    if key in db.rows {
      assert RowMatches(sha, db.rows[key]);
    }
  }

  /** Saving the same bytes twice: the second call writes nothing and reports the same metadata. */
  lemma SaveIdempotent(db: Db, sha: Hasher, tradeId: string, kind: string, data: Bytes, mime: string, mime2: string)
    ensures var (db1, m1) := Save(db, sha, tradeId, kind, data, mime);
      Classify(db1, sha, tradeId, kind, data) == Unchanged
      && Save(db1, sha, tradeId, kind, data, mime2) == (db1, m1)
  {
  }

  /** An overwrite keeps the row's identity and the number of rows. */
  lemma OverwriteKeepsIdentity(db: Db, sha: Hasher, tradeId: string, kind: string, data: Bytes, mime: string)
    requires Key(tradeId, kind) in db.rows
    ensures var db' := Save(db, sha, tradeId, kind, data, mime).0;
      db'.rows[Key(tradeId, kind)].id == db.rows[Key(tradeId, kind)].id && |db'.rows| == |db.rows|
  {
    assert Save(db, sha, tradeId, kind, data, mime).0.rows.Keys == db.rows.Keys;
  }

  /** An insert adds exactly one row, whose id no other row carries. */
  lemma InsertAddsOneFreshRow(db: Db, sha: Hasher, tradeId: string, kind: string, data: Bytes, mime: string)
    requires Valid(db, sha)
    requires Key(tradeId, kind) !in db.rows
    ensures var db' := Save(db, sha, tradeId, kind, data, mime).0;
      && |db'.rows| == |db.rows| + 1
      && forall k | k in db.rows :: db.rows[k].id != db'.rows[Key(tradeId, kind)].id
  {
    var key := Key(tradeId, kind);
    assert Save(db, sha, tradeId, kind, data, mime).0.rows.Keys == db.rows.Keys + {key};
  }

  /** `get` under another key does not see a `save` or a `delete`. */
  lemma OtherKeysUnaffected(db: Db, sha: Hasher, tradeId: string, kind: string, data: Bytes, mime: string,
                            otherTrade: string, otherKind: string)
    requires Key(otherTrade, otherKind) != Key(tradeId, kind)
    ensures Get(Save(db, sha, tradeId, kind, data, mime).0, otherTrade, otherKind) == Get(db, otherTrade, otherKind)
    ensures Get(Delete(db, tradeId, kind), otherTrade, otherKind) == Get(db, otherTrade, otherKind)
  {
  }

  /** After `delete`, `get` reports absence; deleting twice is deleting once. */
  lemma DeleteThenGet(db: Db, tradeId: string, kind: string)
    ensures Get(Delete(db, tradeId, kind), tradeId, kind).None?
    ensures Delete(Delete(db, tradeId, kind), tradeId, kind) == Delete(db, tradeId, kind)
  {
  }

  /** After a trade is deleted, none of its images can be fetched. */
  lemma CascadeRemovesAllImages(db: Db, tradeId: string, kind: string)
    ensures Get(DeleteTradeImages(db, tradeId), tradeId, kind).None?
  {
  }
}
