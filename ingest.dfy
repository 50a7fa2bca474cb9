/** The one-shot loader: it normalises the connection URI, creates the
    indexes, then loads five CSV datasets one after the other. Each dataset is
    cleaned (missing numbers filled, integer columns coerced) and either
    upserted document by document on its key field (books, tags) or inserted
    as one unordered batch (ratings, book_tags, to_read). A failure of one
    dataset is reported and the next one is still loaded.

    Documents are field maps. The download is a parameter: `downloads` maps
    each URL to the table read from it, and a URL it lacks is a failed read. */
module Ingest {
  import opened Common
  import opened Text

  /** A cell of a table, or a field of a stored document; `Missing` is a NaN cell. */
  datatype Value = IntV(i: int) | RealV(r: real) | StrV(s: string) | Missing

  type Doc = map<string, Value>

  /** A table as read from CSV: its column names and one record per row. */
  datatype Frame = Frame(columns: seq<string>, rows: seq<Doc>)

  // ---------------------------------------------------------------------------
  // Connection URI

  /** `__init__`: append `/db_name` unless the URI already ends with it. */
  function NormalizeUri(uri: string, dbName: string): (r: string)
    ensures EndsWith(r, "/" + dbName)
    ensures EndsWith(uri, "/" + dbName) ==> r == uri
    ensures !EndsWith(uri, "/" + dbName) ==> r == uri + "/" + dbName
  {
    if EndsWith(uri, "/" + dbName) then uri
    else
      EndsWithAppended(uri, "/" + dbName);
      assert uri + "/" + dbName == uri + ("/" + dbName);
      uri + "/" + dbName
  }

  lemma NormalizeUriIdempotent(uri: string, dbName: string)
    ensures NormalizeUri(NormalizeUri(uri, dbName), dbName) == NormalizeUri(uri, dbName)
  {
  }

  // ---------------------------------------------------------------------------
  // Cleaning

  /** The `fillna` table: the default of each listed column. */
  const FillDefaults: map<string, Value> := map[
    "original_publication_year" := IntV(0),
    "average_rating" := RealV(0.0),
    "ratings_count" := IntV(0),
    "count" := IntV(0)]

  /** The columns coerced to integers when present. */
  const IntColumns: seq<string> := [
    "book_id", "goodreads_book_id", "work_id", "books_count",
    "original_publication_year", "ratings_count", "work_ratings_count",
    "work_text_reviews_count", "user_id", "tag_id", "count"]

  /** `astype(int)` on a float: truncation toward zero. */
  function Truncate(r: real): (n: int)
    ensures r >= 0.0 ==> 0 <= n && n as real <= r < n as real + 1.0
    ensures r < 0.0 ==> n <= 0 && n as real - 1.0 < r <= n as real
  {
    if r >= 0.0 then r.Floor else -((-r).Floor)
  }

  predicate IsDigit(c: char) {
    '0' <= c <= '9'
  }

  predicate AllDigits(s: string) {
    forall i :: 0 <= i < |s| ==> IsDigit(s[i])
  }

  function DigitsValue(s: string): nat
    requires AllDigits(s)
  {
    if s == [] then 0 else 10 * DigitsValue(s[..|s| - 1]) + (s[|s| - 1] as int - '0' as int)
  }

  /** A decimal integer literal with an optional sign, as `to_numeric` reads it. */
  function ParseInt(s: string): (r: Option<int>)
    ensures s == [] ==> r.None?
    ensures r.Some? ==> (IsDigit(s[0]) || (|s| > 1 && (s[0] == '-' || s[0] == '+')))
    ensures r.Some? ==> forall i :: 0 < i < |s| ==> IsDigit(s[i])
    ensures r.Some? && r.value < 0 ==> s[0] == '-'
  {
    if s != [] && AllDigits(s) then Some(DigitsValue(s))
    else if |s| > 1 && s[0] == '-' && AllDigits(s[1..]) then Some(-(DigitsValue(s[1..]) as int))
    else if |s| > 1 && s[0] == '+' && AllDigits(s[1..]) then Some(DigitsValue(s[1..]))
    else None
  }

  function DigitChar(d: int): char
    requires 0 <= d < 10
  {
    ('0' as int + d) as char
  }

  /** The decimal notation of a natural number, most significant digit first. */
  function Decimal(n: nat): string
  {
    if n < 10 then [DigitChar(n)] else Decimal(n / 10) + [DigitChar(n % 10)]
  }

  /** The decimal notation of an integer, with a `-` when negative. */
  function Signed(i: int): string {
    if i < 0 then "-" + Decimal(-i) else Decimal(i)
  }

  lemma {:induction false} DecimalDigits(n: nat)
    ensures Decimal(n) != [] && AllDigits(Decimal(n)) && DigitsValue(Decimal(n)) == n
  {
    var s := Decimal(n);
    if n >= 10 {
      DecimalDigits(n / 10);
      assert s[..|s| - 1] == Decimal(n / 10);
      forall i | 0 <= i < |s| ensures IsDigit(s[i]) {
        if i < |s| - 1 {
          assert s[i] == Decimal(n / 10)[i];
        }
      }
    }
  }

  /** Reading back the decimal notation of any integer gives that integer,
      and so does a `+`-signed notation of a natural number. */
  lemma ParseIntSigned(i: int, n: nat)
    ensures ParseInt(Signed(i)) == Some(i)
    ensures ParseInt("+" + Decimal(n)) == Some(n)
  {
    DecimalDigits(if i < 0 then -i else i);
    DecimalDigits(n);
    assert ("+" + Decimal(n))[1..] == Decimal(n);
    if i < 0 {
      assert Signed(i)[1..] == Decimal(-i);
    }
  }

  /** `to_numeric(errors='coerce').fillna(0).astype(int)` on one cell. */
  function CoerceInt(v: Value): int {
    match v
    case IntV(i) => i
    case RealV(r) => Truncate(r)
    case StrV(s) => (match ParseInt(s) case Some(n) => n case None => 0)
    case Missing => 0
  }

  /** `fillna` on one cell of column `c`. */
  function Filled(c: string, v: Value): Value {
    if c in FillDefaults && v.Missing? then FillDefaults[c] else v
  }

  /** One cell after cleaning: filled, then coerced to an integer when its
      column is an integer column of the table. */
  function CleanedCell(inTable: bool, c: string, v: Value): (r: Value)
    ensures inTable && c in IntColumns ==> r.IntV?
    ensures inTable && c in IntColumns && v.Missing? ==> r == IntV(0)
    ensures c in FillDefaults && v.Missing? ==> r == if c == "average_rating" then RealV(0.0) else IntV(0)
    ensures inTable && c in IntColumns && v.IntV? ==> r == v
    ensures inTable && c in IntColumns && v.RealV? ==> r == IntV(Truncate(v.r))
    ensures inTable && c in IntColumns && v.StrV? ==> r == IntV(match ParseInt(v.s) case Some(n) => n case None => 0)
    ensures (c !in IntColumns || !inTable) && !(c in FillDefaults && v.Missing?) ==> r == v
  {
    var f := Filled(c, v);
    if inTable && c in IntColumns then IntV(CoerceInt(f)) else f
  }

  /** Text that is not an integer literal becomes 0 in an integer column:
      one character `s[k]` that is neither a digit nor a leading sign suffices. */
  lemma NonNumericTextIsZero(c: string, s: string, k: int)
    requires c in IntColumns
    requires 0 <= k < |s| && !IsDigit(s[k]) && !(k == 0 && |s| > 1 && (s[0] == '-' || s[0] == '+'))
    ensures CleanedCell(true, c, StrV(s)) == IntV(0)
  {
  }

  /** A text cell holding the decimal notation of an integer becomes that integer. */
  lemma DecimalTextIsRead(c: string, i: int)
    requires c in IntColumns
    ensures CleanedCell(true, c, StrV(Signed(i))) == IntV(i)
  {
    ParseIntSigned(i, 0);
  }

  /** `clean_dataframe` as a value: every cell of every row cleaned in place. */
  function Cleaned(df: Frame): Frame
  {
    Frame(df.columns, seq(|df.rows|, i requires 0 <= i < |df.rows| =>
      map c | c in df.rows[i] :: CleanedCell(c in df.columns, c, df.rows[i][c])))
  }

  /** `df.fillna({...})`. */
  function FillMissing(rows: seq<Doc>): seq<Doc>
  {
    seq(|rows|, i requires 0 <= i < |rows| => map c | c in rows[i] :: Filled(c, rows[i][c]))
  }

  /** `df[col] = pd.to_numeric(df[col], errors='coerce').fillna(0).astype(int)`. */
  function ConvertColumn(rows: seq<Doc>, col: string): seq<Doc>
  {
    seq(|rows|, i requires 0 <= i < |rows| =>
      if col in rows[i] then rows[i][col := IntV(CoerceInt(rows[i][col]))] else rows[i])
  }

  /** One cell after the fill and the conversion of the first `k` integer columns. */
  ghost function CellUpTo(k: nat, inTable: bool, c: string, v: Value): Value
    requires k <= |IntColumns|
  {
    if c in IntColumns[..k] && inTable then IntV(CoerceInt(Filled(c, v))) else Filled(c, v)
  }

  /** The rows after the fill and the conversion of the first `k` integer columns. */
  ghost predicate ConvertedUpTo(rows: seq<Doc>, df: Frame, k: nat)
    requires k <= |IntColumns|
  {
    && |rows| == |df.rows|
    && (forall i :: 0 <= i < |rows| ==> rows[i].Keys == df.rows[i].Keys)
    && forall i, c :: 0 <= i < |rows| && c in rows[i] ==>
         rows[i][c] == CellUpTo(k, c in df.columns, c, df.rows[i][c])
  }

  lemma FillStart(df: Frame)
    ensures ConvertedUpTo(FillMissing(df.rows), df, 0)
  {
  }

  /** Converting column `IntColumns[k]` of a cell that has seen the first `k`
      conversions gives the cell after `k + 1`; a cell of any other column is
      unchanged by the step. */
  lemma CellStep(k: nat, inTable: bool, c: string, v: Value, cur: Value)
    requires k < |IntColumns| && cur == CellUpTo(k, inTable, c, v)
    ensures (if c == IntColumns[k] && inTable then IntV(CoerceInt(cur)) else cur) == CellUpTo(k + 1, inTable, c, v)
  {
    assert IntColumns[..k + 1] == IntColumns[..k] + [IntColumns[k]];
  }

  lemma ConvertStep(rows: seq<Doc>, df: Frame, k: nat)
    requires k < |IntColumns| && ConvertedUpTo(rows, df, k)
    ensures ConvertedUpTo(if IntColumns[k] in df.columns then ConvertColumn(rows, IntColumns[k]) else rows, df, k + 1)
  {
    var col := IntColumns[k];
    var next := if col in df.columns then ConvertColumn(rows, col) else rows;
    forall i, c | 0 <= i < |next| && c in next[i]
      ensures next[i][c] == CellUpTo(k + 1, c in df.columns, c, df.rows[i][c])
    {
      assert next[i][c] == if c == col && c in df.columns then IntV(CoerceInt(rows[i][c])) else rows[i][c];
      CellStep(k, c in df.columns, c, df.rows[i][c], rows[i][c]);
    }
  }

  lemma ConvertDone(rows: seq<Doc>, df: Frame)
    requires ConvertedUpTo(rows, df, |IntColumns|)
    ensures Frame(df.columns, rows) == Cleaned(df)
  {
    assert IntColumns[..|IntColumns|] == IntColumns;
    forall i | 0 <= i < |rows| ensures rows[i] == Cleaned(df).rows[i] {
      assert rows[i].Keys == Cleaned(df).rows[i].Keys;
    }
  }

  /** `clean_dataframe`: fill the defaults, then convert the integer columns
      present in the table one after the other. */
  method CleanDataFrame(df: Frame) returns (out: Frame)
    ensures out == Cleaned(df)
  {
    var rows := FillMissing(df.rows);
    FillStart(df);
    for k := 0 to |IntColumns|
      invariant ConvertedUpTo(rows, df, k)
    {
      ConvertStep(rows, df, k);
      var col := IntColumns[k];
      if col in df.columns {
        rows := ConvertColumn(rows, col);
      }
    }
    ConvertDone(rows, df);
    out := Frame(df.columns, rows);
  }

  // ---------------------------------------------------------------------------
  // The store and its unique indexes

  /** The unique indexes `create_indexes` builds, by collection. */
  function UniqueKey(name: string): Option<seq<string>> {
    if name == "books" then Some(["book_id"])
    else if name == "ratings" then Some(["user_id", "book_id"])
    else if name == "tags" then Some(["tag_id"])
    else if name == "to_read" then Some(["user_id", "book_id"])
    else None
  }

  /** The index key of a document; an absent field indexes as null. */
  function KeyOf(d: Doc, fields: seq<string>): seq<Option<Value>> {
    if fields == [] then []
    else [if fields[0] in d then Some(d[fields[0]]) else None] + KeyOf(d, fields[1..])
  }

  predicate UniqueOn(docs: seq<Doc>, fields: seq<string>) {
    forall i, j | 0 <= i < j < |docs| :: KeyOf(docs[i], fields) != KeyOf(docs[j], fields)
  }

  /** Every collection satisfies the unique index declared for it. */
  predicate IndexesHold(colls: map<string, seq<Doc>>) {
    forall n | n in colls && UniqueKey(n).Some? :: UniqueOn(colls[n], UniqueKey(n).value)
  }

  /** A collection the store does not hold yet is empty. */
  function Coll(colls: map<string, seq<Doc>>, name: string): seq<Doc> {
    if name in colls then colls[name] else []
  }

  // ---------------------------------------------------------------------------
  // Upsert by key

  /** The first document whose field `f` equals `v`. */
  function FindByField(docs: seq<Doc>, f: string, v: Value): (r: Option<nat>)
    ensures r.Some? ==> r.value < |docs| && f in docs[r.value] && docs[r.value][f] == v
    ensures r.Some? ==> forall j :: 0 <= j < r.value ==> !(f in docs[j] && docs[j][f] == v)
    ensures r.None? <==> forall j :: 0 <= j < |docs| ==> !(f in docs[j] && docs[j][f] == v)
  {
    if docs == [] then None
    else if f in docs[0] && docs[0][f] == v then Some(0)
    else match FindByField(docs[1..], f, v)
      case None => None
      case Some(i) => Some(i + 1)
  }

  /** `update_one({f: rec[f]}, {"$set": rec}, upsert=True)`: merge the record
      into the first document with that key, or insert the record. */
  function UpsertDoc(docs: seq<Doc>, rec: Doc, f: string): seq<Doc>
    requires f in rec
  {
    match FindByField(docs, f, rec[f])
    case Some(i) => docs[i := docs[i] + rec]
    case None => docs + [rec]
  }

  datatype IngestError = DownloadFailed | MissingIdField | DuplicateKey | EmptyBatch

  /** The collection after a run of store writes, and the error that stopped it, if any. */
  datatype Applied = Applied(docs: seq<Doc>, error: Option<IngestError>)

  /** The upsert loop of `ingest_collection`: records in order, stopping at the
      first record without the key field (`KeyError`) or whose write a unique
      index `key` rejects; the writes before it stay. */
  function UpsertRecords(docs: seq<Doc>, recs: seq<Doc>, f: string, key: Option<seq<string>>): Applied {
    if recs == [] then Applied(docs, None)
    else
      var prev := UpsertRecords(docs, recs[..|recs| - 1], f, key);
      var rec := recs[|recs| - 1];
      if prev.error.Some? then prev
      else if f !in rec then Applied(prev.docs, Some(MissingIdField))
      else
        var next := UpsertDoc(prev.docs, rec, f);
        if key.Some? && !UniqueOn(next, key.value) then Applied(prev.docs, Some(DuplicateKey))
        else Applied(next, None)
  }

  // ---------------------------------------------------------------------------
  // Unordered batch insert

  /** `insert_many(records, ordered=False)` against the unique index `key`:
      each record is inserted unless its key is already taken, and the batch
      reports whether every record went in. */
  function InsertMany(docs: seq<Doc>, recs: seq<Doc>, key: Option<seq<string>>): Applied {
    if recs == [] then Applied(docs, None)
    else
      var prev := InsertMany(docs, recs[..|recs| - 1], key);
      var rec := recs[|recs| - 1];
      if key.Some? && exists i | 0 <= i < |prev.docs| :: KeyOf(prev.docs[i], key.value) == KeyOf(rec, key.value)
      then Applied(prev.docs, Some(DuplicateKey))
      else Applied(prev.docs + [rec], prev.error)
  }

  // ---------------------------------------------------------------------------
  // One dataset

  datatype Outcome = Ingested(records: nat) | Failed(error: IngestError)

  datatype Loaded = Loaded(collections: map<string, seq<Doc>>, outcome: Outcome)

  /** `ingest_collection` as a value: what the store holds afterwards and what
      is reported. A failed read writes nothing; an empty key-field name counts
      as no key field; an empty batch is refused before any write. */
  function IngestSpec(colls: map<string, seq<Doc>>, indexed: bool, name: string,
                      download: Option<Frame>, idField: Option<string>): Loaded
  {
    match download
    case None => Loaded(colls, Failed(DownloadFailed))
    case Some(frame) =>
      var recs := Cleaned(frame).rows;
      var docs := Coll(colls, name);
      var key := if indexed then UniqueKey(name) else None;
      if idField.Some? && idField.value != "" then
        var a := UpsertRecords(docs, recs, idField.value, key);
        Loaded(colls[name := a.docs], if a.error.Some? then Failed(a.error.value) else Ingested(|recs|))
      else if recs == [] then Loaded(colls, Failed(EmptyBatch))
      else
        var a := InsertMany(docs, recs, key);
        Loaded(colls[name := a.docs], if a.error.Some? then Failed(a.error.value) else Ingested(|recs|))
  }

  // ---------------------------------------------------------------------------
  // All datasets

  const BaseUrl: string := "https://raw.githubusercontent.com/zygmuntz/goodbooks-10k/master/"

  /** The datasets, in the order they are loaded. */
  const Datasets: seq<string> := ["books", "ratings", "tags", "book_tags", "to_read"]

  /** `f"{base_url}{folder}{name}.csv"` with `folder` "samples/" or empty. */
  function DatasetUrl(name: string, useSamples: bool): string {
    BaseUrl + (if useSamples then "samples/" else "") + name + ".csv"
  }

  /** `id_fields.get(name)`: the upsert key of a dataset, if it has one. */
  function IdField(name: string): Option<string> {
    if name == "books" then Some("book_id")
    else if name == "tags" then Some("tag_id")
    else None
  }

  /** `pd.read_csv(csv_url)`: the table downloaded from `url`, if the download succeeds. */
  function Fetch(downloads: map<string, Frame>, url: string): Option<Frame> {
    if url in downloads then Some(downloads[url]) else None
  }

  /** A download that fails is reported and writes nothing; one that succeeds
      hands its table to the cleaning step. */
  lemma FetchOutcome(downloads: map<string, Frame>, url: string, colls: map<string, seq<Doc>>,
                     indexed: bool, name: string, idField: Option<string>)
    ensures Fetch(downloads, url).None? <==> url !in downloads
    ensures url in downloads ==> Fetch(downloads, url) == Some(downloads[url])
    ensures url !in downloads ==>
      IngestSpec(colls, indexed, name, Fetch(downloads, url), idField) == Loaded(colls, Failed(DownloadFailed))
  { }

  datatype Report = Report(collection: string, outcome: Outcome)

  datatype Run = Run(collections: map<string, seq<Doc>>, reports: seq<Report>)

  /** The first `n` datasets loaded in order against indexed collections, each
      one whatever became of the ones before it. */
  function RunDatasets(colls: map<string, seq<Doc>>, downloads: map<string, Frame>, useSamples: bool, n: nat): Run
    requires n <= |Datasets|
  {
    if n == 0 then Run(colls, [])
    else
      var prev := RunDatasets(colls, downloads, useSamples, n - 1);
      var name := Datasets[n - 1];
      var l := IngestSpec(prev.collections, true, name, Fetch(downloads, DatasetUrl(name, useSamples)), IdField(name));
      Run(l.collections, prev.reports + [Report(name, l.outcome)])
  }

  /** The upsert loop of `ingest_collection`: one `update_one` per record,
      leaving the loop at the first record that fails. */
  method UpsertAll(docs: seq<Doc>, records: seq<Doc>, f: string, key: Option<seq<string>>) returns (a: Applied)
    ensures a == UpsertRecords(docs, records, f, key)
  {
    var current := docs;
    for i := 0 to |records|
      invariant UpsertRecords(docs, records[..i], f, key) == Applied(current, None)
    {
      assert records[..i + 1][..i] == records[..i];
      var rec := records[i];
      if f !in rec {
        UpsertErrorSticks(docs, records, f, key, i + 1);
        return Applied(current, Some(MissingIdField));
      }
      var next := UpsertDoc(current, rec, f);
      if key.Some? && !UniqueOn(next, key.value) {
        UpsertErrorSticks(docs, records, f, key, i + 1);
        return Applied(current, Some(DuplicateKey));
      }
      current := next;
    }
    assert records[..|records|] == records;
    return Applied(current, None);
  }

  class DataIngestor {
    const uri: string
    const dbName: string
    var collections: map<string, seq<Doc>>
    /** Whether the unique indexes of `create_indexes` exist. */
    var indexed: bool

    ghost predicate Valid()
      reads this
    {
      indexed ==> IndexesHold(collections)
    }

    /** Connects to `mongo_uri` normalised to end in `/db_name`; the store's
        current contents and indexes are given. */
    constructor (mongoUri: string, dbName: string, existing: map<string, seq<Doc>>, indexed: bool)
      requires indexed ==> IndexesHold(existing)
      ensures Valid()
      ensures uri == NormalizeUri(mongoUri, dbName) && this.dbName == dbName
      ensures collections == existing && this.indexed == indexed
    {
      uri := NormalizeUri(mongoUri, dbName);
      this.dbName := dbName;
      collections := existing;
      this.indexed := indexed;
    }

    /** `create_indexes`: building a unique index fails on data that already
        violates it, and that exception is not caught. */
    method CreateIndexes() returns (ok: bool)
      requires Valid()
      modifies this
      ensures Valid()
      ensures collections == old(collections)
      ensures ok == IndexesHold(collections)
      ensures indexed == (old(indexed) || ok)
    {
      ok := IndexesHold(collections);
      if ok {
        indexed := true;
      }
    }

    /** `ingest_collection`: read, clean, then upsert by `idField` record by
        record, or insert the whole batch; every failure is caught and reported. */
    method IngestCollection(name: string, download: Option<Frame>, idField: Option<string>) returns (o: Outcome)
      requires Valid()
      modifies this
      ensures Valid() && indexed == old(indexed)
      ensures Loaded(collections, o) == IngestSpec(old(collections), indexed, name, download, idField)
    {
      if download.None? {
        return Failed(DownloadFailed);
      }
      var df := CleanDataFrame(download.value);
      var records := df.rows;
      var docs := Coll(collections, name);
      var key := if indexed then UniqueKey(name) else None;
      var a: Applied;
      if idField.Some? && idField.value != "" {
        a := UpsertAll(docs, records, idField.value, key);
        UpsertKeepsUnique(docs, records, idField.value, key);
      } else if records == [] {
        return Failed(EmptyBatch);
      } else {
        a := InsertMany(docs, records, key);
        InsertManyKeepsUnique(docs, records, key);
      }
      IndexesHoldUpdate(collections, indexed, name, a.docs);
      collections := collections[name := a.docs];
      o := if a.error.Some? then Failed(a.error.value) else Ingested(|records|);
    }

    /** `ingest_all_data`: create the indexes, then load every dataset in
        order from its URL with its key field. `None` when index creation
        raised and the run stopped before loading anything. */
    method IngestAllData(useSamples: bool, downloads: map<string, Frame>) returns (r: Option<seq<Report>>)
      requires Valid()
      modifies this
      ensures Valid()
      ensures !IndexesHold(old(collections)) ==> r.None? && collections == old(collections)
      ensures IndexesHold(old(collections)) ==>
        && indexed
        && r == Some(RunDatasets(old(collections), downloads, useSamples, |Datasets|).reports)
        && collections == RunDatasets(old(collections), downloads, useSamples, |Datasets|).collections
    {
      var ok := CreateIndexes();
      if !ok {
        return None;
      }
      var reports: seq<Report> := [];
      for n := 0 to |Datasets|
        invariant Valid() && indexed
        invariant Run(collections, reports) == RunDatasets(old(collections), downloads, useSamples, n)
      {
        var name := Datasets[n];
        var outcome := IngestCollection(name, Fetch(downloads, DatasetUrl(name, useSamples)), IdField(name));
        reports := reports + [Report(name, outcome)];
      }
      return Some(reports);
    }
  }

  // ---------------------------------------------------------------------------
  // Properties

  /** Once a run of upserts has stopped, later records change nothing. */
  lemma {:induction false} UpsertErrorSticks(docs: seq<Doc>, recs: seq<Doc>, f: string, key: Option<seq<string>>, i: nat)
    requires i <= |recs|
    requires UpsertRecords(docs, recs[..i], f, key).error.Some?
    ensures UpsertRecords(docs, recs, f, key) == UpsertRecords(docs, recs[..i], f, key)
    decreases |recs| - i
  {
    if i < |recs| {
      assert recs[..i + 1][..i] == recs[..i];
      UpsertErrorSticks(docs, recs, f, key, i + 1);
    } else {
      assert recs[..i] == recs;
    }
  }

  /** An upsert run never breaks the unique index it runs against. */
  lemma {:induction false} UpsertKeepsUnique(docs: seq<Doc>, recs: seq<Doc>, f: string, key: Option<seq<string>>)
    requires key.Some? ==> UniqueOn(docs, key.value)
    ensures key.Some? ==> UniqueOn(UpsertRecords(docs, recs, f, key).docs, key.value)
  {
    if recs != [] {
      UpsertKeepsUnique(docs, recs[..|recs| - 1], f, key);
    }
  }

  /** Writing one collection keeps the index invariant when the new contents
      satisfy that collection's unique index, if it is built. */
  lemma IndexesHoldUpdate(colls: map<string, seq<Doc>>, indexed: bool, name: string, docs: seq<Doc>)
    requires indexed ==> IndexesHold(colls)
    requires indexed && UniqueKey(name).Some? ==> UniqueOn(docs, UniqueKey(name).value)
    ensures indexed ==> IndexesHold(colls[name := docs])
  {
  }

  /** The single-field index key, `null` when the field is absent. */
  function KeyVal(d: Doc, f: string): Option<Value> {
    if f in d then Some(d[f]) else None
  }

  predicate HasKey(d: Doc, f: string, v: Value) {
    f in d && d[f] == v
  }

  lemma KeyOfSingle(d: Doc, f: string)
    ensures KeyOf(d, [f]) == [KeyVal(d, f)]
  {
    assert [f][1..] == [];
  }

  lemma UniqueOnSingle(docs: seq<Doc>, f: string)
    ensures UniqueOn(docs, [f]) <==> forall i, j :: 0 <= i < j < |docs| ==> KeyVal(docs[i], f) != KeyVal(docs[j], f)
  {
    forall d: Doc {
      KeyOfSingle(d, f);
    }
  }

  /** Where `UpsertDoc` writes: the first document with the record's key, or
      the end of the collection. */
  function UpsertIndex(docs: seq<Doc>, rec: Doc, f: string): nat
    requires f in rec
  {
    match FindByField(docs, f, rec[f])
    case Some(i) => i
    case None => |docs|
  }

  /** One `update_one(..., upsert=True)`: the record's fields are written over
      the first document with its key, or the record is appended; no other
      document changes and every document keeps its key. */
  lemma UpsertDocStep(docs: seq<Doc>, rec: Doc, f: string)
    requires f in rec
    ensures var next := UpsertDoc(docs, rec, f);
      var w := UpsertIndex(docs, rec, f);
      && |docs| <= |next| <= |docs| + 1
      && w < |next|
      && next[w] == (if w < |docs| then docs[w] + rec else rec)
      && HasKey(next[w], f, rec[f])
      && (forall i :: 0 <= i < |docs| && i != w ==> next[i] == docs[i])
      && (forall i :: 0 <= i < |docs| ==> KeyVal(next[i], f) == KeyVal(docs[i], f))
  {
  }

  /** Against documents unique on `f` the written document is the only one
      with the record's key, before and after, and the key stays unique. */
  lemma UpsertDocUnique(docs: seq<Doc>, rec: Doc, f: string)
    requires f in rec && UniqueOn(docs, [f])
    ensures var next := UpsertDoc(docs, rec, f);
      var w := UpsertIndex(docs, rec, f);
      && UniqueOn(next, [f])
      && (forall i :: 0 <= i < |docs| && HasKey(docs[i], f, rec[f]) ==> i == w)
      && (forall i :: 0 <= i < |next| && HasKey(next[i], f, rec[f]) ==> i == w)
  {
    UpsertDocStep(docs, rec, f);
    UniqueOnSingle(docs, f);
    var next := UpsertDoc(docs, rec, f);
    var w := UpsertIndex(docs, rec, f);
    forall i | 0 <= i < |docs| && HasKey(docs[i], f, rec[f]) ensures i == w {
      assert FindByField(docs, f, rec[f]).Some?;
      assert KeyVal(docs[i], f) == KeyVal(docs[w], f);
    }
    forall i | 0 <= i < |next| && HasKey(next[i], f, rec[f]) ensures i == w {
      if i < |docs| {
        assert HasKey(docs[i], f, rec[f]);
      }
    }
    UniqueOnSingle(next, f);
  }

  /** No record of `recs` with the key of `d` sets field `k`. */
  predicate NotSetFor(recs: seq<Doc>, f: string, d: Doc, k: string) {
    forall j :: 0 <= j < |recs| && f in d && HasKey(recs[j], f, d[f]) ==> k !in recs[j]
  }

  /** `recs[j]` is the last record with its key. */
  predicate LastFor(recs: seq<Doc>, f: string, j: int)
    requires 0 <= j < |recs|
  {
    f in recs[j] && forall j' :: j < j' < |recs| ==> !HasKey(recs[j'], f, recs[j][f])
  }

  /** One more record of a run that has not failed, under its own key's index. */
  lemma UpsertRecordsStep(docs: seq<Doc>, recs: seq<Doc>, f: string, key: Option<seq<string>>)
    requires recs != [] && f in recs[|recs| - 1]
    requires key == None || key == Some([f])
    requires var prev := UpsertRecords(docs, recs[..|recs| - 1], f, key);
      prev.error.None? && UniqueOn(prev.docs, [f])
    ensures var prev := UpsertRecords(docs, recs[..|recs| - 1], f, key);
      UpsertRecords(docs, recs, f, key) == Applied(UpsertDoc(prev.docs, recs[|recs| - 1], f), None)
  {
    var prev := UpsertRecords(docs, recs[..|recs| - 1], f, key);
    UpsertDocUnique(prev.docs, recs[|recs| - 1], f);
  }

  /** A run of keyed upserts over records that all carry the key field, on
      documents unique on it, with the unique index on that field or without
      one: no write fails, the key stays unique, documents keep their places
      and their keys, and new ones are appended. */
  lemma {:induction false} UpsertByKey(docs: seq<Doc>, recs: seq<Doc>, f: string, key: Option<seq<string>>)
    requires UniqueOn(docs, [f])
    requires key == None || key == Some([f])
    requires forall j :: 0 <= j < |recs| ==> f in recs[j]
    ensures var a := UpsertRecords(docs, recs, f, key);
      && a.error.None?
      && UniqueOn(a.docs, [f])
      && |docs| <= |a.docs|
      && (forall i :: 0 <= i < |docs| ==> KeyVal(a.docs[i], f) == KeyVal(docs[i], f))
  {
    if recs != [] {
      var pre := recs[..|recs| - 1];
      UpsertByKey(docs, pre, f, key);
      var prev := UpsertRecords(docs, pre, f, key);
      UpsertRecordsStep(docs, recs, f, key);
      UpsertDocStep(prev.docs, recs[|recs| - 1], f);
      UpsertDocUnique(prev.docs, recs[|recs| - 1], f);
    }
  }

  /** After the run some document holds the key of record `j`. */
  lemma {:induction false} UpsertKeyStored(docs: seq<Doc>, recs: seq<Doc>, f: string, key: Option<seq<string>>, j: int)
    requires UniqueOn(docs, [f])
    requires key == None || key == Some([f])
    requires forall j' :: 0 <= j' < |recs| ==> f in recs[j']
    requires 0 <= j < |recs|
    ensures FindByField(UpsertRecords(docs, recs, f, key).docs, f, recs[j][f]).Some?
  {
    var n := |recs|;
    var pre := recs[..n - 1];
    var rec := recs[n - 1];
    UpsertRunStep(docs, recs, f, key);
    var prev := UpsertRecords(docs, pre, f, key);
    var next := UpsertDoc(prev.docs, rec, f);
    if j < n - 1 {
      UpsertKeyStored(docs, pre, f, key, j);
      var i := FindByField(prev.docs, f, pre[j][f]).value;
      UpsertKeepsKey(prev.docs, rec, f, recs[j][f], i);
      HeldKeyFound(next, f, recs[j][f], i);
    } else {
      UpsertFindsOwnKey(prev.docs, rec, f);
    }
  }

  /** After one upsert the record's key is held by some document. */
  lemma UpsertFindsOwnKey(docs: seq<Doc>, rec: Doc, f: string)
    requires f in rec
    ensures FindByField(UpsertDoc(docs, rec, f), f, rec[f]).Some?
  {
    UpsertDocStep(docs, rec, f);
    HeldKeyFound(UpsertDoc(docs, rec, f), f, rec[f], UpsertIndex(docs, rec, f));
  }

  lemma HeldKeyFound(docs: seq<Doc>, f: string, v: Value, i: int)
    requires 0 <= i < |docs| && HasKey(docs[i], f, v)
    ensures FindByField(docs, f, v).Some?
  {
  }

  /** A document keeps its place and its key through one upsert. */
  lemma UpsertKeepsKey(docs: seq<Doc>, rec: Doc, f: string, v: Value, i: int)
    requires f in rec && 0 <= i < |docs| && HasKey(docs[i], f, v)
    ensures i < |UpsertDoc(docs, rec, f)| && HasKey(UpsertDoc(docs, rec, f)[i], f, v)
  {
    UpsertDocStep(docs, rec, f);
    assert KeyVal(UpsertDoc(docs, rec, f)[i], f) == KeyVal(docs[i], f);
  }

  /** After the run exactly one document holds each record's key: the first
      one holding it is the only one. */
  lemma UpsertOnePerKey(docs: seq<Doc>, recs: seq<Doc>, f: string, key: Option<seq<string>>)
    requires UniqueOn(docs, [f])
    requires key == None || key == Some([f])
    requires forall j :: 0 <= j < |recs| ==> f in recs[j]
    ensures var a := UpsertRecords(docs, recs, f, key);
      forall j :: 0 <= j < |recs| ==>
        && FindByField(a.docs, f, recs[j][f]).Some?
        && forall i :: 0 <= i < |a.docs| && HasKey(a.docs[i], f, recs[j][f]) ==> i == FindByField(a.docs, f, recs[j][f]).value
  {
    var a := UpsertRecords(docs, recs, f, key);
    UpsertByKey(docs, recs, f, key);
    UniqueOnSingle(a.docs, f);
    forall j | 0 <= j < |recs| ensures FindByField(a.docs, f, recs[j][f]).Some? {
      UpsertKeyStored(docs, recs, f, key, j);
    }
    forall j, i | 0 <= j < |recs| && 0 <= i < |a.docs| && HasKey(a.docs[i], f, recs[j][f])
      ensures i == FindByField(a.docs, f, recs[j][f]).value
    {
      var h := FindByField(a.docs, f, recs[j][f]).value;
      assert KeyVal(a.docs[i], f) == KeyVal(a.docs[h], f);
    }
  }

  /** The document holding a key carries every field of the last record with
      that key: for any such record `recs[j]`, document `i` and field `k`. */
  lemma {:induction false} UpsertLastWins(docs: seq<Doc>, recs: seq<Doc>, f: string, key: Option<seq<string>>,
                                          j: int, i: int, k: string)
    requires UniqueOn(docs, [f])
    requires key == None || key == Some([f])
    requires forall j' :: 0 <= j' < |recs| ==> f in recs[j']
    requires 0 <= j < |recs| && LastFor(recs, f, j) && k in recs[j]
    requires var a := UpsertRecords(docs, recs, f, key);
      0 <= i < |a.docs| && HasKey(a.docs[i], f, recs[j][f])
    ensures var a := UpsertRecords(docs, recs, f, key);
      k in a.docs[i] && a.docs[i][k] == recs[j][k]
  {
    var n := |recs|;
    var pre := recs[..n - 1];
    var rec := recs[n - 1];
    UpsertRunStep(docs, recs, f, key);
    var prev := UpsertRecords(docs, pre, f, key);
    if j < n - 1 {
      LastForPrefix(recs, f, j);
      UpsertOtherKey(prev.docs, rec, f, recs[j][f], i);
      UpsertLastWins(docs, pre, f, key, j, i, k);
    } else {
      UpsertOwnKey(prev.docs, rec, f, i, k);
    }
  }

  /** The last step of a keyed run: the records before it keep the key unique,
      and the run ends with one more upsert. */
  lemma UpsertRunStep(docs: seq<Doc>, recs: seq<Doc>, f: string, key: Option<seq<string>>)
    requires UniqueOn(docs, [f])
    requires key == None || key == Some([f])
    requires forall j :: 0 <= j < |recs| ==> f in recs[j]
    requires recs != []
    ensures forall j :: 0 <= j < |recs| - 1 ==> f in recs[..|recs| - 1][j] && recs[..|recs| - 1][j] == recs[j]
    ensures var prev := UpsertRecords(docs, recs[..|recs| - 1], f, key);
      && UniqueOn(prev.docs, [f])
      && UpsertRecords(docs, recs, f, key).docs == UpsertDoc(prev.docs, recs[|recs| - 1], f)
  {
    UpsertByKey(docs, recs[..|recs| - 1], f, key);
    UpsertRecordsStep(docs, recs, f, key);
  }

  /** A document holding another key after one upsert was there before, unchanged. */
  lemma UpsertOtherKey(docs: seq<Doc>, rec: Doc, f: string, v: Value, i: int)
    requires f in rec && rec[f] != v
    requires 0 <= i < |UpsertDoc(docs, rec, f)| && HasKey(UpsertDoc(docs, rec, f)[i], f, v)
    ensures i < |docs| && UpsertDoc(docs, rec, f)[i] == docs[i]
  {
    UpsertDocStep(docs, rec, f);
  }

  /** Under a unique key, the document holding the record's key after one
      upsert carries every field of the record. */
  lemma UpsertOwnKey(docs: seq<Doc>, rec: Doc, f: string, i: int, k: string)
    requires f in rec && k in rec && UniqueOn(docs, [f])
    requires 0 <= i < |UpsertDoc(docs, rec, f)| && HasKey(UpsertDoc(docs, rec, f)[i], f, rec[f])
    ensures k in UpsertDoc(docs, rec, f)[i] && UpsertDoc(docs, rec, f)[i][k] == rec[k]
  {
    UpsertDocStep(docs, rec, f);
    UpsertDocUnique(docs, rec, f);
  }

  lemma LastForPrefix(recs: seq<Doc>, f: string, j: int)
    requires 0 <= j < |recs| - 1 && LastFor(recs, f, j)
    ensures recs[..|recs| - 1][j] == recs[j]
    ensures LastFor(recs[..|recs| - 1], f, j)
    ensures !HasKey(recs[|recs| - 1], f, recs[j][f])
  {
  }

  /** A field that no record for a document's key sets keeps its value: `$set`
      writes only the record's own fields. For any document `i` and field `k`. */
  lemma {:induction false} UpsertKeepsFields(docs: seq<Doc>, recs: seq<Doc>, f: string, key: Option<seq<string>>,
                                             i: int, k: string)
    requires UniqueOn(docs, [f])
    requires key == None || key == Some([f])
    requires forall j :: 0 <= j < |recs| ==> f in recs[j]
    requires 0 <= i < |docs| && k in docs[i] && NotSetFor(recs, f, docs[i], k)
    ensures var a := UpsertRecords(docs, recs, f, key);
      i < |a.docs| && k in a.docs[i] && a.docs[i][k] == docs[i][k]
  {
    UpsertByKey(docs, recs, f, key);
    if recs != [] {
      var n := |recs|;
      var pre := recs[..n - 1];
      var rec := recs[n - 1];
      assert NotSetFor(pre, f, docs[i], k) by {
        forall j | 0 <= j < |pre| && f in docs[i] && HasKey(pre[j], f, docs[i][f]) ensures k !in pre[j] {
          assert pre[j] == recs[j];
        }
      }
      UpsertKeepsFields(docs, pre, f, key, i, k);
      UpsertByKey(docs, pre, f, key);
      var prev := UpsertRecords(docs, pre, f, key);
      UpsertDocStep(prev.docs, rec, f);
      UpsertRecordsStep(docs, recs, f, key);
      var w := UpsertIndex(prev.docs, rec, f);
      if i == w {
        assert KeyVal(prev.docs[i], f) == KeyVal(docs[i], f);
        assert HasKey(prev.docs[w], f, rec[f]);
        assert HasKey(recs[n - 1], f, docs[i][f]);
        assert k !in rec;
      }
    }
  }

  /** Books and tags, loaded against their unique index from a table whose
      rows all carry the key field: every record is upserted, the dataset is
      reported with its record count, and the collection holds one document per
      key. */
  lemma KeyedDatasetLoads(colls: map<string, seq<Doc>>, name: string, frame: Frame)
    requires name == "books" || name == "tags"
    requires IndexesHold(colls)
    requires forall j :: 0 <= j < |frame.rows| ==> IdField(name).value in frame.rows[j]
    ensures var f := IdField(name).value;
      var l := IngestSpec(colls, true, name, Some(frame), IdField(name));
      && l.outcome == Ingested(|frame.rows|)
      && name in l.collections
      && l.collections[name] == UpsertRecords(Coll(colls, name), Cleaned(frame).rows, f, Some([f])).docs
      && UniqueOn(l.collections[name], [f])
      && IndexesHold(l.collections)
  {
    var f := IdField(name).value;
    var recs := Cleaned(frame).rows;
    assert forall j :: 0 <= j < |recs| ==> f in recs[j];
    assert UniqueKey(name) == Some([f]);
    UpsertByKey(Coll(colls, name), recs, f, Some([f]));
  }

  /** `book_tags` has neither a key field nor a unique index: a non-empty table
      is appended to the collection record by record, in order. */
  lemma UnkeyedDatasetAppends(colls: map<string, seq<Doc>>, frame: Frame)
    requires frame.rows != []
    ensures var l := IngestSpec(colls, true, "book_tags", Some(frame), IdField("book_tags"));
      && l.outcome == Ingested(|frame.rows|)
      && l.collections == colls["book_tags" := Coll(colls, "book_tags") + Cleaned(frame).rows]
  {
    InsertWithoutIndexAppends(Coll(colls, "book_tags"), Cleaned(frame).rows);
  }

  /** Ratings and to-read pairs, loaded against their unique `(user_id, book_id)`
      index from a non-empty table: every pair key of the table ends up stored,
      and the dataset is reported loaded exactly when no row repeats a pair already
      stored or met earlier in the table; otherwise it is reported as a duplicate key. */
  lemma PairDatasetLoads(colls: map<string, seq<Doc>>, name: string, frame: Frame)
    requires name == "ratings" || name == "to_read"
    requires frame.rows != []
    ensures var l := IngestSpec(colls, true, name, Some(frame), IdField(name));
      var docs := Coll(colls, name);
      var recs := Cleaned(frame).rows;
      var pair := ["user_id", "book_id"];
      && name in l.collections
      && KeySet(l.collections[name], pair) == KeySet(docs + recs, pair)
      && (l.outcome == Ingested(|recs|) <==> forall j :: 0 <= j < |recs| ==> !KeyTaken(docs, recs, pair, j))
      && (l.outcome != Ingested(|recs|) ==> l.outcome == Failed(DuplicateKey))
  {
    var recs := Cleaned(frame).rows;
    assert |recs| == |frame.rows|;
    InsertManySkips(Coll(colls, name), recs, ["user_id", "book_id"]);
  }

  /** An unordered insert never breaks the unique index it runs against. */
  lemma {:induction false} InsertManyKeepsUnique(docs: seq<Doc>, recs: seq<Doc>, key: Option<seq<string>>)
    requires key.Some? ==> UniqueOn(docs, key.value)
    ensures key.Some? ==> UniqueOn(InsertMany(docs, recs, key).docs, key.value)
  {
    if recs != [] {
      InsertManyKeepsUnique(docs, recs[..|recs| - 1], key);
    }
  }

  /** The keys `fields` of the documents of `s`. */
  ghost function KeySet(s: seq<Doc>, fields: seq<string>): set<seq<Option<Value>>> {
    set i | 0 <= i < |s| :: KeyOf(s[i], fields)
  }

  lemma KeySetSnoc(s: seq<Doc>, x: Doc, fields: seq<string>)
    ensures KeySet(s + [x], fields) == KeySet(s, fields) + {KeyOf(x, fields)}
  {
    var t := s + [x];
    forall k | k in KeySet(t, fields) ensures k in KeySet(s, fields) + {KeyOf(x, fields)} {
      var i :| 0 <= i < |t| && KeyOf(t[i], fields) == k;
      if i < |s| {
        assert t[i] == s[i];
      }
    }
    forall k | k in KeySet(s, fields) ensures k in KeySet(t, fields) {
      var i :| 0 <= i < |s| && KeyOf(s[i], fields) == k;
      assert t[i] == s[i];
    }
    assert t[|s|] == x;
  }

  /** When no record's key is held by a document or by another record, the
      batch goes in whole, in order, and succeeds. */
  lemma {:induction false} InsertManyFresh(docs: seq<Doc>, recs: seq<Doc>, fields: seq<string>)
    requires UniqueOn(docs + recs, fields)
    ensures InsertMany(docs, recs, Some(fields)) == Applied(docs + recs, None)
  {
    if recs != [] {
      var n := |recs|;
      var pre := recs[..n - 1];
      var all := docs + recs;
      assert docs + pre == all[..|all| - 1];
      assert UniqueOn(docs + pre, fields) by {
        forall i, j | 0 <= i < j < |docs + pre| ensures KeyOf((docs + pre)[i], fields) != KeyOf((docs + pre)[j], fields) {
          assert (docs + pre)[i] == all[i] && (docs + pre)[j] == all[j];
        }
      }
      InsertManyFresh(docs, pre, fields);
      forall i | 0 <= i < |docs + pre| ensures KeyOf((docs + pre)[i], fields) != KeyOf(recs[n - 1], fields) {
        assert (docs + pre)[i] == all[i] && all[|all| - 1] == recs[n - 1];
      }
      assert (docs + pre) + [recs[n - 1]] == all;
    }
  }

  /** `recs[j]` meets a key already held by a document or by an earlier record. */
  ghost predicate KeyTaken(docs: seq<Doc>, recs: seq<Doc>, fields: seq<string>, j: int)
    requires 0 <= j < |recs|
  {
    KeyOf(recs[j], fields) in KeySet(docs + recs[..j], fields)
  }

  /** One more record of a batch: skipped with a duplicate key when its key is
      already stored, appended otherwise. */
  lemma InsertManyStep(docs: seq<Doc>, recs: seq<Doc>, fields: seq<string>)
    requires recs != []
    ensures var prev := InsertMany(docs, recs[..|recs| - 1], Some(fields));
      var rec := recs[|recs| - 1];
      InsertMany(docs, recs, Some(fields)) ==
        if KeyOf(rec, fields) in KeySet(prev.docs, fields) then Applied(prev.docs, Some(DuplicateKey))
        else Applied(prev.docs + [rec], prev.error)
  {
    var prev := InsertMany(docs, recs[..|recs| - 1], Some(fields));
    var rec := recs[|recs| - 1];
    if KeyOf(rec, fields) in KeySet(prev.docs, fields) {
      var i :| 0 <= i < |prev.docs| && KeyOf(prev.docs[i], fields) == KeyOf(rec, fields);
    }
  }

  /** The documents keep their places and every inserted document is a record. */
  lemma {:induction false} InsertManyPrefix(docs: seq<Doc>, recs: seq<Doc>, fields: seq<string>)
    ensures var a := InsertMany(docs, recs, Some(fields));
      && |docs| <= |a.docs| && a.docs[..|docs|] == docs
      && (forall i :: |docs| <= i < |a.docs| ==> a.docs[i] in recs)
  {
    if recs != [] {
      var pre := recs[..|recs| - 1];
      var rec := recs[|recs| - 1];
      InsertManyPrefix(docs, pre, fields);
      InsertManyStep(docs, recs, fields);
      var prev := InsertMany(docs, pre, Some(fields));
      var a := InsertMany(docs, recs, Some(fields));
      forall i | |docs| <= i < |a.docs| ensures a.docs[i] in recs {
        if i < |prev.docs| {
          assert a.docs[i] == prev.docs[i] && prev.docs[i] in pre;
        } else {
          assert a.docs[i] == rec;
        }
      }
      assert a.docs[..|docs|] == prev.docs[..|docs|];
    }
  }

  /** The stored keys are those of the documents and of all the records. */
  lemma {:induction false} InsertManyKeys(docs: seq<Doc>, recs: seq<Doc>, fields: seq<string>)
    ensures KeySet(InsertMany(docs, recs, Some(fields)).docs, fields) == KeySet(docs + recs, fields)
  {
    if recs == [] {
      assert docs + recs == docs;
    } else {
      var pre := recs[..|recs| - 1];
      var rec := recs[|recs| - 1];
      InsertManyKeys(docs, pre, fields);
      InsertManyStep(docs, recs, fields);
      var prev := InsertMany(docs, pre, Some(fields));
      assert docs + recs == (docs + pre) + [rec];
      KeySetSnoc(docs + pre, rec, fields);
      KeySetSnoc(prev.docs, rec, fields);
    }
  }

  /** The batch fails, and only with a duplicate key, exactly when some record
      meets a key already held by a document or by an earlier record. */
  lemma {:induction false} InsertManyError(docs: seq<Doc>, recs: seq<Doc>, fields: seq<string>)
    ensures var a := InsertMany(docs, recs, Some(fields));
      && (a.error.None? || a.error == Some(DuplicateKey))
      && (a.error == Some(DuplicateKey) <==> exists j :: 0 <= j < |recs| && KeyTaken(docs, recs, fields, j))
  {
    if recs != [] {
      var n := |recs|;
      var pre := recs[..n - 1];
      var rec := recs[n - 1];
      InsertManyError(docs, pre, fields);
      InsertManyKeys(docs, pre, fields);
      InsertManyStep(docs, recs, fields);
      forall j | 0 <= j < n - 1 ensures KeyTaken(docs, recs, fields, j) == KeyTaken(docs, pre, fields, j) {
        assert recs[..j] == pre[..j] && recs[j] == pre[j];
      }
      assert recs[..n - 1] == pre;
      assert KeyTaken(docs, recs, fields, n - 1) <==> KeyOf(rec, fields) in KeySet(docs + pre, fields);
    }
  }

  /** Against a unique index: the documents keep their places, every inserted
      document is one of the records, the stored keys are those of the
      documents and of all the records, and the batch fails (with a duplicate
      key, its only error) exactly when some record meets a key already held
      by a document or by an earlier record. */
  lemma InsertManySkips(docs: seq<Doc>, recs: seq<Doc>, fields: seq<string>)
    ensures var a := InsertMany(docs, recs, Some(fields));
      && |docs| <= |a.docs| && a.docs[..|docs|] == docs
      && (forall i :: |docs| <= i < |a.docs| ==> a.docs[i] in recs)
      && KeySet(a.docs, fields) == KeySet(docs + recs, fields)
      && (a.error.None? || a.error == Some(DuplicateKey))
      && (a.error == Some(DuplicateKey) <==> exists j :: 0 <= j < |recs| && KeyTaken(docs, recs, fields, j))
  {
    InsertManyPrefix(docs, recs, fields);
    InsertManyKeys(docs, recs, fields);
    InsertManyError(docs, recs, fields);
  }

  /** Without a unique index every record is appended, in order, and the batch succeeds. */
  lemma {:induction false} InsertWithoutIndexAppends(docs: seq<Doc>, recs: seq<Doc>)
    ensures InsertMany(docs, recs, None) == Applied(docs + recs, None)
  {
    if recs != [] {
      InsertWithoutIndexAppends(docs, recs[..|recs| - 1]);
      assert docs + recs[..|recs| - 1] + [recs[|recs| - 1]] == docs + recs;
    }
  }

  /** Loading one dataset writes nothing but its own collection. */
  lemma IngestTouchesOnlyItsCollection(colls: map<string, seq<Doc>>, indexed: bool, name: string,
                                       download: Option<Frame>, idField: Option<string>, other: string)
    requires other != name
    ensures var c := IngestSpec(colls, indexed, name, download, idField).collections;
      (other in c <==> other in colls) && (other in colls ==> c[other] == colls[other])
  {
  }

  /** Every dataset is attempted and reported, in order, whatever became of the
      ones before it; each report is that dataset's own outcome. */
  lemma {:induction false} EveryDatasetReported(colls: map<string, seq<Doc>>, downloads: map<string, Frame>, useSamples: bool, n: nat)
    requires n <= |Datasets|
    ensures var run := RunDatasets(colls, downloads, useSamples, n);
      && |run.reports| == n
      && forall i :: 0 <= i < n ==>
        var before := RunDatasets(colls, downloads, useSamples, i).collections;
        var name := Datasets[i];
        run.reports[i] == Report(name,
          IngestSpec(before, true, name, Fetch(downloads, DatasetUrl(name, useSamples)), IdField(name)).outcome)
  {
    if n > 0 {
      EveryDatasetReported(colls, downloads, useSamples, n - 1);
      var prev := RunDatasets(colls, downloads, useSamples, n - 1);
      var name := Datasets[n - 1];
      var l := IngestSpec(prev.collections, true, name, Fetch(downloads, DatasetUrl(name, useSamples)), IdField(name));
      var run := RunDatasets(colls, downloads, useSamples, n);
      assert run.reports == prev.reports + [Report(name, l.outcome)];
      forall i | 0 <= i < n - 1 ensures run.reports[i] == prev.reports[i] {
      }
    }
  }

  /** The URL of a dataset starts with the repository base, ends with
      `name + ".csv"`, and has the `samples/` segment exactly for the sample data. */
  lemma DatasetUrlShape(name: string, useSamples: bool)
    ensures var url := DatasetUrl(name, useSamples);
      && url[..|BaseUrl|] == BaseUrl
      && EndsWith(url, name + ".csv")
      && url[|BaseUrl|..|url| - |name + ".csv"|] == (if useSamples then "samples/" else "")
  {
    var url := DatasetUrl(name, useSamples);
    var folder := if useSamples then "samples/" else "";
    assert url == (BaseUrl + folder) + (name + ".csv");
    EndsWithAppended(BaseUrl + folder, name + ".csv");
  }

  /** Different datasets, or the same dataset from the full and the sample
      data, have different URLs: each load reads its own entry of `downloads`. */
  lemma DatasetUrlInjective(a: string, sa: bool, b: string, sb: bool)
    requires a in Datasets && b in Datasets
    requires DatasetUrl(a, sa) == DatasetUrl(b, sb)
    ensures a == b && sa == sb
  {
    DatasetInitial(a);
    DatasetInitial(b);
    FileUrlInjective(BaseUrl, a, sa, b, sb);
  }

  /** Below any base, a file name that neither is empty nor starts like the
      `samples/` folder fixes both the name and the folder. */
  lemma FileUrlInjective(base: string, a: string, sa: bool, b: string, sb: bool)
    requires a != [] && a[0] != 's' && b != [] && b[0] != 's'
    requires base + (if sa then "samples/" else "") + a + ".csv" == base + (if sb then "samples/" else "") + b + ".csv"
    ensures a == b && sa == sb
  {
    var fa := if sa then "samples/" else "";
    var fb := if sb then "samples/" else "";
    var ta, tb := fa + (a + ".csv"), fb + (b + ".csv");
    assert base + fa + a + ".csv" == base + ta;
    assert base + fb + b + ".csv" == base + tb;
    PrefixCancels(base, ta, tb);
    assert ta[0] == if sa then 's' else a[0];
    assert tb[0] == if sb then 's' else b[0];
    PrefixCancels(fa, a + ".csv", b + ".csv");
    SuffixCancels(a, b, ".csv");
  }

  /** A common prefix cancels. */
  lemma PrefixCancels(p: string, x: string, y: string)
    requires p + x == p + y
    ensures x == y
  {
    assert x == (p + x)[|p|..];
    assert y == (p + y)[|p|..];
  }

  /** A common suffix cancels. */
  lemma SuffixCancels(x: string, y: string, q: string)
    requires x + q == y + q
    ensures x == y
  {
    assert |x| == |y|;
    assert x == (x + q)[..|x|];
    assert y == (y + q)[..|y|];
  }

  /** No dataset name is empty or starts like the `samples/` folder. */
  lemma DatasetInitial(name: string)
    requires name in Datasets
    ensures name != [] && name[0] != 's'
  { }

  /** The key-field table: `book_id` for books, `tag_id` for tags, none for
      the other datasets; each key field is the dataset's unique index. */
  lemma IdFieldsMatchIndexes()
    ensures IdField("books") == Some("book_id") && IdField("tags") == Some("tag_id")
    ensures IdField("ratings").None? && IdField("book_tags").None? && IdField("to_read").None?
    ensures forall n :: n in Datasets && IdField(n).Some? ==> UniqueKey(n) == Some([IdField(n).value])
  {
  }
}
