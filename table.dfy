/**
 * The `articles` table both store APIs write to, as an in-memory sequence of rows
 * in table order, with the three operations of the core that touch it: the
 * "latest unprocessed" query, the Node update route, and Laravel's
 * `updateOrCreate` keyed by `url`. Inserting a row is the fourth, used by the
 * Node scrape route.
 */
module Table {
  import opened Options
  import opened Records

  /** The attributes an insert supplies; `id` and `created_at` come from the store. */
  datatype NewArticle = NewArticle(
    title: string,
    content: string,
    url: Option<string>,
    publishedAt: Timestamp,
    isUpdated: bool,
    references: seq<RefLink>)

  /** The attributes Laravel's harvest passes to `updateOrCreate` (no `references`). */
  datatype ItemAttributes = ItemAttributes(
    title: string,
    content: string,
    url: Option<string>,
    publishedAt: Timestamp,
    isUpdated: bool)

  /** The JSON body of `PUT /api/articles/:id`; absent fields are `None`. */
  datatype UpdateBody = UpdateBody(
    content: string,
    isUpdated: Option<bool>,
    references: Option<seq<RefLink>>)

  /** The row with `is_updated` false and the greatest `created_at` (of equals, the first in table order), or `None`. */
  function LatestUnprocessed(rows: seq<Row>): (r: Option<Row>)
    ensures r.None? <==> forall i :: 0 <= i < |rows| ==> rows[i].isUpdated
    ensures r.Some? ==> r.value in rows && !r.value.isUpdated
    ensures r.Some? ==> forall i :: 0 <= i < |rows| && !rows[i].isUpdated ==> rows[i].createdAt <= r.value.createdAt
  {
    if rows == [] then None
    else
      var rest := LatestUnprocessed(rows[1..]);
      assert forall i :: 1 <= i < |rows| ==> rows[i] == rows[1..][i - 1];
      if !rows[0].isUpdated && (rest.None? || rest.value.createdAt <= rows[0].createdAt) then Some(rows[0])
      else rest
  }

  /**
   * JavaScript's `is_updated || true`: a truthy flag is kept and anything else
   * (absent, `false`) falls through to `true`, so the stored flag is always set.
   */
  function FlagOrTrue(flag: Option<bool>): (r: bool)
    ensures r
  {
    true
  }

  /** The row as the Node update route leaves it. */
  function NodeUpdatedRow(row: Row, body: UpdateBody): Row {
    row.(content := body.content,
         isUpdated := FlagOrTrue(body.isUpdated),
         references := Some(body.references.GetOr([])))
  }

  /** `UPDATE articles SET content, is_updated, references WHERE id = :id`. */
  function NodeUpdatedRows(rows: seq<Row>, id: nat, body: UpdateBody): (r: seq<Row>)
    ensures |r| == |rows|
    ensures forall i :: 0 <= i < |rows| && rows[i].id == id ==>
      r[i] == rows[i].(content := body.content, isUpdated := true,
                       references := Some(if body.references.Some? then body.references.value else []))
    ensures forall i :: 0 <= i < |rows| && rows[i].id != id ==> r[i] == rows[i]
  {
    seq(|rows|, i requires 0 <= i < |rows| => if rows[i].id == id then NodeUpdatedRow(rows[i], body) else rows[i])
  }

  /** Applying the same update twice stores the same table as applying it once. */
  lemma NodeUpdateIdempotent(rows: seq<Row>, id: nat, body: UpdateBody)
    ensures NodeUpdatedRows(NodeUpdatedRows(rows, id, body), id, body) == NodeUpdatedRows(rows, id, body)
  {
  }

  /** After the update, the "latest unprocessed" query never returns the updated article. */
  lemma LatestSkipsUpdated(rows: seq<Row>, id: nat, body: UpdateBody)
    ensures var l := LatestUnprocessed(NodeUpdatedRows(rows, id, body)); l.Some? ==> l.value.id != id
  {
  }

  /** The index of the first row whose `url` equals `url` (NULL matches NULL, as Eloquent's `where` does). */
  function FirstWithUrl(rows: seq<Row>, url: Option<string>): (r: Option<nat>)
    ensures r.None? <==> forall i :: 0 <= i < |rows| ==> rows[i].url != url
    ensures r.Some? ==> r.value < |rows| && rows[r.value].url == url
    ensures r.Some? ==> forall i :: 0 <= i < r.value ==> rows[i].url != url
  {
    if rows == [] then None
    else if rows[0].url == url then Some(0)
    else
      var rest := FirstWithUrl(rows[1..], url);
      assert forall i :: 1 <= i < |rows| ==> rows[i] == rows[1..][i - 1];
      if rest.Some? then Some(rest.value + 1) else None
  }

  /** The new row an insert appends. */
  function InsertedRow(a: NewArticle, id: nat, createdAt: Timestamp): Row {
    Row(id, a.title, a.content, a.url, a.publishedAt, a.isUpdated, Some(a.references), createdAt)
  }

  /** The row `updateOrCreate` writes: the existing one overwritten with the attributes, or a new one. */
  function Upserted(row: Row, item: ItemAttributes): Row {
    row.(title := item.title, content := item.content, url := item.url,
         publishedAt := item.publishedAt, isUpdated := item.isUpdated)
  }

  /** `Article::updateOrCreate(['url' => url], attributes)`. */
  function UpsertedRows(rows: seq<Row>, nextId: nat, item: ItemAttributes, createdAt: Timestamp): (r: seq<Row>)
    ensures |rows| <= |r| <= |rows| + 1
    ensures forall i :: 0 <= i < |rows| ==> r[i].id == rows[i].id && r[i].url == rows[i].url
    ensures |r| == |rows| + 1 ==> r[|rows|].id == nextId
  {
    match FirstWithUrl(rows, item.url)
    case Some(k) => rows[k := Upserted(rows[k], item)]
    case None => rows + [Row(nextId, item.title, item.content, item.url, item.publishedAt, item.isUpdated, None, createdAt)]
  }

  /** Upserting overwrites the first row with the same `url` in place, keeping its id, its `created_at` and its references. */
  lemma UpsertOverwritesSameUrl(rows: seq<Row>, nextId: nat, item: ItemAttributes, createdAt: Timestamp, k: nat)
    requires k < |rows| && rows[k].url == item.url
    requires forall i :: 0 <= i < k ==> rows[i].url != item.url
    ensures var r := UpsertedRows(rows, nextId, item, createdAt);
      |r| == |rows| && r[k].id == rows[k].id && r[k].createdAt == rows[k].createdAt &&
      r[k].references == rows[k].references &&
      r[k].title == item.title && r[k].content == item.content && r[k].isUpdated == item.isUpdated &&
      forall i :: 0 <= i < |rows| && i != k ==> r[i] == rows[i]
  {
    assert FirstWithUrl(rows, item.url) == Some(k);
  }

  /** Upserting a `url` no row has appends exactly one new row. */
  lemma UpsertCreatesNewUrl(rows: seq<Row>, nextId: nat, item: ItemAttributes, createdAt: Timestamp)
    requires forall i :: 0 <= i < |rows| ==> rows[i].url != item.url
    ensures UpsertedRows(rows, nextId, item, createdAt) ==
      rows + [Row(nextId, item.title, item.content, item.url, item.publishedAt, item.isUpdated, None, createdAt)]
  {
  }

  /** After an upsert there is a row with the item's `url` holding the item's attributes, and no row was lost. */
  lemma UpsertStoresItem(rows: seq<Row>, nextId: nat, item: ItemAttributes, createdAt: Timestamp)
    ensures var r := UpsertedRows(rows, nextId, item, createdAt);
      |rows| <= |r| <= |rows| + 1 &&
      exists k :: 0 <= k < |r| && r[k].url == item.url && r[k].title == item.title &&
        r[k].content == item.content && r[k].isUpdated == item.isUpdated
  {
    var r := UpsertedRows(rows, nextId, item, createdAt);
    match FirstWithUrl(rows, item.url)
    case Some(k) => assert r[k].url == item.url;
    case None => assert r[|rows|].url == item.url;
  }

  /** Re-running an upsert with the same attributes changes nothing more. */
  lemma UpsertIdempotent(rows: seq<Row>, nextId: nat, item: ItemAttributes, createdAt: Timestamp, laterId: nat, later: Timestamp)
    ensures var once := UpsertedRows(rows, nextId, item, createdAt);
      UpsertedRows(once, laterId, item, later) == once
  {
    var once := UpsertedRows(rows, nextId, item, createdAt);
    match FirstWithUrl(rows, item.url)
    case Some(k) =>
      assert once[k].url == item.url;
      assert forall i :: 0 <= i < k ==> once[i] == rows[i];
      assert FirstWithUrl(once, item.url) == Some(k);
    case None =>
      assert once[|rows|].url == item.url;
      assert forall i :: 0 <= i < |rows| ==> once[i] == rows[i];
      assert FirstWithUrl(once, item.url) == Some(|rows|);
  }

  /** The ids in table order are distinct and all below the next id to hand out. */
  ghost predicate IdsValid(rows: seq<Row>, nextId: nat) {
    (forall i :: 0 <= i < |rows| ==> rows[i].id < nextId) &&
    (forall i, j :: 0 <= i < j < |rows| ==> rows[i].id != rows[j].id)
  }

  /** The `articles` table, updated in place by the store APIs. */
  class ArticleTable {
    var rows: seq<Row>
    var nextId: nat

    ghost predicate Valid()
      reads this
    {
      IdsValid(rows, nextId)
    }

    constructor ()
      ensures Valid() && rows == [] && nextId == 1
    {
      rows := [];
      nextId := 1;
    }

    /** `INSERT INTO articles …`: appends a row under a fresh id. */
    method Insert(a: NewArticle, createdAt: Timestamp) returns (id: nat)
      requires Valid()
      modifies this
      ensures Valid()
      ensures id == old(nextId) && nextId == old(nextId) + 1
      ensures rows == old(rows) + [InsertedRow(a, id, createdAt)]
    {
      id := nextId;
      rows := rows + [InsertedRow(a, id, createdAt)];
      nextId := nextId + 1;
    }

    /** `PUT /api/articles/:id` on the Node API. */
    method Update(id: nat, body: UpdateBody)
      requires Valid()
      modifies this
      ensures Valid() && nextId == old(nextId)
      ensures rows == NodeUpdatedRows(old(rows), id, body)
    {
      rows := NodeUpdatedRows(rows, id, body);
    }

    /** `Article::updateOrCreate(['url' => …], …)` on the Laravel API. */
    method UpdateOrCreate(item: ItemAttributes, createdAt: Timestamp)
      requires Valid()
      modifies this
      ensures Valid()
      ensures rows == UpsertedRows(old(rows), old(nextId), item, createdAt)
      ensures nextId == if |rows| == |old(rows)| then old(nextId) else old(nextId) + 1
    {
      var k := FirstWithUrl(rows, item.url);
      match k
      case Some(i) =>
        rows := rows[i := Upserted(rows[i], item)];
      case None =>
        rows := rows + [Row(nextId, item.title, item.content, item.url, item.publishedAt, item.isUpdated, None, createdAt)];
        nextId := nextId + 1;
    }
  }
}
