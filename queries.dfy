/** The store's tables as values and the selections its SQL statements make
    over them (database.go): the products table is a sequence of rows with
    distinct ids, the price_entries table an append-only log. */
module Queries {
  import opened Wrappers
  import opened Models
  import opened Ordering

  /** ORDER BY name. */
  predicate NameOrder(a: Product, b: Product)
  {
    LexLe(a.name, b.name)
  }

  /** ORDER BY timestamp DESC. */
  predicate NewerFirst(a: PriceEntry, b: PriceEntry)
  {
    a.timestamp >= b.timestamp
  }

  lemma NameOrderIsTotalOrder()
    ensures Total(NameOrder) && Transitive(NameOrder)
  {
    forall a: Product, b: Product
      ensures NameOrder(a, b) || NameOrder(b, a)
    {
      LexLeTotal(a.name, b.name);
    }
    forall a: Product, b: Product, c: Product | NameOrder(a, b) && NameOrder(b, c)
      ensures NameOrder(a, c)
    {
      LexLeTransitive(a.name, b.name, c.name);
    }
  }

  lemma NewerFirstIsTotalOrder()
    ensures Total(NewerFirst) && Transitive(NewerFirst)
  {
  }

  // ---------------------------------------------------------------------
  // The products table

  /** The primary key: no two rows share an id. */
  ghost predicate UniqueIds(rows: seq<Product>)
  {
    forall i, j :: 0 <= i < j < |rows| ==> rows[i].id != rows[j].id
  }

  /** The ids of the rows. */
  ghost function Ids(rows: seq<Product>): set<string>
  {
    set p | p in rows :: p.id
  }

  /** The rows whose id is not `id`, in their order. */
  function Without(rows: seq<Product>, id: string): (r: seq<Product>)
    ensures forall p :: p in r <==> p in rows && p.id != id
    ensures UniqueIds(rows) ==> UniqueIds(r)
  {
    if rows == [] then []
    else
      var init := rows[..|rows| - 1];
      var last := rows[|rows| - 1];
      assert rows == init + [last];
      var rest := Without(init, id);
      assert UniqueIds(rows) ==> UniqueIds(init);
      if last.id == id then rest else rest + [last]
  }

  /** INSERT OR REPLACE: the row with the same id, if any, is deleted and
      the new row is appended (SQLite gives it a new rowid). */
  function Upsert(rows: seq<Product>, p: Product): (r: seq<Product>)
    ensures forall q :: q in r <==> q == p || (q in rows && q.id != p.id)
  {
    Without(rows, p.id) + [p]
  }

  /** The upsert keeps the key unique, stores exactly `p` under its id and
      keeps every other row. */
  lemma UpsertProperties(rows: seq<Product>, p: Product)
    requires UniqueIds(rows)
    ensures UniqueIds(Upsert(rows, p))
    ensures p in Upsert(rows, p)
    ensures forall q :: q in Upsert(rows, p) && q.id == p.id ==> q == p
    ensures forall q :: q in Upsert(rows, p) && q.id != p.id <==> q in rows && q.id != p.id
    ensures Ids(Upsert(rows, p)) == Ids(rows) + {p.id}
  {
    var w := Without(rows, p.id);
    var r := w + [p];
    forall i, j | 0 <= i < j < |r|
      ensures r[i].id != r[j].id
    {
      if j == |r| - 1 {
        assert r[i] in w;
      } else {
        assert r[i] == w[i] && r[j] == w[j];
      }
    }
    forall id | id in Ids(rows) + {p.id}
      ensures id in Ids(r)
    {
      if id != p.id {
        var q :| q in rows && q.id == id;
        assert q in r;
      }
    }
  }

  /** How many rows carry this id (SELECT COUNT(*) ... WHERE id = ?). */
  function CountId(rows: seq<Product>, id: string): (n: nat)
    ensures n > 0 <==> exists p :: p in rows && p.id == id
    ensures n <= |rows|
  {
    if rows == [] then 0
    else
      assert forall p :: p in rows <==> p == rows[0] || p in rows[1..];
      (if rows[0].id == id then 1 else 0) + CountId(rows[1..], id)
  }

  /** The products ordered by name (GetAllProducts). */
  function AllByName(rows: seq<Product>): (r: seq<Product>)
    ensures multiset(r) == multiset(rows)
    ensures SortedBy(NameOrder, r)
  {
    NameOrderIsTotalOrder();
    SortBySorted(NameOrder, rows);
    SortBy(NameOrder, rows)
  }

  // ---------------------------------------------------------------------
  // The price_entries table

  /** The entries of one product, in log order (WHERE product_id = ?). */
  function EntriesFor(log: seq<PriceEntry>, productId: string): (r: seq<PriceEntry>)
    ensures forall e :: multiset(r)[e] == if e.productId == productId then multiset(log)[e] else 0
  {
    if log == [] then []
    else
      var init := log[..|log| - 1];
      var last := log[|log| - 1];
      assert log == init + [last];
      var rest := EntriesFor(init, productId);
      if last.productId == productId then rest + [last] else rest
  }

  /** LIMIT: SQLite returns every row for a negative limit. */
  function Limit<T>(s: seq<T>, limit: int): (r: seq<T>)
    ensures |r| <= |s| && r == s[..|r|]
    ensures limit >= 0 ==> |r| <= limit
    ensures |r| < |s| ==> |r| == limit
  {
    if 0 <= limit < |s| then s[..limit] else s
  }

  /** GetPriceHistory: the product's entries, newest first, at most `limit`. */
  function History(log: seq<PriceEntry>, productId: string, limit: int): (r: seq<PriceEntry>)
    ensures forall e :: e in r ==> e in log && e.productId == productId
    ensures SortedBy(NewerFirst, r)
  {
    var own := EntriesFor(log, productId);
    var s := SortBy(NewerFirst, own);
    NewerFirstIsTotalOrder();
    SortBySorted(NewerFirst, own);
    var h := Limit(s, limit);
    SortedPrefix(NewerFirst, s, |h|);
    assert forall e :: e in h ==> e in multiset(s) by {
      forall e | e in h
        ensures e in multiset(s)
      {
        assert e in s;
      }
    }
    assert forall e :: e in h ==> multiset(own)[e] > 0;
    h
  }

  /** A history is sorted newest first and is part of the product's entries,
      and none of the entries it leaves out is newer than one it holds. */
  lemma HistoryNewest(log: seq<PriceEntry>, productId: string, limit: int)
    ensures var h := History(log, productId, limit);
            var all := multiset(EntriesFor(log, productId));
            && SortedBy(NewerFirst, h)
            && multiset(h) <= all
            && (forall x, y :: x in h && y in all - multiset(h) ==> x.timestamp >= y.timestamp)
  {
    var own := EntriesFor(log, productId);
    var s := SortBy(NewerFirst, own);
    NewerFirstIsTotalOrder();
    SortBySorted(NewerFirst, own);
    SortedPrefix(NewerFirst, s, |History(log, productId, limit)|);
  }

  /** The history holds only that product's entries, newest first; it has
      min(limit, number of the product's entries) of them (all of them for a
      negative limit), and they are the newest: none of the product's
      entries left out is newer than one returned. */
  lemma HistoryProperties(log: seq<PriceEntry>, productId: string, limit: int)
    ensures var h := History(log, productId, limit);
            var all := multiset(EntriesFor(log, productId));
            && (forall e :: e in h ==> e in log && e.productId == productId)
            && SortedBy(NewerFirst, h)
            && |h| == (if 0 <= limit < |all| then limit else |all|)
            && multiset(h) <= all
            && (forall x, y :: x in h && y in all - multiset(h) ==> x.timestamp >= y.timestamp)
  {
    HistoryNewest(log, productId, limit);
  }

  /** The most recent entry of a product, if the product has one: the row
      the FIRST_VALUE ... ORDER BY timestamp DESC subquery selects. */
  function Latest(log: seq<PriceEntry>, productId: string): (r: Option<PriceEntry>)
    ensures r.Some? ==> r.value in log && r.value.productId == productId
  {
    var s := SortBy(NewerFirst, EntriesFor(log, productId));
    if s == [] then None
    else
      assert s[0] in multiset(EntriesFor(log, productId));
      Some(s[0])
  }

  /** A latest entry exists iff the product has an entry, and it has the
      maximal timestamp among the product's entries. */
  lemma LatestProperties(log: seq<PriceEntry>, productId: string)
    ensures Latest(log, productId).None? <==> forall e :: e in log ==> e.productId != productId
    ensures Latest(log, productId).Some? ==>
              var l := Latest(log, productId).value;
              && l in log && l.productId == productId
              && forall e :: e in log && e.productId == productId ==> e.timestamp <= l.timestamp
  {
    var own := EntriesFor(log, productId);
    var s := SortBy(NewerFirst, own);
    NewerFirstIsTotalOrder();
    SortBySorted(NewerFirst, own);
    if s == [] {
      forall e | e in log
        ensures e.productId != productId
      {
        assert multiset(own)[e] == 0;
      }
    } else {
      assert s[0] in multiset(own);
      forall e | e in log && e.productId == productId
        ensures e.timestamp <= s[0].timestamp
      {
        assert e in multiset(s);
        var j :| 0 <= j < |s| && s[j] == e;
        if j > 0 {
          assert NewerFirst(s[0], s[j]);
        }
      }
    }
  }

  /** The head of a history with limit 1 is as new as the latest entry. */
  lemma LatestHeadsHistory(log: seq<PriceEntry>, productId: string)
    ensures |History(log, productId, 1)| == (if Latest(log, productId).Some? then 1 else 0)
    ensures Latest(log, productId).Some? ==>
              History(log, productId, 1)[0].timestamp == Latest(log, productId).value.timestamp
  {
  }

  /** One row of GetProductsWithLatestPrices: the product with the price and
      time of its latest entry, both absent if it has none. */
  function WithLatest(p: Product, log: seq<PriceEntry>): (r: ProductWithLatestPrice)
    ensures r.product == p
    ensures r.latestPrice.Some? <==> exists e :: e in log && e.productId == p.id
    ensures r.lastUpdated.Some? <==> r.latestPrice.Some?
  {
    LatestProperties(log, p.id);
    match Latest(log, p.id)
    case None => ProductWithLatestPrice(p, None, None)
    case Some(e) => ProductWithLatestPrice(p, Some(e.price), Some(e.timestamp))
  }

  /** GetProductsWithLatestPrices: products LEFT JOIN latest entry, ORDER
      BY name. */
  function LatestPrices(rows: seq<Product>, log: seq<PriceEntry>): (r: seq<ProductWithLatestPrice>)
    ensures |r| == |rows|
    ensures multiset(ProductsOf(r)) == multiset(rows)
    ensures forall i :: 0 <= i < |r| ==> r[i].product in rows && r[i] == WithLatest(r[i].product, log)
  {
    var byName := AllByName(rows);
    assert forall i :: 0 <= i < |byName| ==> byName[i] in multiset(rows) by {
      forall i | 0 <= i < |byName|
        ensures byName[i] in multiset(rows)
      {
        assert byName[i] in multiset(byName);
      }
    }
    var r := seq(|byName|, i requires 0 <= i < |byName| => WithLatest(byName[i], log));
    assert ProductsOf(r) == byName;
    r
  }

  /** The products the rows are about, in row order. */
  function ProductsOf(rows: seq<ProductWithLatestPrice>): (r: seq<Product>)
    ensures |r| == |rows| && forall i :: 0 <= i < |r| ==> r[i] == rows[i].product
  {
    seq(|rows|, i requires 0 <= i < |rows| => rows[i].product)
  }

  /** One row per stored product, ordered by name. */
  lemma LatestPricesShape(rows: seq<Product>, log: seq<PriceEntry>)
    ensures |LatestPrices(rows, log)| == |rows|
    ensures multiset(ProductsOf(LatestPrices(rows, log))) == multiset(rows)
    ensures SortedBy(NameOrder, ProductsOf(LatestPrices(rows, log)))
  {
    assert ProductsOf(LatestPrices(rows, log)) == AllByName(rows);
  }

  /** A row's price and time are present iff its product has an entry, and
      then they are the price and time of one entry of that product with the
      greatest timestamp. */
  lemma LatestPricesRow(rows: seq<Product>, log: seq<PriceEntry>, i: nat)
    requires i < |LatestPrices(rows, log)|
    ensures var row := LatestPrices(rows, log)[i];
            && (row.latestPrice.Some? <==> exists e :: e in log && e.productId == row.product.id)
            && row.lastUpdated.Some? == row.latestPrice.Some?
            && (row.latestPrice.Some? ==>
                  exists e :: && e in log && e.productId == row.product.id
                              && e.price == row.latestPrice.value
                              && e.timestamp == row.lastUpdated.value
                              && forall f :: f in log && f.productId == e.productId ==> f.timestamp <= e.timestamp)
  {
    LatestProperties(log, AllByName(rows)[i].id);
  }
}
