/** The SQLite-backed store (database.go) as state: the products table keyed
    by id, the append-only price_entries log and its AUTOINCREMENT counter.
    Whether a statement fails is decided by the environment: every operation
    takes `fault`, None when the SQL driver succeeds and Some(message) when
    it reports an error. */
module Store {
  import opened Wrappers
  import opened Models
  import opened Ordering
  import opened Queries

  /** Row ids of the log strictly increase along it. */
  ghost predicate IdsIncrease(log: seq<PriceEntry>)
  {
    forall i, j :: 0 <= i < j < |log| ==> log[i].id < log[j].id
  }

  /** The rows a batch of inserts adds to the log: the k-th entry of
      `batch` gets row id `firstId + k`. */
  function Stamped(batch: seq<PriceEntry>, firstId: int): seq<PriceEntry>
  {
    seq(|batch|, k requires 0 <= k < |batch| => batch[k].(id := firstId + k))
  }

  /** AUTOINCREMENT over a whole batch: appending the stamped batch to a
      log whose ids increase and lie below the counter keeps the ids
      increasing; the new ids lie between the counter and the counter plus
      the batch size, so every id of the grown log is below the advanced
      counter. */
  lemma StampedKeepsIdsIncreasing(log: seq<PriceEntry>, batch: seq<PriceEntry>, firstId: int)
    requires IdsIncrease(log) && forall e :: e in log ==> e.id < firstId
    ensures IdsIncrease(log + Stamped(batch, firstId))
    ensures forall e :: e in Stamped(batch, firstId) ==> firstId <= e.id < firstId + |batch|
    ensures forall e :: e in log + Stamped(batch, firstId) ==> e.id < firstId + |batch|
  {
    var st := Stamped(batch, firstId);
    var r := log + st;
    forall i, j | 0 <= i < j < |r|
      ensures r[i].id < r[j].id
    {
      if j < |log| {
        assert r[i] == log[i] && r[j] == log[j];
      } else if i < |log| {
        assert r[i] == log[i] && r[i] in log;
        assert r[j] == st[j - |log|];
      } else {
        assert r[i] == st[i - |log|] && r[j] == st[j - |log|];
      }
    }
    forall e | e in r
      ensures e.id < firstId + |batch|
    {
      if e !in log {
        assert e in st;
      }
    }
  }

  /** Stamping changes only ids: if every entry of the batch has a positive
      price, so does every entry appended to the log. */
  lemma StampedPricesPositive(log: seq<PriceEntry>, batch: seq<PriceEntry>, firstId: int)
    requires forall e :: e in batch ==> e.price > 0.0
    ensures forall k :: |log| <= k < |log + Stamped(batch, firstId)| ==> (log + Stamped(batch, firstId))[k].price > 0.0
  {
    var st := Stamped(batch, firstId);
    forall k | |log| <= k < |log + st|
      ensures (log + st)[k].price > 0.0
    {
      assert (log + st)[k] == st[k - |log|];
      assert batch[k - |log|] in batch;
    }
  }

  /** One more successful insert after a stamped batch: the log grows by
      the entry under the next id, which is the log of the longer batch. */
  lemma StampedAppend(log: seq<PriceEntry>, batch: seq<PriceEntry>, e: PriceEntry, firstId: int)
    ensures (log + Stamped(batch, firstId)) + [e.(id := firstId + |batch|)]
            == log + Stamped(batch + [e], firstId)
  {
    StampedSnoc(batch, e, firstId);
  }

  lemma StampedSnoc(batch: seq<PriceEntry>, e: PriceEntry, firstId: int)
    ensures Stamped(batch + [e], firstId) == Stamped(batch, firstId) + [e.(id := firstId + |batch|)]
  {
    assert Stamped(batch + [e], firstId)[..|batch|] == Stamped(batch, firstId);
  }

  class Database {
    /** Rows of the products table, in rowid order. */
    var products: seq<Product>
    /** Rows of the price_entries table, in id order. */
    var entries: seq<PriceEntry>
    /** The id AUTOINCREMENT gives the next inserted entry. */
    var nextId: int

    ghost predicate Valid()
      reads this
    {
      && UniqueIds(products)
      && 1 <= nextId
      && IdsIncrease(entries)
      && (forall e :: e in entries ==> e.id < nextId)
    }

    /** A freshly created database: both tables empty. */
    constructor ()
      ensures Valid()
      ensures products == [] && entries == [] && nextId == 1
    {
      products, entries, nextId := [], [], 1;
    }

    /** INSERT OR REPLACE INTO products: on success the product replaces any
        row with its id; on failure nothing changes. */
    method InsertProduct(product: Product, fault: Option<string>) returns (err: Option<Error>)
      requires Valid()
      modifies this
      ensures Valid()
      ensures err == (if fault.Some? then Some(StoreError(fault.value)) else None)
      ensures products == if fault.Some? then old(products) else Upsert(old(products), product)
      ensures entries == old(entries) && nextId == old(nextId)
    {
      if fault.Some? {
        return Some(StoreError(fault.value));
      }
      UpsertProperties(products, product);
      products := Upsert(products, product);
      err := None;
    }

    /** INSERT INTO price_entries: on success exactly one entry is appended,
        with the next row id and the given product id, price and timestamp;
        nothing else changes. The product id is not checked against the
        products table (SQLite leaves foreign keys off by default). */
    method InsertPriceEntry(productId: string, price: real, timestamp: nat, fault: Option<string>)
      returns (err: Option<Error>)
      requires Valid()
      modifies this
      ensures Valid()
      ensures err == (if fault.Some? then Some(StoreError(fault.value)) else None)
      ensures products == old(products)
      ensures fault.Some? ==> entries == old(entries) && nextId == old(nextId)
      ensures fault.None? ==>
                && entries == old(entries) + [PriceEntry(old(nextId), productId, price, timestamp)]
                && nextId == old(nextId) + 1
    {
      if fault.Some? {
        return Some(StoreError(fault.value));
      }
      entries := entries + [PriceEntry(nextId, productId, price, timestamp)];
      nextId := nextId + 1;
      err := None;
    }

    /** SELECT id, name, url FROM products ORDER BY name: every stored
        product exactly once, ordered by name. */
    function GetAllProducts(fault: Option<string>): (r: Result<seq<Product>, Error>)
      reads this
      ensures fault.Some? <==> r.Failure?
      ensures fault.Some? ==> r.error == StoreError(fault.value)
      ensures r.Success? ==> multiset(r.value) == multiset(products) && SortedBy(NameOrder, r.value)
    {
      if fault.Some? then Failure(StoreError(fault.value)) else Success(AllByName(products))
    }

    /** Every product with its latest price and time, ordered by name: one
        row per stored product. */
    function GetProductsWithLatestPrices(fault: Option<string>): (r: Result<seq<ProductWithLatestPrice>, Error>)
      reads this
      ensures fault.Some? <==> r.Failure?
      ensures fault.Some? ==> r.error == StoreError(fault.value)
      ensures r.Success? ==> multiset(ProductsOf(r.value)) == multiset(products)
      ensures r.Success? ==> SortedBy(NameOrder, ProductsOf(r.value))
      ensures r.Success? ==> r.value == LatestPrices(products, entries)
    {
      if fault.Some? then Failure(StoreError(fault.value))
      else
        LatestPricesShape(products, entries);
        Success(LatestPrices(products, entries))
    }

    /** SELECT ... WHERE product_id = ? ORDER BY timestamp DESC LIMIT ?:
        only that product's entries, newest first, never more than a
        non-negative limit. */
    function GetPriceHistory(productId: string, limit: int, fault: Option<string>): (r: Result<seq<PriceEntry>, Error>)
      reads this
      ensures fault.Some? <==> r.Failure?
      ensures fault.Some? ==> r.error == StoreError(fault.value)
      ensures r.Success? ==> forall e :: e in r.value ==> e in entries && e.productId == productId
      ensures r.Success? ==> SortedBy(NewerFirst, r.value)
      ensures r.Success? && limit >= 0 ==> |r.value| <= limit
      ensures r.Success? ==> r.value == History(entries, productId, limit)
    {
      if fault.Some? then Failure(StoreError(fault.value))
      else
        HistoryProperties(entries, productId, limit);
        Success(History(entries, productId, limit))
    }

    /** SELECT COUNT(*) FROM products WHERE id = ?: true iff some stored
        product has that id. */
    function ProductExists(productId: string, fault: Option<string>): (r: Result<bool, Error>)
      reads this
      ensures fault.Some? <==> r.Failure?
      ensures fault.Some? ==> r.error == StoreError(fault.value)
      ensures r.Success? ==> (r.value <==> exists p :: p in products && p.id == productId)
    {
      if fault.Some? then Failure(StoreError(fault.value)) else Success(CountId(products, productId) > 0)
    }
  }
}
