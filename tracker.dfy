/** The tracking engine (tracker.go): the in-memory product registry, one
    tracking round run sequentially, and the read operations it offers.

    The measurement source and the clock are parameters of a round: `fetch`
    gives the price fetched for a product and `clock` the time at which that
    fetch completed. The worker pool is modelled as one worker that takes the
    queue in order; the collector drains the results in an arbitrary order,
    which stands for the completion order the goroutines produce. */
module Tracker {
  import opened Wrappers
  import opened Models
  import opened Ordering
  import opened Queries
  import opened Store

  // ---------------------------------------------------------------------
  // Specification functions

  /** The map after `products[p.ID] = p` for each `p` of `list` in turn:
      its keys are the old keys and the ids of the list. */
  function Registered(m: map<string, Product>, list: seq<Product>): (r: map<string, Product>)
    ensures r.Keys == m.Keys + Ids(list)
  {
    if list == [] then m
    else
      var init := list[..|list| - 1];
      var last := list[|list| - 1];
      assert list == init + [last];
      assert Ids(list) == Ids(init) + {last.id};
      Registered(m, init)[last.id := last]
  }

  /** Registering one more product of the list is one more map update. */
  lemma RegisteredPrefix(m: map<string, Product>, list: seq<Product>, i: nat)
    requires i < |list|
    ensures Registered(m, list[..i + 1]) == Registered(m, list[..i])[list[i].id := list[i]]
  {
    assert list[..i + 1][..i] == list[..i];
  }

  /** Keys the list does not mention keep their value; every id of the
      list maps to a product of the list with that id. */
  lemma {:induction false} RegisteredValues(m: map<string, Product>, list: seq<Product>)
    ensures forall k :: k in m && k !in Ids(list) ==> Registered(m, list)[k] == m[k]
    ensures forall k :: k in Ids(list) ==> Registered(m, list)[k] in list && Registered(m, list)[k].id == k
  {
    if list != [] {
      var init := list[..|list| - 1];
      var last := list[|list| - 1];
      assert list == init + [last];
      assert Ids(list) == Ids(init) + {last.id};
      RegisteredValues(m, init);
    }
  }

  /** Later duplicates overwrite earlier ones: the last product of the
      list with a given id is the one registered under it. */
  lemma {:induction false} RegisteredLastWins(m: map<string, Product>, list: seq<Product>, i: nat)
    requires i < |list|
    requires forall j :: i < j < |list| ==> list[j].id != list[i].id
    ensures Registered(m, list)[list[i].id] == list[i]
  {
    var init := list[..|list| - 1];
    var last := list[|list| - 1];
    assert list == init + [last];
    if i < |list| - 1 {
      assert init[i] == list[i];
      RegisteredLastWins(m, init, i);
    }
  }

  /** Loading a permutation of stored rows puts every stored product under
      its id, and nothing else is added. */
  lemma LoadedFromStore(m: map<string, Product>, rows: seq<Product>, list: seq<Product>)
    requires UniqueIds(rows) && multiset(list) == multiset(rows)
    ensures Registered(m, list).Keys == m.Keys + Ids(rows)
    ensures forall p :: p in rows ==> Registered(m, list)[p.id] == p
  {
    var r := Registered(m, list);
    RegisteredValues(m, list);
    assert forall p :: p in list <==> p in rows by {
      forall p ensures p in list <==> p in rows {
        assert p in list <==> p in multiset(list);
        assert p in rows <==> p in multiset(rows);
      }
    }
    assert Ids(list) == Ids(rows);
    forall p | p in rows
      ensures r[p.id] == p
    {
      var q := r[p.id];
      assert q in rows && q.id == p.id;
      var a :| 0 <= a < |rows| && rows[a] == p;
      var b :| 0 <= b < |rows| && rows[b] == q;
      assert a == b;
    }
  }

  /** The entry the worker builds for a fetched product: its id, the
      fetched price and the completion time; the row id is left at Go's
      zero value for the store to assign. */
  function Reading(p: Product, fetch: Product -> real, clock: Product -> nat): PriceEntry
  {
    PriceEntry(0, p.id, fetch(p), clock(p))
  }

  /** The reading of every queued product, whatever its price. */
  ghost function Readings(queue: seq<Product>, fetch: Product -> real, clock: Product -> nat): seq<PriceEntry>
  {
    seq(|queue|, i requires 0 <= i < |queue| => Reading(queue[i], fetch, clock))
  }

  /** The entries the workers send to the collector for `queue`, in queue
      order: one per product whose fetched price is positive. */
  function Measurements(queue: seq<Product>, fetch: Product -> real, clock: Product -> nat): (r: seq<PriceEntry>)
    ensures |r| <= |queue|
    ensures forall e :: e in r ==> e.price > 0.0 && exists p :: p in queue && e == Reading(p, fetch, clock)
  {
    if queue == [] then []
    else
      var init := queue[..|queue| - 1];
      var p := queue[|queue| - 1];
      assert queue == init + [p];
      var rest := Measurements(init, fetch, clock);
      if fetch(p) > 0.0 then rest + [Reading(p, fetch, clock)] else rest
  }

  /** The worker sends at most one entry per fetched product: the entries
      are a sub-multiset of the readings, one per queued product. */
  lemma {:induction false} MeasurementsWithinReadings(queue: seq<Product>, fetch: Product -> real, clock: Product -> nat)
    ensures multiset(Measurements(queue, fetch, clock)) <= multiset(Readings(queue, fetch, clock))
  {
    if queue != [] {
      var init := queue[..|queue| - 1];
      var p := queue[|queue| - 1];
      assert queue == init + [p];
      assert Readings(queue, fetch, clock) == Readings(init, fetch, clock) + [Reading(p, fetch, clock)];
      MeasurementsWithinReadings(init, fetch, clock);
    }
  }

  /** One more queued product adds its reading exactly when its fetched
      price is positive. */
  lemma MeasurementsPrefix(queue: seq<Product>, i: nat, fetch: Product -> real, clock: Product -> nat)
    requires i < |queue|
    ensures Measurements(queue[..i + 1], fetch, clock)
            == Measurements(queue[..i], fetch, clock)
               + (if fetch(queue[i]) > 0.0 then [Reading(queue[i], fetch, clock)] else [])
  {
    assert queue[..i + 1][..i] == queue[..i];
  }

  /** The ids of the products whose fetched price is positive. */
  ghost function PositiveIds(queue: seq<Product>, fetch: Product -> real): set<string>
  {
    set p | p in queue && fetch(p) > 0.0 :: p.id
  }

  /** A product whose fetched price is positive gets its entry, carrying
      its id, the fetched price and the completion time. */
  lemma {:induction false} MeasuredIfPositive(queue: seq<Product>, fetch: Product -> real, clock: Product -> nat)
    ensures forall p :: p in queue && fetch(p) > 0.0 ==> Reading(p, fetch, clock) in Measurements(queue, fetch, clock)
  {
    if queue != [] {
      var init := queue[..|queue| - 1];
      assert queue == init + [queue[|queue| - 1]];
      MeasuredIfPositive(init, fetch, clock);
    }
  }

  /** In a snapshot (distinct ids) a product whose fetched price is not
      positive gets no entry. */
  lemma {:induction false} NotMeasuredIfNotPositive(queue: seq<Product>, fetch: Product -> real,
                                                    clock: Product -> nat, p: Product)
    requires UniqueIds(queue) && p in queue && fetch(p) <= 0.0
    ensures forall e :: e in Measurements(queue, fetch, clock) ==> e.productId != p.id
  {
    forall e | e in Measurements(queue, fetch, clock)
      ensures e.productId != p.id
    {
      var q :| q in queue && e == Reading(q, fetch, clock);
      var a :| 0 <= a < |queue| && queue[a] == p;
      var b :| 0 <= b < |queue| && queue[b] == q;
      assert q.id == p.id ==> a == b;
    }
  }

  /** In a snapshot no product gets two entries, so there are exactly as
      many entries as products with a positive price. */
  lemma {:induction false} OneMeasurementPerProduct(queue: seq<Product>, fetch: Product -> real, clock: Product -> nat)
    requires UniqueIds(queue)
    ensures var r := Measurements(queue, fetch, clock);
            && (forall i, j :: 0 <= i < j < |r| ==> r[i].productId != r[j].productId)
            && |r| == |PositiveIds(queue, fetch)|
  {
    if queue != [] {
      var init := queue[..|queue| - 1];
      var p := queue[|queue| - 1];
      assert queue == init + [p];
      assert UniqueIds(init);
      OneMeasurementPerProduct(init, fetch, clock);
      var rest := Measurements(init, fetch, clock);
      assert p.id !in Ids(init);
      forall e | e in rest
        ensures e.productId != p.id
      {
        var q :| q in init && e == Reading(q, fetch, clock);
      }
      if fetch(p) > 0.0 {
        var r := rest + [Reading(p, fetch, clock)];
        forall i, j | 0 <= i < j < |r|
          ensures r[i].productId != r[j].productId
        {
          if j == |r| - 1 {
            assert r[i] in rest;
          } else {
            assert r[i] == rest[i] && r[j] == rest[j];
          }
        }
        assert PositiveIds(queue, fetch) == PositiveIds(init, fetch) + {p.id};
        assert p.id !in PositiveIds(init, fetch);
      } else {
        assert PositiveIds(queue, fetch) == PositiveIds(init, fetch);
      }
    }
  }

  /** The entries whose write succeeded, in the order they were attempted. */
  function Saved(attempted: seq<PriceEntry>, writeFault: PriceEntry -> Option<string>): (r: seq<PriceEntry>)
    ensures |r| <= |attempted|
  {
    if attempted == [] then []
    else
      var init := attempted[..|attempted| - 1];
      var last := attempted[|attempted| - 1];
      assert attempted == init + [last];
      var rest := Saved(init, writeFault);
      if writeFault(last).None? then rest + [last] else rest
  }

  /** An entry is saved as often as it was attempted if its write
      succeeds, and never otherwise. */
  lemma {:induction false} SavedCounts(attempted: seq<PriceEntry>, writeFault: PriceEntry -> Option<string>)
    ensures forall e :: multiset(Saved(attempted, writeFault))[e] ==
                          if writeFault(e).None? then multiset(attempted)[e] else 0
  {
    if attempted != [] {
      var init := attempted[..|attempted| - 1];
      assert attempted == init + [attempted[|attempted| - 1]];
      SavedCounts(init, writeFault);
    }
  }

  /** Only measured entries are saved: each saved entry has a positive
      price, and there are never more saved entries than products fetched. */
  lemma SavedAreMeasured(attempted: seq<PriceEntry>, queue: seq<Product>, fetch: Product -> real,
                         clock: Product -> nat, writeFault: PriceEntry -> Option<string>)
    requires multiset(attempted) == multiset(Measurements(queue, fetch, clock))
    ensures forall e :: e in Saved(attempted, writeFault) ==> e.price > 0.0 && e in Measurements(queue, fetch, clock)
    ensures |Saved(attempted, writeFault)| <= |queue|
  {
    var s := Saved(attempted, writeFault);
    var ms := Measurements(queue, fetch, clock);
    SavedCounts(attempted, writeFault);
    forall e | e in s
      ensures e in ms
    {
      assert multiset(s)[e] > 0;
      assert e in multiset(ms);
    }
    assert |attempted| == |multiset(attempted)| == |multiset(ms)| == |ms|;
  }

  /** One more attempted write keeps the entry exactly when it succeeds. */
  lemma SavedPrefix(attempted: seq<PriceEntry>, i: nat, writeFault: PriceEntry -> Option<string>)
    requires i < |attempted|
    ensures Saved(attempted[..i + 1], writeFault) ==
            Saved(attempted[..i], writeFault) + (if writeFault(attempted[i]).None? then [attempted[i]] else [])
  {
    assert attempted[..i + 1][..i] == attempted[..i];
  }

  // ---------------------------------------------------------------------
  // The engine

  class PriceTracker {
    const db: Database
    /** The registry: product id to product. */
    var products: map<string, Product>

    /** Each product is registered under its own id and is stored, as it
        is, in the database: the registry is a cache of the products table. */
    ghost predicate Valid()
      reads this, db
    {
      && db.Valid()
      && forall id :: id in products ==> products[id].id == id && products[id] in db.products
    }

    /** NewPriceTracker: the registry is loaded from the store; if the read
        fails the tracker is still created, with an empty registry. */
    constructor (db: Database, fault: Option<string>)
      requires db.Valid()
      ensures Valid() && this.db == db
      ensures fault.Some? ==> products == map[]
      ensures fault.None? ==> products.Keys == Ids(db.products)
      ensures fault.None? ==> forall p :: p in db.products ==> products[p.id] == p
    {
      this.db := db;
      products := map[];
      new;
      var _ := LoadProducts(fault);
      if fault.None? {
        LoadedFromStore(map[], db.products, db.GetAllProducts(fault).value);
      }
    }

    /** loadProducts: every stored product is put into the map under its id,
        a later one overwriting an earlier one with the same id; if the read
        fails its error is returned and the map is untouched. */
    method LoadProducts(fault: Option<string>) returns (err: Option<Error>)
      requires Valid()
      modifies this
      ensures Valid()
      ensures err == if fault.Some? then Some(StoreError(fault.value)) else None
      ensures fault.Some? ==> products == old(products)
      ensures fault.None? ==> products == Registered(old(products), db.GetAllProducts(fault).value)
    {
      var read := db.GetAllProducts(fault);
      if read.Failure? {
        return Some(read.error);
      }
      var list := read.value;
      forall p | p in list
        ensures p in db.products
      {
        assert p in multiset(list);
      }
      var i := 0;
      while i < |list|
        invariant 0 <= i <= |list|
        invariant products == Registered(old(products), list[..i])
        invariant forall id :: id in products ==> products[id].id == id && products[id] in db.products
      {
        RegisteredPrefix(old(products), list, i);
        products := products[list[i].id := list[i]];
        i := i + 1;
      }
      assert list[..i] == list;
      err := None;
    }

    /** AddProduct: the product is written to the store first; if that
        fails the error is returned and the registry is unchanged, otherwise
        the registry maps its id to it and every other entry is kept (so
        re-adding a known id keeps the registry's size). */
    method AddProduct(product: Product, fault: Option<string>) returns (err: Option<Error>)
      requires Valid()
      modifies this, db
      ensures Valid()
      ensures err == if fault.Some? then Some(StoreError(fault.value)) else None
      ensures fault.Some? ==> products == old(products) && db.products == old(db.products)
      ensures fault.None? ==> products == old(products)[product.id := product]
      ensures fault.None? ==> db.products == Upsert(old(db.products), product)
      ensures fault.None? ==> |products| == if product.id in old(products) then |old(products)| else |old(products)| + 1
      ensures db.entries == old(db.entries) && db.nextId == old(db.nextId)
    {
      UpsertProperties(db.products, product);
      err := db.InsertProduct(product, fault);
      if err.Some? {
        return;
      }
      products := products[product.id := product];
    }

    /** GetProducts: the products with their latest prices, or an empty
        list when the store read fails. */
    function GetProducts(fault: Option<string>): (r: seq<ProductWithLatestPrice>)
      reads db
      ensures fault.Some? ==> r == []
      ensures fault.None? ==> multiset(ProductsOf(r)) == multiset(db.products)
      ensures fault.None? ==> SortedBy(NameOrder, ProductsOf(r))
      ensures fault.None? ==> r == LatestPrices(db.products, db.entries)
    {
      match db.GetProductsWithLatestPrices(fault)
      case Failure(_) => []
      case Success(rows) => rows
    }

    /** GetPriceHistory: an existence-check error propagates; an unknown
        product is reported as not found without reading the history;
        otherwise the store's history for the same id and limit. */
    function GetPriceHistory(productId: string, limit: int, existsFault: Option<string>,
                             historyFault: Option<string>): (r: Result<seq<PriceEntry>, Error>)
      reads db
      ensures existsFault.Some? ==> r == Failure(StoreError(existsFault.value))
      ensures existsFault.None? && (forall p :: p in db.products ==> p.id != productId) ==>
                r == Failure(NotFound(productId))
      ensures existsFault.None? && (exists p :: p in db.products && p.id == productId) ==>
                r == db.GetPriceHistory(productId, limit, historyFault)
      ensures r.Success? ==> forall e :: e in r.value ==> e in db.entries && e.productId == productId
      ensures r.Success? ==> SortedBy(NewerFirst, r.value)
      ensures r.Success? && limit >= 0 ==> |r.value| <= limit
    {
      match db.ProductExists(productId, existsFault)
      case Failure(e) => Failure(e)
      case Success(known) =>
        if !known then Failure(NotFound(productId))
        else db.GetPriceHistory(productId, limit, historyFault)
    }

    /** The first step of trackAllProducts: a copy of the registry's
        values, one per key, in an arbitrary order. */
    method Snapshot() returns (snapshot: seq<Product>)
      requires Valid()
      ensures |snapshot| == |products|
      ensures UniqueIds(snapshot)
      ensures forall p :: p in snapshot ==> p.id in products && products[p.id] == p
      ensures forall id :: id in products ==> products[id] in snapshot
    {
      snapshot := [];
      var pending := products.Keys;
      while pending != {}
        invariant pending <= products.Keys
        invariant |snapshot| + |pending| == |products|
        invariant UniqueIds(snapshot)
        invariant forall p :: p in snapshot ==> p.id in products.Keys - pending && products[p.id] == p
        invariant forall id :: id in products.Keys - pending ==> products[id] in snapshot
        decreases pending
      {
        var id :| id in pending;
        snapshot := snapshot + [products[id]];
        pending := pending - {id};
      }
    }

    /** priceWorker: every queued product is fetched once, in queue order,
        and an entry is sent on only for a positive price. */
    method PriceWorker(queue: seq<Product>, fetch: Product -> real, clock: Product -> nat)
      returns (fetched: seq<Product>, results: seq<PriceEntry>)
      ensures fetched == queue
      ensures results == Measurements(queue, fetch, clock)
    {
      fetched, results := [], [];
      for i := 0 to |queue|
        invariant fetched == queue[..i]
        invariant results == Measurements(queue[..i], fetch, clock)
      {
        assert queue[..i + 1] == queue[..i] + [queue[i]];
        MeasurementsPrefix(queue, i, fetch, clock);
        var product := queue[i];
        var price := fetch(product);
        fetched := fetched + [product];
        if price > 0.0 {
          results := results + [PriceEntry(0, product.id, price, clock(product))];
        }
      }
      assert queue[..|queue|] == queue;
    }

    /** One step of the collecting loop: the entry is written to the log;
        on success it is stored under the next row id, on failure it is only
        reported and the store is unchanged. */
    method SaveOne(entry: PriceEntry, writeFault: PriceEntry -> Option<string>) returns (ok: bool)
      requires db.Valid()
      modifies db
      ensures db.Valid()
      ensures ok <==> writeFault(entry).None?
      ensures db.products == old(db.products)
      ensures ok ==> db.entries == old(db.entries) + [entry.(id := old(db.nextId))] && db.nextId == old(db.nextId) + 1
      ensures !ok ==> db.entries == old(db.entries) && db.nextId == old(db.nextId)
    {
      var err := db.InsertPriceEntry(entry.productId, entry.price, entry.timestamp, writeFault(entry));
      assert PriceEntry(old(db.nextId), entry.productId, entry.price, entry.timestamp) == entry.(id := old(db.nextId));
      ok := err.None?;
    }

    /** The order in which the results reach the collector: any
        arrangement of them, each exactly once. The workers' completion
        order is not determined, so the draw is arbitrary. */
    method ArrivalOrder(results: seq<PriceEntry>) returns (order: seq<PriceEntry>)
      ensures multiset(order) == multiset(results)
    {
      order := [];
      var pending := multiset(results);
      while pending != multiset{}
        invariant multiset(order) + pending == multiset(results)
        decreases |pending|
      {
        var entry :| entry in pending;
        pending := pending - multiset{entry};
        order := order + [entry];
      }
    }

    /** The writes of the collecting loop, in the given order: each entry
        is written once; a failed write is only reported and the remaining
        entries are still written. The log grows by exactly the entries
        whose write succeeded, with consecutive row ids. */
    method WriteAll(order: seq<PriceEntry>, writeFault: PriceEntry -> Option<string>)
      returns (saved: seq<PriceEntry>)
      requires db.Valid()
      modifies db
      ensures db.Valid()
      ensures saved == Saved(order, writeFault)
      ensures db.products == old(db.products)
      ensures db.entries == old(db.entries) + Stamped(saved, old(db.nextId))
      ensures db.nextId == old(db.nextId) + |saved|
    {
      saved := [];
      for i := 0 to |order|
        invariant saved == Saved(order[..i], writeFault)
        invariant db.Valid()
        invariant db.products == old(db.products)
        invariant db.entries == old(db.entries) + Stamped(saved, old(db.nextId))
        invariant db.nextId == old(db.nextId) + |saved|
      {
        var entry := order[i];
        var ok := SaveOne(entry, writeFault);
        SavedPrefix(order, i, writeFault);
        if ok {
          StampedAppend(old(db.entries), saved, entry, old(db.nextId));
          saved := saved + [entry];
        }
      }
      assert order[..|order|] == order;
    }

    /** The collecting loop of trackAllProducts: every result is written,
        in an arbitrary order; a failed write is only reported and the
        remaining results are still written. The log grows by exactly the
        entries whose write succeeded, with consecutive row ids. */
    method SaveResults(results: seq<PriceEntry>, writeFault: PriceEntry -> Option<string>)
      returns (attempted: seq<PriceEntry>, saved: seq<PriceEntry>)
      requires Valid()
      modifies db
      ensures Valid()
      ensures multiset(attempted) == multiset(results)
      ensures saved == Saved(attempted, writeFault)
      ensures db.products == old(db.products)
      ensures db.entries == old(db.entries) + Stamped(saved, old(db.nextId))
      ensures db.nextId == old(db.nextId) + |saved|
    {
      attempted := ArrivalOrder(results);
      saved := WriteAll(attempted, writeFault);
    }

    /** trackAllProducts: one round. Every registered product is fetched
        exactly once; an empty registry means no fetch and no write; every
        measured entry gets one write attempt; the log grows only by saved
        entries, all with positive prices, never more than there are
        products; the registry and the products table are unchanged. */
    method TrackAllProducts(fetch: Product -> real, clock: Product -> nat,
                            writeFault: PriceEntry -> Option<string>)
      returns (fetched: seq<Product>, attempted: seq<PriceEntry>, saved: seq<PriceEntry>)
      requires Valid()
      modifies db
      ensures Valid()
      ensures |fetched| == |products| && UniqueIds(fetched)
      ensures forall p :: p in fetched ==> p.id in products && products[p.id] == p
      ensures forall id :: id in products ==> products[id] in fetched
      ensures multiset(attempted) == multiset(Measurements(fetched, fetch, clock))
      ensures saved == Saved(attempted, writeFault)
      ensures |saved| <= |products|
      ensures products == map[] ==> fetched == [] && attempted == [] && saved == []
      ensures db.products == old(db.products)
      ensures db.entries == old(db.entries) + Stamped(saved, old(db.nextId))
      ensures db.nextId == old(db.nextId) + |saved|
      ensures forall k :: |old(db.entries)| <= k < |db.entries| ==> db.entries[k].price > 0.0
    {
      fetched, attempted, saved := [], [], [];
      var snapshot := Snapshot();
      if |snapshot| == 0 {
        return;
      }
      var results;
      fetched, results := PriceWorker(snapshot, fetch, clock);
      attempted, saved := SaveResults(results, writeFault);
      SavedAreMeasured(attempted, fetched, fetch, clock, writeFault);
      StampedPricesPositive(old(db.entries), saved, old(db.nextId));
    }
  }
}
