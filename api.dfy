/** The parts of the HTTP layer (api.go) that decide something: the product
    id check and the choice of the history limit in handleGetPriceHistory,
    and the pass-through of handleGetProducts. A response is its status
    code and the value that would be encoded as JSON. */
module Api {
  import opened Wrappers
  import opened Models
  import opened Ordering
  import opened Queries
  import opened Tracker

  const StatusOK := 200
  const StatusBadRequest := 400
  const StatusNotFound := 404

  /** The history limit used when the request gives none that is usable. */
  const DefaultLimit := 50

  /** Go's `int` on a 64-bit platform. */
  const MinInt := -0x8000_0000_0000_0000
  const MaxInt := 0x7fff_ffff_ffff_ffff

  datatype Body =
    | ErrorBody(error: string)
    | HistoryBody(productId: string, history: seq<PriceEntry>, count: int)
    | ProductsBody(products: seq<ProductWithLatestPrice>)

  datatype Response = Response(status: int, body: Body)

  // ---------------------------------------------------------------------
  // strconv.Atoi and its inverse

  predicate IsDigit(c: char)
  {
    '0' <= c <= '9'
  }

  predicate AllDigits(s: string)
  {
    forall i :: 0 <= i < |s| ==> IsDigit(s[i])
  }

  /** The number a string of decimal digits denotes. */
  function DigitsValue(s: string): nat
    requires AllDigits(s)
  {
    if s == [] then 0 else DigitsValue(s[..|s| - 1]) * 10 + (s[|s| - 1] as int - '0' as int)
  }

  /** strconv.Atoi: an optional sign followed by at least one decimal digit
      (leading zeros allowed), whose value fits Go's 64-bit `int`; anything
      else is an error, here None. */
  function Atoi(s: string): (r: Option<int>)
    ensures r.Some? ==> MinInt <= r.value <= MaxInt
    ensures r.Some? ==> |s| > 0 && (IsDigit(s[0]) || (|s| > 1 && (s[0] == '+' || s[0] == '-')))
    ensures r.Some? ==> forall i :: 0 < i < |s| ==> IsDigit(s[i])
  {
    if |s| == 0 then None
    else
      var digits := if s[0] == '-' || s[0] == '+' then s[1..] else s;
      if |digits| == 0 || !AllDigits(digits) then None
      else
        assert forall i :: 0 < i < |s| ==> s[i] == digits[i - (|s| - |digits|)];
        var magnitude: int := DigitsValue(digits);
        var n := if s[0] == '-' then -magnitude else magnitude;
        if n < MinInt || n > MaxInt then None else Some(n)
  }

  /** Atoi accepts every optional sign followed by at least one decimal
      digit, leading zeros included, exactly when the value fits Go's
      64-bit `int`, and then returns that value. */
  lemma AtoiSigned(sign: string, digits: string)
    requires sign == "" || sign == "+" || sign == "-"
    requires |digits| > 0 && AllDigits(digits)
    ensures var magnitude: int := DigitsValue(digits);
            var v := if sign == "-" then -magnitude else magnitude;
            Atoi(sign + digits) == if MinInt <= v <= MaxInt then Some(v) else None
  {
    var s := sign + digits;
    if sign == "" {
      assert s == digits;
      assert IsDigit(s[0]);
    } else {
      assert s[0] == sign[0];
      assert s[1..] == digits;
    }
  }

  /** The canonical decimal digits of a natural number. */
  function DecimalDigits(n: nat): (s: string)
    ensures |s| > 0 && AllDigits(s)
  {
    if n < 10 then [('0' as int + n) as char]
    else DecimalDigits(n / 10) + [('0' as int + n % 10) as char]
  }

  /** strconv.Itoa: the canonical decimal form, with '-' for negatives. */
  function Itoa(n: int): string
  {
    if n < 0 then "-" + DecimalDigits(-n) else DecimalDigits(n)
  }

  lemma {:induction false} DigitsRoundTrip(n: nat)
    ensures DigitsValue(DecimalDigits(n)) == n
  {
    if n >= 10 {
      DigitsRoundTrip(n / 10);
      var s := DecimalDigits(n);
      assert s[..|s| - 1] == DecimalDigits(n / 10);
    }
  }

  /** Atoi reads back every `int` that Itoa writes. */
  lemma AtoiItoa(n: int)
    requires MinInt <= n <= MaxInt
    ensures Atoi(Itoa(n)) == Some(n)
  {
    if n < 0 {
      DigitsRoundTrip(-n);
      assert Itoa(n)[1..] == DecimalDigits(-n);
    } else {
      DigitsRoundTrip(n);
    }
  }

  // ---------------------------------------------------------------------
  // Handlers

  /** The limit handleGetPriceHistory passes on: the `limit` query value
      when it parses as an integer and is positive, 50 otherwise (also when
      it is absent, which the query API reports as ""). Always at least 1. */
  function EffectiveLimit(limitParam: string): (limit: int)
    ensures 1 <= limit <= MaxInt
    ensures limitParam == "" ==> limit == DefaultLimit
    ensures Atoi(limitParam).None? ==> limit == DefaultLimit
    ensures Atoi(limitParam).Some? && Atoi(limitParam).value > 0 ==> limit == Atoi(limitParam).value
    ensures Atoi(limitParam).Some? && Atoi(limitParam).value <= 0 ==> limit == DefaultLimit
  {
    var parsed := Atoi(limitParam);
    if limitParam != "" && parsed.Some? && parsed.value > 0 then parsed.value else DefaultLimit
  }

  /** A positive limit written in decimal is used as it is; zero or a
      negative one falls back to the default. */
  lemma EffectiveLimitOfNumber(n: int)
    requires MinInt <= n <= MaxInt
    ensures EffectiveLimit(Itoa(n)) == if n > 0 then n else DefaultLimit
  {
    AtoiItoa(n);
  }

  /** handleGetProducts: the tracker's product list, unchanged, with 200. */
  function HandleGetProducts(tracker: PriceTracker, fault: Option<string>): (r: Response)
    reads tracker.db
    ensures r.status == StatusOK && r.body.ProductsBody?
    ensures r.body.products == tracker.GetProducts(fault)
    ensures fault.Some? ==> r.body.products == []
    ensures fault.None? ==> multiset(ProductsOf(r.body.products)) == multiset(tracker.db.products)
    ensures fault.None? ==> SortedBy(NameOrder, ProductsOf(r.body.products))
    ensures fault.None? ==> r.body.products == LatestPrices(tracker.db.products, tracker.db.entries)
  {
    Response(StatusOK, ProductsBody(tracker.GetProducts(fault)))
  }

  /** handleGetPriceHistory: an empty id is a 400 and the tracker is not
      consulted; an error from the tracker is a 404 carrying its message;
      otherwise a 200 with the id, the history unchanged and its length,
      which never exceeds the effective limit. */
  function HandleGetPriceHistory(tracker: PriceTracker, productId: string, limitParam: string,
                                 existsFault: Option<string>, historyFault: Option<string>): (r: Response)
    reads tracker.db
    ensures productId == "" ==> r == Response(StatusBadRequest, ErrorBody("Product ID is required"))
    ensures productId != "" ==>
              var result := tracker.GetPriceHistory(productId, EffectiveLimit(limitParam), existsFault, historyFault);
              && (result.Failure? ==> r == Response(StatusNotFound, ErrorBody(result.error.Message())))
              && (result.Success? ==> r == Response(StatusOK, HistoryBody(productId, result.value, |result.value|)))
    ensures r.status == StatusOK ==>
              && r.body.HistoryBody?
              && r.body.count == |r.body.history| <= EffectiveLimit(limitParam)
              && (forall e :: e in r.body.history ==> e.productId == productId)
              && SortedBy(NewerFirst, r.body.history)
  {
    if productId == "" then Response(StatusBadRequest, ErrorBody("Product ID is required"))
    else
      var limit := EffectiveLimit(limitParam);
      match tracker.GetPriceHistory(productId, limit, existsFault, historyFault)
      case Failure(e) => Response(StatusNotFound, ErrorBody(e.Message()))
      case Success(history) => Response(StatusOK, HistoryBody(productId, history, |history|))
  }
}
