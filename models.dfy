/** The records of the price tracker (models.go) and the errors its
    operations report. Prices are reals (only `> 0` and equality matter);
    timestamps are natural numbers supplied by the environment. */
module Models {
  import opened Wrappers

  /** A product to track; `id` is the primary key. */
  datatype Product = Product(id: string, name: string, url: string)

  /** One price measurement. `id` is the row id the store assigns; entries
      that have not been stored yet carry Go's zero value 0. */
  datatype PriceEntry = PriceEntry(id: int, productId: string, price: real, timestamp: nat)

  /** A product joined with its most recent measurement, if it has one. */
  datatype ProductWithLatestPrice =
    ProductWithLatestPrice(product: Product, latestPrice: Option<real>, lastUpdated: Option<nat>)

  /** Errors: a failure reported by the SQL driver (with its message), or
      the tracker's "product not found". */
  datatype Error = StoreError(message: string) | NotFound(productId: string)
  {
    /** The text Go's `err.Error()` yields: the driver's own message, or
        a fixed phrase ending in the missing product's id. */
    function Message(): (r: string)
      ensures StoreError? ==> r == message
      ensures NotFound? ==> |r| > |productId| && r[|r| - |productId|..] == productId
    {
      match this
      case StoreError(m) => m
      case NotFound(id) => "product not found: " + id
    }
  }

  /** The not-found message names the product: different ids give
      different messages. */
  lemma NotFoundMessageInjective(a: string, b: string)
    ensures NotFound(a).Message() == NotFound(b).Message() ==> a == b
  {
    var prefix := "product not found: ";
    if NotFound(a).Message() == NotFound(b).Message() {
      assert (prefix + a)[|prefix|..] == a;
      assert (prefix + b)[|prefix|..] == b;
    }
  }
}
