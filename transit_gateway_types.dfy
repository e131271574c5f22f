/**
 * The three transit gateway controllers (VPC attachments, route tables and
 * gateways). They differ only in the name they report; each caches the
 * identifiers it last fetched in its `Ids` field.
 *
 * The kind-specific `getAll` and `nukeAll` of these controllers are not part
 * of this model: their results are passed in.
 */
module TransitGatewayTypes {
  import opened Common

  /** The package-wide batch-size constant, defined outside the files modelled here. */
  const SharedMaxBatchSize: int

  datatype Kind = VpcAttachment | RouteTable | Gateway

  /** The simple name each controller reports. */
  function ResourceName(kind: Kind): string
  {
    match kind
    case VpcAttachment => "transit-gateway-attachment"
    case RouteTable => "transit-gateway-route-table"
    case Gateway => "transit-gateway"
  }

  /** Every controller reports the one shared batch size. */
  function MaxBatchSize(kind: Kind): int
  {
    SharedMaxBatchSize
  }

  /** The three kinds report pairwise distinct names, so the kind is known from its name. */
  lemma ResourceNamesDistinct(a: Kind, b: Kind)
    ensures ResourceName(a) == ResourceName(b) <==> a == b
  {
  }

  /** All three kinds report the same batch size. */
  lemma SameBatchSize(a: Kind, b: Kind)
    ensures MaxBatchSize(a) == MaxBatchSize(b)
  {
  }

  class TransitGatewayController {
    const kind: Kind
    var ids: seq<string>

    constructor (kind: Kind)
      ensures this.kind == kind && ids == []
    {
      this.kind := kind;
      ids := [];
    }

    /** The identifiers last fetched; reading them changes nothing. */
    function ResourceIdentifiers(): (r: seq<string>)
      reads this
      ensures r == ids
    {
      ids
    }

    /**
     * Caches and returns the identifiers `getAll` fetched; when the fetch
     * failed, returns its error and keeps the old cache.
     */
    method GetAndSetIdentifiers(fetched: Result<seq<string>>) returns (r: Result<seq<string>>)
      modifies this
      ensures fetched.Success? ==> ids == fetched.value && r == Success(fetched.value)
      ensures fetched.Failure? ==> ids == old(ids) && r == Failure(fetched.error)
    {
      if fetched.Failure? {
        return Failure(fetched.error);
      }
      ids := fetched.value;
      return Success(ids);
    }

    /**
     * Hands the identifiers to the kind's `nukeAll` unchanged; nil exactly
     * when `nukeAll` returns nil, and otherwise its error.
     */
    method Nuke(identifiers: seq<string>, nukeAll: seq<string> -> Option<Error>) returns (err: Option<Error>)
      ensures err.None? <==> nukeAll(identifiers).None?
      ensures err.Some? ==> err == nukeAll(identifiers)
    {
      var e := nukeAll(identifiers);
      if e.Some? {
        return e;
      }
      return None;
    }
  }

  /** A successful fetch is what the getter then reports, whatever was cached before. */
  method RefreshThenRead(c: TransitGatewayController, fetched: seq<string>) returns (read: seq<string>)
    modifies c
    ensures read == fetched
  {
    var r := c.GetAndSetIdentifiers(Success(fetched));
    assert r == Success(fetched);
    read := c.ResourceIdentifiers();
  }
}
