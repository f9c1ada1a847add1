/** The `GET /api/customers/by-phone` endpoint: read the `phone` query
    parameter, resolve it, and render the outcome as a status and a body. */
module ByPhoneEndpoint {
  import opened Wrappers
  import opened PhoneNumbers
  import opened CustomerLookup

  const StatusOK := 200
  const StatusBadRequest := 400
  const StatusInternalServerError := 500

  /** The JSON bodies the endpoint writes. */
  datatype Body =
    | ErrorBody(detail: string)
    | CustomerBody(success: bool, customer: Option<Customer>)

  datatype Response = Response(status: int, body: Body)

  /** URL query parameters: each name maps to the list of its values. */
  type QueryParams = map<string, seq<string>>

  /** The first value of the `phone` parameter, or the empty string when the
      parameter is absent or has no value. The values are taken as already
      URL-decoded. */
  function PhoneParam(params: QueryParams): string {
    if "phone" in params && |params["phone"]| > 0 then params["phone"][0] else ""
  }

  /** How each lookup outcome is reported to the client. */
  function Render(l: Lookup): (resp: Response)
    ensures resp.status == StatusBadRequest <==> l == EmptyQuery
    ensures resp.status == StatusInternalServerError <==> l.DbFailure?
    ensures resp.status == StatusOK <==> l.Found? || l == NotFound
    ensures resp.body.CustomerBody? <==> resp.status == StatusOK
    ensures resp.body.CustomerBody? ==> (resp.body.success <==> resp.body.customer.Some?)
    ensures resp.body.CustomerBody? ==> (resp.body.success <==> l.Found?)
    ensures l.Found? ==> resp.body.customer == Some(l.customer)
  {
    match l
    case EmptyQuery => Response(StatusBadRequest, ErrorBody("Phone number is required"))
    case DbFailure(ExactRead) => Response(StatusInternalServerError, ErrorBody("Failed to get customer"))
    case DbFailure(ListRead) => Response(StatusInternalServerError, ErrorBody("Failed to get customers"))
    case NotFound => Response(StatusOK, CustomerBody(false, None))
    case Found(c) => Response(StatusOK, CustomerBody(true, Some(c)))
  }

  /** Reading a response back: which lookup outcome it reports. */
  function Interpret(resp: Response): Option<Lookup> {
    match resp.body
    case ErrorBody(detail) =>
      if resp.status == StatusBadRequest && detail == "Phone number is required" then Some(EmptyQuery)
      else if resp.status == StatusInternalServerError && detail == "Failed to get customer" then Some(DbFailure(ExactRead))
      else if resp.status == StatusInternalServerError && detail == "Failed to get customers" then Some(DbFailure(ListRead))
      else None
    case CustomerBody(success, customer) =>
      if resp.status != StatusOK then None
      else if success && customer.Some? then Some(Found(customer.value))
      else if !success && customer.None? then Some(NotFound)
      else None
  }

  /** Distinct outcomes are reported distinctly: the client can recover the
      outcome from the response alone. */
  lemma RenderRoundTrip(l: Lookup)
    ensures Interpret(Render(l)) == Some(l)
  {
  }

  /** The handler, following the server's control flow with its early
      returns: the directory is read by the exact lookup first and by the
      normalized scan only when the exact lookup finds no rows. */
  method GetCustomerByPhone(params: QueryParams, store: Store) returns (resp: Response)
    ensures resp == Render(Resolve(PhoneParam(params), store))
    ensures resp.status == StatusBadRequest <==> PhoneParam(params) == ""
    ensures PhoneParam(params) == "" ==> resp == Response(StatusBadRequest, ErrorBody("Phone number is required"))
    ensures resp.body.CustomerBody? && resp.body.success ==>
      && resp.body.customer.Some?
      && resp.body.customer.value in store.customers
      && resp.body.customer.value.phone.Some?
      && Normalize(resp.body.customer.value.phone.value) == Normalize(PhoneParam(params))
  {
    var phone := PhoneParam(params);
    if phone == "" {
      return Response(StatusBadRequest, ErrorBody("Phone number is required"));
    }
    if store.exactReadFails {
      return Response(StatusInternalServerError, ErrorBody("Failed to get customer"));
    }
    var customer := ExactLookup(store.customers, phone);
    if customer.None? {
      var normalizedPhone := NormalizePhoneNumber(phone);
      if store.listReadFails {
        return Response(StatusInternalServerError, ErrorBody("Failed to get customers"));
      }
      customer := ScanNormalized(store.customers, normalizedPhone);
      ghost var k := FirstMatch(store.customers, SameDigits(normalizedPhone));
      assert customer.Some? ==> k.Some? && customer.value == store.customers[k.value];
    }
    if customer.None? {
      return Response(StatusOK, CustomerBody(false, None));
    }
    return Response(StatusOK, CustomerBody(true, customer));
  }
}
