/** Resolution of a phone query against the customer directory: an exact match
    on the stored phone first, then a first-match scan on normalized phones. */
module CustomerLookup {
  import opened Wrappers
  import opened PhoneNumbers

  /** A directory entry. The stored phone is a nullable column: `None` is SQL NULL. */
  datatype Customer = Customer(id: int, firstName: string, lastName: string, phone: Option<string>)

  /** One snapshot of the directory, in the order the database returns it, and
      whether each of the two reads fails with an error other than "no rows". */
  datatype Store = Store(customers: seq<Customer>, exactReadFails: bool, listReadFails: bool)

  /** The two database reads the lookup may perform. */
  datatype Read = ExactRead | ListRead

  /** The outcome of one lookup. */
  datatype Lookup = EmptyQuery | DbFailure(read: Read) | Found(customer: Customer) | NotFound

  /** How a directory entry is compared with the query. */
  datatype Criterion =
    | Verbatim(raw: string)   // the stored phone is present and equals `raw` character for character
    | SameDigits(key: string) // the stored phone is present and normalizes to `key`

  predicate Accepts(k: Criterion, c: Customer) {
    match k
    case Verbatim(raw) => c.phone == Some(raw)
    case SameDigits(key) => c.phone.Some? && Normalize(c.phone.value) == key
  }

  /** Index of the first entry of `dir` that `k` accepts, if any. */
  function FirstMatch(dir: seq<Customer>, k: Criterion): (r: Option<nat>)
    ensures r.Some? ==> r.value < |dir| && Accepts(k, dir[r.value])
    ensures r.Some? ==> forall j :: 0 <= j < r.value ==> !Accepts(k, dir[j])
    ensures r.None? <==> forall j :: 0 <= j < |dir| ==> !Accepts(k, dir[j])
  {
    if |dir| == 0 then None
    else if Accepts(k, dir[0]) then Some(0)
    else
      match FirstMatch(dir[1..], k)
      case None => None
      case Some(i) => Some(i + 1)
  }

  /** The exact-match read: the first entry whose stored phone is present and
      equal to the query, `None` standing for "no rows". */
  function ExactLookup(dir: seq<Customer>, query: string): (r: Option<Customer>)
    ensures r.Some? ==> r.value in dir && r.value.phone == Some(query)
    ensures r.None? <==> forall c :: c in dir ==> c.phone != Some(query)
  {
    match FirstMatch(dir, Verbatim(query))
    case Some(i) => Some(dir[i])
    case None => None
  }

  /** The fallback loop: walk the directory in order, skip entries whose phone
      is NULL, and stop at the first whose normalized phone equals the
      normalized query. */
  method ScanNormalized(customers: seq<Customer>, normalizedPhone: string) returns (hit: Option<Customer>)
    ensures hit.None? <==> forall j :: 0 <= j < |customers| ==> !Accepts(SameDigits(normalizedPhone), customers[j])
    ensures hit.Some? ==>
      exists i :: && 0 <= i < |customers| && customers[i] == hit.value
                  && Accepts(SameDigits(normalizedPhone), customers[i])
                  && (forall j :: 0 <= j < i ==> !Accepts(SameDigits(normalizedPhone), customers[j]))
  {
    hit := None;
    var i := 0;
    while i < |customers|
      invariant 0 <= i <= |customers|
      invariant forall j :: 0 <= j < i ==> !Accepts(SameDigits(normalizedPhone), customers[j])
    {
      var c := customers[i];
      if c.phone.Some? {
        var normalizedCustomerPhone := NormalizePhoneNumber(c.phone.value);
        if normalizedCustomerPhone == normalizedPhone {
          hit := Some(c);
          return;
        }
      }
      i := i + 1;
    }
  }

  /** The whole decision: reject an empty query before touching the
      directory; otherwise try the exact read, and only when it finds no rows
      fall back to the list read and the normalized first-match scan. */
  function Resolve(query: string, store: Store): (r: Lookup)
    ensures r == EmptyQuery <==> query == ""
    ensures r == DbFailure(ExactRead) <==> query != "" && store.exactReadFails
    ensures r == DbFailure(ListRead) <==>
      && query != "" && !store.exactReadFails && store.listReadFails
      && forall c :: c in store.customers ==> c.phone != Some(query)
    ensures r.Found? ==> r.customer in store.customers && r.customer.phone.Some?
    ensures r.Found? ==> Normalize(r.customer.phone.value) == Normalize(query)
    ensures r.NotFound? ==> !store.exactReadFails && !store.listReadFails
    ensures r.NotFound? ==> forall c :: c in store.customers ==> !Accepts(SameDigits(Normalize(query)), c)
  {
    if query == "" then EmptyQuery
    else if store.exactReadFails then DbFailure(ExactRead)
    else
      match ExactLookup(store.customers, query)
      case Some(c) => Found(c)
      case None =>
        if store.listReadFails then DbFailure(ListRead)
        else
          match FirstMatch(store.customers, SameDigits(Normalize(query)))
          case Some(i) => Found(store.customers[i])
          case None => NotFound
  }

  /** An entry stored verbatim as the query answers through the exact path:
      the first such entry is returned, whatever other entries normalize to
      and whether or not the list read would have failed. */
  lemma ExactMatchWins(query: string, store: Store, i: nat)
    requires query != "" && !store.exactReadFails
    requires i < |store.customers| && store.customers[i].phone == Some(query)
    requires forall j :: 0 <= j < i ==> store.customers[j].phone != Some(query)
    ensures Resolve(query, store) == Found(store.customers[i])
    ensures Resolve(query, store.(listReadFails := !store.listReadFails)) == Resolve(query, store)
  {
    assert Accepts(Verbatim(query), store.customers[i]);
  }

  /** When nothing is stored verbatim as the query and both reads succeed, the
      answer is the first entry, in directory order, whose present phone
      normalizes to the normalized query; earlier entries with a NULL phone or
      another normalized phone are passed over. */
  lemma FallbackFirstMatch(query: string, store: Store, i: nat)
    requires query != "" && !store.exactReadFails && !store.listReadFails
    requires forall c :: c in store.customers ==> c.phone != Some(query)
    requires i < |store.customers|
    requires store.customers[i].phone.Some?
    requires Normalize(store.customers[i].phone.value) == Normalize(query)
    requires forall j :: 0 <= j < i ==> !Accepts(SameDigits(Normalize(query)), store.customers[j])
    ensures Resolve(query, store) == Found(store.customers[i])
  {
    var key := SameDigits(Normalize(query));
    assert Accepts(key, store.customers[i]);
  }

  /** With both reads succeeding, a nonempty query is answered with some
      customer exactly when some entry has a present phone with the same
      normalized form; otherwise the answer is NotFound. */
  lemma FoundIffSomeEntryMatches(query: string, store: Store)
    requires query != "" && !store.exactReadFails && !store.listReadFails
    ensures Resolve(query, store).Found? <==>
      exists c :: c in store.customers && c.phone.Some? && Normalize(c.phone.value) == Normalize(query)
    ensures !Resolve(query, store).Found? ==> Resolve(query, store) == NotFound
  {
    var r := Resolve(query, store);
    if r.Found? {
      assert Accepts(SameDigits(Normalize(query)), r.customer);
    } else {
      assert r.NotFound?;
    }
  }

  /** Two queries that differ only in formatting get the same answer, as long
      as neither is stored verbatim in the directory. */
  lemma ResolveIgnoresFormatting(q1: string, q2: string, store: Store)
    requires q1 != "" && q2 != ""
    requires Normalize(q1) == Normalize(q2)
    requires forall c :: c in store.customers ==> c.phone != Some(q1) && c.phone != Some(q2)
    ensures Resolve(q1, store) == Resolve(q2, store)
  {
  }

  /** The exact path can answer with a later entry than the one the
      normalized scan would pick. Whatever digits `x` and `y` hold, with the
      directory [`x-y`, `xy`], the query `xy` is answered by the second entry,
      stored verbatim, although the first normalizes to the same digits; the
      query `x y`, stored nowhere verbatim, is answered by the first. */
  lemma ExactPathOverridesScanOrder(x: string, y: string)
    requires x + y != ""
    ensures
      var a := Customer(1, "Ann", "Lee", Some(x + "-" + y));
      var b := Customer(2, "Bo", "Kim", Some(x + y));
      var store := Store([a, b], false, false);
      && Normalize(x + "-" + y) == Normalize(x + y)
      && Resolve(x + y, store) == Found(b)
      && Resolve(x + " " + y, store) == Found(a)
  {
    var a := Customer(1, "Ann", "Lee", Some(x + "-" + y));
    var b := Customer(2, "Bo", "Kim", Some(x + y));
    var store := Store([a, b], false, false);
    assert NoneKept("-") && NoneKept(" ");
    SeparatorsIgnored(x, "-", y);
    SeparatorsIgnored(x, " ", y);
    assert |x + "-" + y| != |x + y|;
    ExactMatchWins(x + y, store, 1);
    assert (x + "-" + y)[|x|] != (x + " " + y)[|x|];
    assert |x + " " + y| != |x + y|;
    FallbackFirstMatch(x + " " + y, store, 0);
  }

  /** A nonempty query with no digit and no plus sign normalizes to the empty
      string, so, when it is stored nowhere verbatim, it is answered with the
      first entry whose present phone has no digit and no plus sign either
      (a stored "n/a", say). */
  lemma DigitFreeQueryMatchesDigitFreePhone(q: string, store: Store, i: nat)
    requires q != "" && NoneKept(q)
    requires !store.exactReadFails && !store.listReadFails
    requires forall c :: c in store.customers ==> c.phone != Some(q)
    requires i < |store.customers|
    requires store.customers[i].phone.Some? && NoneKept(store.customers[i].phone.value)
    requires forall j :: 0 <= j < i ==>
      !(store.customers[j].phone.Some? && NoneKept(store.customers[j].phone.value))
    ensures Resolve(q, store) == Found(store.customers[i])
  {
    NormalizeEmpty(q);
    NormalizeEmpty(store.customers[i].phone.value);
    forall j | 0 <= j < i
      ensures !Accepts(SameDigits(Normalize(q)), store.customers[j])
    {
      if store.customers[j].phone.Some? {
        NormalizeEmpty(store.customers[j].phone.value);
      }
    }
    FallbackFirstMatch(q, store, i);
  }
}
