/** The in-memory store: two sequences of CSV records, each record a map
    from column name to string value. A record without a column simply
    lacks the key, which JavaScript reads as `undefined`. */
module Records {
  import opened Wrappers
  import opened Text

  type Record = map<string, string>

  /** Both record sequences as the handlers see them; nothing in the
      request handlers ever replaces or changes them. */
  datatype Store = Store(products: seq<Record>, orders: seq<Record>)

  /** `record[key]`, with a missing column read as `undefined` (None). */
  function Field(r: Record, key: string): Option<string> {
    if key in r then Some(r[key]) else None
  }

  /** `o.order_id === id`: an order with no `order_id` never matches. */
  predicate HasOrderId(o: Record, id: string) {
    "order_id" in o && o["order_id"] == id
  }

  /** `p.name?.toLowerCase() === name.toLowerCase()`. */
  predicate NameEqualsIgnoringCase(p: Record, name: string) {
    "name" in p && ToLower(p["name"]) == ToLower(name)
  }

  /** `p.name?.toLowerCase().includes(query)`. */
  predicate NameContains(p: Record, query: string) {
    "name" in p && Contains(ToLower(p["name"]), query)
  }

  /** `xs.find(test)` from position `from`: the index of the first element at
      or after `from` that passes the test. */
  function FindFrom<T>(xs: seq<T>, test: T -> bool, from: nat): (r: Option<nat>)
    decreases |xs| - from
    ensures r.Some? ==> from <= r.value < |xs| && test(xs[r.value])
    ensures r.Some? ==> forall j :: from <= j < r.value ==> !test(xs[j])
    ensures r.None? ==> forall j :: from <= j < |xs| ==> !test(xs[j])
  {
    if from >= |xs| then None
    else if test(xs[from]) then Some(from)
    else FindFrom(xs, test, from + 1)
  }

  /** `xs.find(test)`, as an index: the first element that passes. */
  function Find<T>(xs: seq<T>, test: T -> bool): (r: Option<nat>)
    ensures r.Some? ==> r.value < |xs| && test(xs[r.value])
    ensures r.Some? ==> forall j :: 0 <= j < r.value ==> !test(xs[j])
    ensures r.None? <==> forall j :: 0 <= j < |xs| ==> !test(xs[j])
  {
    FindFrom(xs, test, 0)
  }

  /** The first order whose `order_id` is exactly `id`. */
  function FindOrder(orders: seq<Record>, id: string): (r: Option<nat>)
    ensures r.Some? ==> r.value < |orders| && HasOrderId(orders[r.value], id)
    ensures r.Some? ==> forall j :: 0 <= j < r.value ==> !HasOrderId(orders[j], id)
    ensures r.None? <==> forall j :: 0 <= j < |orders| ==> !HasOrderId(orders[j], id)
  {
    Find(orders, o => HasOrderId(o, id))
  }

  /** The first product whose name equals `name`, ignoring case. */
  function FindProductByName(products: seq<Record>, name: string): (r: Option<nat>)
    ensures r.Some? ==> r.value < |products| && NameEqualsIgnoringCase(products[r.value], name)
    ensures r.Some? ==> forall j :: 0 <= j < r.value ==> !NameEqualsIgnoringCase(products[j], name)
    ensures r.None? <==> forall j :: 0 <= j < |products| ==> !NameEqualsIgnoringCase(products[j], name)
  {
    Find(products, p => NameEqualsIgnoringCase(p, name))
  }

  /** The first product whose lower-cased name contains `query`. */
  function FindProductContaining(products: seq<Record>, query: string): (r: Option<nat>)
    ensures r.Some? ==> r.value < |products| && NameContains(products[r.value], query)
    ensures r.Some? ==> forall j :: 0 <= j < r.value ==> !NameContains(products[j], query)
    ensures r.None? <==> forall j :: 0 <= j < |products| ==> !NameContains(products[j], query)
  {
    Find(products, p => NameContains(p, query))
  }

  /** A product whose name equals a lower-case query ignoring case also
      contains it, so the substring search stops no later than the exact
      search. */
  lemma ExactNameIsFoundBySubstring(products: seq<Record>, name: string)
    requires FindProductByName(products, name).Some?
    ensures FindProductContaining(products, ToLower(name)).Some?
    ensures FindProductContaining(products, ToLower(name)).value <= FindProductByName(products, name).value
  {
    var k := FindProductByName(products, name).value;
    var q := ToLower(name);
    assert OccursAt(ToLower(products[k]["name"]), q, 0);
    assert NameContains(products[k], q);
  }

  /** The empty query is contained in every name, so it finds the first
      product that has a `name` column at all. */
  lemma EmptyQueryFindsFirstNamed(products: seq<Record>)
    ensures FindProductContaining(products, "") == Find(products, (p: Record) => "name" in p)
  {
    forall p: Record | "name" in p
      ensures NameContains(p, "")
    {
      ContainsEmpty(ToLower(p["name"]));
    }
    var a := FindProductContaining(products, "");
    var b := Find(products, (p: Record) => "name" in p);
    if a.Some? && b.Some? {
      assert a.value == b.value by {
        assert !(a.value < b.value);
        assert !(b.value < a.value);
      }
    }
  }
}
