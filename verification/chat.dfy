/** `POST /api/chat`: input validation, the five-rule intent classifier over
    the lower-cased message, and the reply each intent produces. */
module Chat {
  import opened Wrappers
  import opened Text
  import opened Patterns
  import opened Records
  import opened Http
  import Endpoints

  /** The `message` field of the parsed JSON body. */
  datatype MessageField = Absent | NonString | Text(text: string)

  /** The rule that fires, in priority order; the data each rule passes on
      to its reply. */
  datatype Intent =
    | Greeting
    | TopSellers
    | OrderLookup(orderId: string)
    | StockLookup(query: string)
    | NotUnderstood

  const InvalidInput := "Invalid input."
  const GreetingReply := "Hi! How can I help you today?"
  const TopSellersReply := "Sorry, order data does not include product references, so I cannot provide top sold products at the moment."
  const NotUnderstoodReply := "Sorry, I couldn't understand that. Try asking about order status or stock."

  /** A template literal renders `undefined` as the text "undefined". */
  function Display(v: Option<string>): string {
    if v.Some? then v.value else "undefined"
  }

  /** The number a string of decimal digits denotes, most significant digit
      first. */
  function DecimalValue(s: string): nat
    requires forall i :: 0 <= i < |s| ==> IsDigit(s[i])
  {
    if s == [] then 0
    else
      assert IsDigit(s[|s| - 1]);
      DecimalValue(s[..|s| - 1]) * 10 + (s[|s| - 1] as int - '0' as int)
  }

  /** Decimal rendering of a natural number, as in a template literal: digits
      that read back as `n`, with a leading zero only for zero itself. */
  function DecimalText(n: nat): (r: string)
    ensures r != []
    ensures forall i :: 0 <= i < |r| ==> IsDigit(r[i])
    ensures DecimalValue(r) == n
    ensures r[0] == '0' <==> n == 0
  {
    if n < 10 then [('0' as int + n) as char]
    else
      var high, low := DecimalText(n / 10), DecimalText(n % 10);
      assert (high + low)[..|high + low| - 1] == high;
      high + low
  }

  function OrderFoundReply(id: string, status: Option<string>): string {
    "The status of order ID " + id + " is: " + Display(status)
  }

  function OrderMissingReply(id: string): string {
    "Sorry, I couldn't find an order with ID " + id + "."
  }

  function InStockReply(name: string): string {
    "There are approximately " + DecimalText(Endpoints.EstimatedStock) + " " + name + " left in stock."
  }

  /** Note the typographic apostrophe (U+2019), unlike the other replies. */
  function ProductMissingReply(query: string): string {
    "I couldn\U{2019}t find the product \"" + query + "\" in our inventory."
  }

  /** Message contains a greeting word (rule 1). */
  ghost predicate Greets(lower: string) {
    Occurs(lower, "hi") || Occurs(lower, "hello")
  }

  /** Message asks for best sellers (rule 2). */
  ghost predicate AsksTopSellers(lower: string) {
    Occurs(lower, "top 5") || Occurs(lower, "most sold")
  }

  /** `/order id (\d+)/` can match somewhere (rule 3). */
  ghost predicate MentionsOrderId(lower: string) {
    exists i: nat, n: nat :: MatchesWith(OrderId, lower, i, n)
  }

  /** `/how many (.+)/` can match somewhere (rule 4). */
  ghost predicate AsksHowMany(lower: string) {
    exists i: nat, n: nat :: MatchesWith(StockGreedy, lower, i, n)
  }

  /** Capture group 1 of the stock question: the lazy pattern's when it
      matches, otherwise the greedy fallback's. A capture exists exactly when
      `how many ` is followed by a character other than a line terminator;
      it is never empty, never holds a line terminator, and is a piece of
      the message. */
  function StockCapture(lower: string): (r: Option<string>)
    ensures r.Some? <==> AsksHowMany(lower)
    ensures r.Some? ==> r.value != [] && forall j :: 0 <= j < |r.value| ==> !IsLineTerminator(r.value[j])
    ensures r.Some? ==> Occurs(lower, r.value)
    ensures forall m :: IsFirstMatch(StockLazy, lower, m) ==> r == Some(m.group)
    ensures (forall i: nat, k: nat :: !MatchesWith(StockLazy, lower, i, k)) ==>
      forall m :: IsFirstMatch(StockGreedy, lower, m) ==> r == Some(m.group)
  {
    match FirstMatch(StockLazy, lower)
    case Some(m) =>
      assert MatchesWith(StockGreedy, lower, m.start, |m.group|);
      assert OccursAt(lower, m.group, m.start + 9);
      FirstMatchIsOnly(StockLazy, lower);
      Some(m.group)
    case None =>
      match FirstMatch(StockGreedy, lower)
      case Some(m) =>
        assert OccursAt(lower, m.group, m.start + 9);
        FirstMatchIsOnly(StockGreedy, lower);
        Some(m.group)
      case None => None
  }

  /** The classifier: the first of the five rules that applies decides the
      intent, so exactly one fires for every message. */
  function Classify(lower: string): (r: Intent)
    ensures r.Greeting? <==> Greets(lower)
    ensures r.TopSellers? <==> !Greets(lower) && AsksTopSellers(lower)
    ensures r.OrderLookup? <==> !Greets(lower) && !AsksTopSellers(lower) && MentionsOrderId(lower)
    ensures r.OrderLookup? ==> exists m :: IsFirstMatch(OrderId, lower, m) && m.group == r.orderId
    ensures r.StockLookup? <==>
      !Greets(lower) && !AsksTopSellers(lower) && !MentionsOrderId(lower) && AsksHowMany(lower)
    ensures r.StockLookup? ==> r.query == ToLower(Trim(StockCapture(lower).value))
    ensures r.NotUnderstood? <==>
      !Greets(lower) && !AsksTopSellers(lower) && !MentionsOrderId(lower) && !AsksHowMany(lower)
  {
    if Contains(lower, "hi") || Contains(lower, "hello") then
      Greeting
    else if Contains(lower, "top 5") || Contains(lower, "most sold") then
      TopSellers
    else
      match FirstMatch(OrderId, lower)
      case Some(m) => OrderLookup(m.group)
      case None =>
        match StockCapture(lower)
        case Some(c) => StockLookup(ToLower(Trim(c)))
        case None => NotUnderstood
  }

  /** The reply for an intent. An order lookup quotes the status of the
      first order whose `order_id` is exactly the captured digits; a stock
      lookup names, in its stored case, the first product whose lower-cased
      name contains the query; each falls back to a not-found reply that
      echoes what was asked for. */
  function Answer(store: Store, intent: Intent): (reply: string)
    ensures intent.OrderLookup? ==>
      ((reply == OrderMissingReply(intent.orderId)) <==>
       forall j :: 0 <= j < |store.orders| ==> !HasOrderId(store.orders[j], intent.orderId))
    ensures intent.OrderLookup? && reply != OrderMissingReply(intent.orderId) ==>
      exists k :: && 0 <= k < |store.orders|
                  && HasOrderId(store.orders[k], intent.orderId)
                  && (forall j :: 0 <= j < k ==> !HasOrderId(store.orders[j], intent.orderId))
                  && reply == OrderFoundReply(intent.orderId, Field(store.orders[k], "status"))
    ensures intent.StockLookup? ==>
      ((reply == ProductMissingReply(intent.query)) <==>
       forall j :: 0 <= j < |store.products| ==> !NameContains(store.products[j], intent.query))
    ensures intent.StockLookup? && reply != ProductMissingReply(intent.query) ==>
      exists k :: && 0 <= k < |store.products|
                  && NameContains(store.products[k], intent.query)
                  && (forall j :: 0 <= j < k ==> !NameContains(store.products[j], intent.query))
                  && reply == InStockReply(store.products[k]["name"])
    ensures intent.Greeting? ==> reply == GreetingReply
    ensures intent.TopSellers? ==> reply == TopSellersReply
    ensures intent.NotUnderstood? ==> reply == NotUnderstoodReply
  {
    match intent
    case Greeting => GreetingReply
    case TopSellers => TopSellersReply
    case OrderLookup(id) =>
      var found := FindOrder(store.orders, id);
      if found.Some? then
        var reply := OrderFoundReply(id, Field(store.orders[found.value], "status"));
        assert reply[0] != OrderMissingReply(id)[0];
        reply
      else
        OrderMissingReply(id)
    case StockLookup(q) =>
      var found := FindProductContaining(store.products, q);
      if found.Some? then
        var reply := InStockReply(store.products[found.value]["name"]);
        assert reply[0] != ProductMissingReply(q)[0];
        reply
      else
        ProductMissingReply(q)
    case NotUnderstood => NotUnderstoodReply
  }

  /** The handler: a missing, non-string or empty message is rejected with
      400 before any rule is looked at; any other message is lower-cased,
      classified, and gets the reply of the one rule that fires, with status
      200. */
  function HandleChat(store: Store, message: MessageField): (r: Response)
    ensures r.status == 400 <==> !message.Text? || message.text == ""
    ensures r.status == 400 ==> r.body == ReplyBody(InvalidInput)
    ensures r.status != 400 ==> r.status == 200
    ensures r.status == 200 ==> r.body == ReplyBody(Answer(store, Classify(ToLower(message.text))))
  {
    if !message.Text? || message.text == "" then
      Response(400, ReplyBody(InvalidInput))
    else
      Ok(ReplyBody(Answer(store, Classify(ToLower(message.text)))))
  }

  /** The stock question's capture is cut from the lower-cased message and
      trimming only cuts it further, so the second lower-casing of the
      product text changes nothing: the query is the trimmed capture. */
  lemma StockQueryNeedsNoSecondLowering(message: string)
    ensures Classify(ToLower(message)).StockLookup? ==>
      Classify(ToLower(message)).query == Trim(StockCapture(ToLower(message)).value)
  {
    var lower := ToLower(message);
    if Classify(lower).StockLookup? {
      TrimOfPieceIsLowerCase(lower, StockCapture(lower).value);
    }
  }

  /** The rules see only the lower-cased message, so two messages that differ
      only in the case of their letters get the same response. */
  lemma HandleChatIgnoresCase(store: Store, a: string, b: string)
    requires ToLower(a) == ToLower(b)
    ensures HandleChat(store, Text(a)) == HandleChat(store, Text(b))
  {
    assert |a| == |ToLower(a)| == |b|;
  }
}
