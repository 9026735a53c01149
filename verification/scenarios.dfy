/** Properties of whole requests: agreement between the chat handler and the
    order-status endpoint, rule priority on concrete messages, and the
    worked examples.

    Several lemmas about a concrete message take it as a parameter `s`
    pinned by `requires s == "..."` instead of writing the literal in the
    contract. A string literal in a proof obligation is unfolded character by
    character wherever it appears; naming it once keeps each obligation small
    enough for the solver. */
module Scenarios {
  import opened Wrappers
  import opened Text
  import opened Patterns
  import opened Records
  import opened Http
  import opened Endpoints
  import opened Chat

  predicate AllDigits(d: string) {
    forall i :: 0 <= i < |d| ==> IsDigit(d[i])
  }

  /** `order id <digits>` is an order question and nothing else: it has no
      capitals, no greeting or best-seller words, and its first order-id
      match captures all the digits. */
  lemma OrderQuestionClassified(d: string)
    requires d != [] && AllDigits(d)
    ensures ToLower("order id " + d) == "order id " + d
    ensures Classify("order id " + d) == OrderLookup(d)
  {
    var s := "order id " + d;
    assert forall i :: 0 <= i < |s| ==> (i < 9 && s[i] == "order id "[i]) || (9 <= i && IsDigit(s[i]));
    ToLowerFixesLowercase(s);
    OccursNeedsFirstChar(s, "hi");
    OccursNeedsFirstChar(s, "hello");
    OccursNeedsFirstChar(s, "top 5");
    OccursNeedsFirstChar(s, "most sold");
    var m := Match(0, d);
    assert OccursAt(s, Prefix(OrderId), 0);
    assert MatchesWith(OrderId, s, 0, |d|);
    assert m.group == s[9..9 + |d|];
    assert IsFirstMatch(OrderId, s, m);
    FirstMatchCharacterised(OrderId, s, m);
  }

  /** Asking the chat for `order id <digits>` gives the same answer as
      `GET /api/order-status/<digits>`: the status of the same order when
      the endpoint finds one, the not-found reply when it answers 404.
      The digits are compared as text, so leading zeros matter. */
  lemma ChatAgreesWithOrderStatus(store: Store, d: string)
    requires d != [] && AllDigits(d)
    ensures var chat := HandleChat(store, Text("order id " + d));
            var api := OrderStatus(store, d);
            && chat.status == 200
            && (api.status == 200 ==> chat.body == ReplyBody(OrderFoundReply(d, api.body.status)))
            && (api.status == 404 ==> chat.body == ReplyBody(OrderMissingReply(d)))
  {
    OrderQuestionClassified(d);
    OrderAnswerAgrees(store, d);
  }

  /** The reply to an order question and the order-status endpoint look up
      the same order. */
  lemma OrderAnswerAgrees(store: Store, d: string)
    ensures var reply := Answer(store, OrderLookup(d));
            var api := OrderStatus(store, d);
            && (api.status == 200 ==> reply == OrderFoundReply(d, api.body.status))
            && (api.status == 404 ==> reply == OrderMissingReply(d))
  {
    var found := FindOrder(store.orders, d);
    if found.Some? {
      var k := found.value;
      assert OrderStatus(store, d) == Ok(OrderBody(d, Field(store.orders[k], "status")));
      assert Answer(store, OrderLookup(d)) == OrderFoundReply(d, Field(store.orders[k], "status"));
    } else {
      assert OrderStatus(store, d).status == 404;
      assert Answer(store, OrderLookup(d)) == OrderMissingReply(d);
    }
  }

  /** A message whose lower-cased form contains `hi` or `hello` gets the
      greeting, whatever else it asks and whatever the store holds. */
  lemma GreetingWins(store: Store, message: string)
    requires message != "" && Greets(ToLower(message))
    ensures HandleChat(store, Text(message)) == Ok(ReplyBody(GreetingReply))
  {
  }

  /** The greeting rule looks for `hi` anywhere, so a stock question about
      shirts is classified as a greeting. */
  lemma ShirtsQuestionClassified()
    ensures ToLower("how many shirts are left") == "how many shirts are left"
    ensures Classify("how many shirts are left") == Greeting
  {
    ToLowerFixesLowercase("how many shirts are left");
    assert OccursAt("how many shirts are left", "hi", 10);
  }

  /** ... and answered with the greeting, whatever the store holds. */
  lemma ShirtsQuestionIsGreeting(store: Store)
    ensures HandleChat(store, Text("how many shirts are left")) == Ok(ReplyBody(GreetingReply))
  {
    ShirtsQuestionClassified();
  }

  /** Worked example: "hello" gets the greeting. */
  lemma HelloIsGreeting(store: Store)
    ensures HandleChat(store, Text("hello")) == Ok(ReplyBody("Hi! How can I help you today?"))
  {
    ToLowerFixesLowercase("hello");
    assert OccursAt("hello", "hello", 0);
  }

  /** The literal texts of the "order id 42" example. */
  lemma FortyTwoTexts()
    ensures "order id " + "42" == "order id 42"
    ensures OrderMissingReply("42") == "Sorry, I couldn't find an order with ID 42."
  {
  }

  /** The body half of the "order id 42" example. */
  lemma MissingOrderFortyTwoBody(store: Store)
    requires forall j :: 0 <= j < |store.orders| ==> !HasOrderId(store.orders[j], "42")
    ensures HandleChat(store, Text("order id 42")).body == ReplyBody(OrderMissingReply("42"))
  {
    ChatAgreesWithOrderStatus(store, "42");
    FortyTwoTexts();
  }

  /** Worked example: "order id 42" with no order 42 loaded. */
  lemma MissingOrderFortyTwo(store: Store)
    requires forall j :: 0 <= j < |store.orders| ==> !HasOrderId(store.orders[j], "42")
    ensures HandleChat(store, Text("order id 42"))
         == Ok(ReplyBody("Sorry, I couldn't find an order with ID 42."))
  {
    MissingOrderFortyTwoBody(store);
    FortyTwoTexts();
    assert HandleChat(store, Text("order id 42")).status == 200;
  }

  /** `how many ` and one more space: rules 1 to 3 do not apply.
      The message is the parameter `s`; see the module note. */
  lemma BlankStockQuestionSkipsEarlierRules(s: string)
    requires s == "how many  "
    ensures !Greets(s) && !AsksTopSellers(s) && !MentionsOrderId(s)
  {
    OccursNeedsFirstTwo(s, "hi");
    OccursNeedsFirstTwo(s, "hello");
    OccursNeedsFirstChar(s, "top 5");
    OccursNeedsFirstTwo(s, "most sold");
    OccursNeedsFirstTwo(s, "order id ");
    MatchNeedsPrefix(OrderId, s);
  }

  /** The lazy pattern fails (nothing follows the group), so the greedy
      fallback captures the single space.
      The message is the parameter `s`; see the module note. */
  lemma BlankStockQuestionCapture(s: string)
    requires s == "how many  "
    ensures StockCapture(s) == Some(" ")
  {
    assert MatchesWith(StockGreedy, s, 0, 1);
    var m := Match(0, " ");
    assert IsFirstMatch(StockGreedy, s, m);
  }

  /** The captured space trims to the empty query.
      The message is the parameter `s`; see the module note. */
  lemma BlankStockQuestionClassified(s: string)
    requires s == "how many  "
    ensures ToLower(s) == s
    ensures Classify(s) == StockLookup("")
  {
    ToLowerFixesLowercase(s);
    BlankStockQuestionSkipsEarlierRules(s);
    BlankStockQuestionCapture(s);
    TrimOfBlank(" ");
  }

  /** A stock question whose product text trims to nothing matches the first
      product that has a name, because every name contains the empty
      string. */
  lemma BlankStockQuestionFindsFirstNamed(store: Store, k: nat)
    requires k < |store.products| && "name" in store.products[k]
    requires forall j :: 0 <= j < k ==> "name" !in store.products[j]
    ensures HandleChat(store, Text("how many  "))
         == Ok(ReplyBody(InStockReply(store.products[k]["name"])))
  {
    BlankStockQuestionClassified("how many  ");
    EmptyQueryFindsFirstNamed(store.products);
  }

  /** The "Widget A" example message lower-cased. */
  lemma WidgetQuestionLowered()
    ensures ToLower("how many Widget A are left") == "how many widget a are left"
  {
    var a, b, c := "how many ", "Widget A", " are left";
    assert a + (b + c) == "how many Widget A are left";
    ToLowerAppend(b, c);
    ToLowerAppend(a, b + c);
    ToLowerFixesLowercase(a);
    ToLowerFixesLowercase(c);
    assert ToLower(b) == "widget a";
  }

  /** The lazy pattern stops the product text of the worked example
      right before ` are left`. */
  lemma WidgetQuestionLazyMatch()
    ensures FirstMatch(StockLazy, "how many widget a are left") == Some(Match(0, "widget a"))
  {
    var s := "how many widget a are left";
    assert MatchesWith(StockLazy, s, 0, 8) by {
      assert OccursAt(s, " are left", 17);
    }
    assert s[9..17] == "widget a";
    forall k: nat | 1 <= k < 8
      ensures !MatchesWith(StockLazy, s, 0, k)
    {
      if k == 6 {
        NotOccursAtByChar(s, " are left", 15, 2);
        NotOccursAtByChar(s, " in stock", 15, 1);
      } else {
        assert s[9 + k] == "widget a"[k] != ' ';
        NotOccursAtByChar(s, " are left", 9 + k, 0);
        NotOccursAtByChar(s, " in stock", 9 + k, 0);
      }
    }
    var m := Match(0, "widget a");
    assert IsFirstMatch(StockLazy, s, m);
    FirstMatchCharacterised(StockLazy, s, m);
  }

  /** The "Widget A" example message: rules 1 to 3 do not apply.
      The message is the parameter `s`; see the module note. */
  lemma WidgetQuestionSkipsEarlierRules(s: string)
    requires s == "how many widget a are left"
    ensures !Greets(s) && !AsksTopSellers(s) && !MentionsOrderId(s)
  {
    OccursNeedsFirstTwo(s, "hi");
    OccursNeedsFirstTwo(s, "hello");
    OccursNeedsFirstTwo(s, "top 5");
    OccursNeedsFirstTwo(s, "most sold");
    OccursNeedsFirstTwo(s, "order id ");
    MatchNeedsPrefix(OrderId, s);
  }

  /** Worked example, classification half: the stock rule fires and
      asks for "widget a".
      The message is the parameter `s`; see the module note. */
  lemma WidgetQuestionClassified(s: string)
    requires s == "how many widget a are left"
    ensures Classify(s) == StockLookup("widget a")
  {
    WidgetQuestionSkipsEarlierRules(s);
    WidgetQuestionLazyMatch();
    FirstMatchCharacterised(StockLazy, s, Match(0, "widget a"));
    assert StockCapture(s) == Some("widget a");
    WidgetNameNormalised();
  }

  /** The captured product text is already trimmed and lower-case. */
  lemma WidgetNameNormalised()
    ensures Trim("widget a") == "widget a"
    ensures ToLower("widget a") == "widget a"
    ensures ToLower("Widget A") == "widget a"
  {
    ToLowerFixesLowercase("widget a");
  }

  /** A stock question is answered with the stored name of the first
      product whose lower-cased name contains the query. */
  lemma StockAnswerNamesFirstMatch(store: Store, q: string, k: nat)
    requires k < |store.products| && NameContains(store.products[k], q)
    requires forall j :: 0 <= j < k ==> !NameContains(store.products[j], q)
    ensures "name" in store.products[k]
    ensures Answer(store, StockLookup(q)) == InStockReply(store.products[k]["name"])
  {
  }

  /** The body half of the "Widget A" example. */
  lemma WidgetQuestionBody(store: Store)
    requires |store.products| > 0 && Field(store.products[0], "name") == Some("Widget A")
    ensures HandleChat(store, Text("how many Widget A are left")).body == ReplyBody(InStockReply("Widget A"))
  {
    WidgetQuestionLowered();
    WidgetQuestionClassified("how many widget a are left");
    WidgetNameNormalised();
    assert OccursAt(ToLower("Widget A"), "widget a", 0);
    assert NameContains(store.products[0], "widget a");
    StockAnswerNamesFirstMatch(store, "widget a", 0);
  }

  /** The literal text of the "Widget A" example reply. */
  lemma WidgetReplyText()
    ensures InStockReply("Widget A") == "There are approximately 500 Widget A left in stock."
  {
    assert DecimalText(500) == "500";
  }

  /** Worked example: "how many Widget A are left", when the first
      product is named "Widget A", is answered with that stored name. */
  lemma WidgetQuestionAnswered(store: Store)
    requires |store.products| > 0 && Field(store.products[0], "name") == Some("Widget A")
    ensures HandleChat(store, Text("how many Widget A are left"))
         == Ok(ReplyBody("There are approximately 500 Widget A left in stock."))
  {
    WidgetQuestionBody(store);
    WidgetReplyText();
    assert HandleChat(store, Text("how many Widget A are left")).status == 200;
  }
}
