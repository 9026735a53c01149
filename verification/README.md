# E-commerce support chatbot backend, modelled in Dafny

This project models the request-handling core of a small customer-support
chatbot backend. The backend keeps two record sequences in memory: `products`
and `orders`. Each record maps CSV column names to string values. The backend
answers four kinds of request:

- `GET /api/top-products` always reports that top sellers cannot be computed,
  because orders carry no product reference.
- `GET /api/order-status/:id` returns the first order whose `order_id` is
  exactly the requested text.
- `GET /api/stock?name=` looks up a product by name, ignoring case, and reports
  a fixed placeholder stock of 500.
- `POST /api/chat` lower-cases the message and applies five rules in priority
  order. The first rule that applies wins:
  1. a greeting (`hi` or `hello` anywhere in the message);
  2. a best-seller question (`top 5` or `most sold`);
  3. an order question (`/order id (\d+)/`);
  4. a stock question (`/how many (.+?) (?:are left|in stock)/`, falling back
     to `/how many (.+)/`);
  5. a fallback reply.

Every handler is a pure function of its request input and the store
(`Records.Store`). The store is an immutable value, so no handler can change
it. A response is an HTTP status paired with one of the JSON body shapes the
API uses (`Http.Response`).

Modules:

- `Text` (text.dfy): ASCII lower-casing, ECMAScript `trim` and substring search.
- `Patterns` (patterns.dfy): the three regular expressions.
  - Each has an executable left-to-right scanner.
  - Each also has a declarative description of the match that ECMAScript's
    backtracking matcher returns (section 22.2 of ECMA-262): the leftmost
    start, then the longest group for greedy `\d+` and `.+`, and the shortest
    group for lazy `.+?`.
  - `FirstMatchCharacterised` proves that the scanner and the description
    agree in both directions.
  - `.` refuses LF, CR, U+2028 and U+2029. `\d` accepts only ASCII digits.
  - The lazy pattern tries ` are left` before ` in stock` at each length.
    This order cannot be observed in the capture, because both suffixes end
    the group at the same place.
- `Records` (records.dfy): records, the store, and `Array.prototype.find` as
  "index of the first element that passes".
- `Http` (http.dfy): responses and bodies.
- `Endpoints` (endpoints.dfy): the three lookup endpoints.
- `Chat` (chat.dfy): input validation, the classifier `Classify` and the
  replies `Answer`.
- `Scenarios` (scenarios.dfy): properties of whole requests and worked
  examples on concrete messages.

Behaviour worth noting:

- `GET /api/top-products` answers with status 200, because `res.json` sends
  200 by default, even though the body is an error object
  (backend/index.js:49).
- The chat handler rejects an empty message with 400, because `""` is falsy
  (backend/index.js:89). The stock endpoint likewise rejects an empty `name`
  (backend/index.js:69).
- If an order has no `status` column, the endpoint's JSON body leaves
  `status` out (backend/index.js:59). The chat reply then prints `undefined`
  (backend/index.js:114).
- The chat's "product not found" reply uses a typographic apostrophe
  (U+2019, backend/index.js:139). The other replies use a plain `'`.

## Model

| member | source | states |
|---|---|---|
| Text.ToLower | backend/index.js:93 | lower-casing keeps the length, maps each character on its own (capitals to small letters, everything else unchanged) and leaves no capital letter behind |
| Text.ToLowerIdempotent | backend/index.js:93 | lower-casing twice is lower-casing once |
| Text.ToLowerFixesLowercase | backend/index.js:93 | a message without capital letters is its own lower-case form |
| Text.Trim | backend/index.js:129 | `trim` keeps a contiguous middle part of the capture that neither starts nor ends with white space; everything it cuts off is white space |
| Text.TrimOfBlank | backend/index.js:129 | a capture made only of white space trims to the empty string |
| Text.IndexOfFrom | backend/index.js:96-101 | the search from a position returns the leftmost position at or after it where the word occurs, and nothing exactly when the word occurs at no such position |
| Text.Contains | backend/index.js:96-101 | `includes` is true exactly when the word occurs at some position of the message |
| Text.ContainsEmpty | backend/index.js:130 | every name contains the empty query |
| Patterns.Prefix | backend/index.js:108-126 | each pattern opens with a nine-character literal ending in a space, with no capitals, so it can occur in the lower-cased message |
| Patterns.MatchNeedsPrefix | backend/index.js:108-126 | a pattern cannot match a message that does not contain its literal opening text |
| Patterns.RunLength | backend/index.js:108 | the greedy group stops at the last accepted character: every character in the run is accepted and the next one is not, or the string ends |
| Patterns.ShortestLazyGroup | backend/index.js:124 | `(.+?)` settles on the shortest group of non-line-terminators that ` are left` or ` in stock` follows, and fails when none exists |
| Patterns.GroupLengthAt | backend/index.js:124-126 | at one start position the matcher settles on the first group length its quantifier tries that lets the pattern match, and fails only when no length works |
| Patterns.SearchFrom | backend/index.js:108 | the scan returns the leftmost start at which the pattern can match; when it finds nothing, no start at or after `from` can match |
| Patterns.FirstMatch | backend/index.js:108-126 | `match` yields `null` exactly when no start and group length work; otherwise it yields the leftmost match with the quantifier's preferred group length |
| Patterns.FirstMatchUnique | backend/index.js:108-126 | the declarative description of the first match admits at most one match |
| Patterns.FirstMatchCharacterised | backend/index.js:108-126 | the scanner returns `m` if and only if `m` is the first match ECMAScript's backtracking order gives |
| Patterns.LazyMatchImpliesGreedyMatch | backend/index.js:124-127 | whenever the lazy stock pattern matches, the greedy fallback matches as well |
| Records.FindFrom | backend/index.js:55 | `find` from a position returns the first element that passes the test, and none means no later element passes |
| Records.Find | backend/index.js:55 | `find` returns the first element that passes the test, or nothing exactly when no element passes |
| Records.FindOrder | backend/index.js:111 | the first order whose `order_id` is exactly the id; an order without `order_id` never matches |
| Records.FindProductByName | backend/index.js:72 | the first product whose name equals the query ignoring case; a product without `name` never matches |
| Records.FindProductContaining | backend/index.js:130 | the first product whose lower-cased name contains the query; a product without `name` never matches |
| Records.ExactNameIsFoundBySubstring | backend/index.js:72-130 | a product found by the stock endpoint's exact search is found by the chat's substring search too, at the same position or earlier |
| Records.EmptyQueryFindsFirstNamed | backend/index.js:130 | the empty query finds the first product that has a `name` column |
| Endpoints.TopProducts | backend/index.js:48-50 | the answer is status 200 with the same error message, whatever the store holds |
| Endpoints.OrderStatus | backend/index.js:53-64 | status 200 exactly when some order has that exact `order_id`, and then the body carries the id and the status of the first such order; otherwise 404 with "Order not found" |
| Endpoints.StockEstimate | backend/index.js:67-83 | 400 exactly when `name` is missing or empty; 200 exactly when some product's name equals it ignoring case, reporting the first such product's stored name and 500; otherwise 404 with "Product not found" |
| Endpoints.EmptyStoreFindsNothing | backend/index.js:53-75 | before the data has loaded, every order lookup and every stock lookup with a non-empty name answers 404 |
| Chat.DecimalText | backend/index.js:135 | the stock figure in the reply is written as decimal digits that read back as the number, with no leading zero |
| Chat.StockCapture | backend/index.js:124-127 | a capture exists exactly when `how many ` is followed by a character other than a line terminator; it is the lazy pattern's group when that pattern matches, otherwise the greedy one's; it is never empty and is a piece of the message |
| Chat.Classify | backend/index.js:95-147 | exactly one rule fires: the greeting iff `hi` or `hello` occurs; best sellers iff there is no greeting and `top 5` or `most sold` occurs; the order rule iff neither and `order id <digit>` occurs, carrying the first match's digits; the stock rule iff none of those and a stock capture exists, carrying it trimmed and lower-cased; the fallback iff no rule applies |
| Chat.Answer | backend/index.js:109-146 | an order reply quotes the status of the first order with exactly that id, and is the not-found reply iff no order has it; a stock reply names the stored name of the first product whose lower-cased name contains the query, and is the not-found reply iff none does; the other intents get their fixed replies |
| Chat.StockQueryNeedsNoSecondLowering | backend/index.js:124-129 | the capture is cut from the already lower-cased message, so lower-casing the trimmed capture again changes nothing: the stock query is the trimmed capture |
| Chat.HandleChat | backend/index.js:86-147 | a missing, non-string or empty message gets 400 with "Invalid input." and no rule is tried; every other message gets 200 with the reply of the rule the classifier picks for the lower-cased message |
| Chat.HandleChatIgnoresCase | backend/index.js:93 | two messages with the same lower-case form get the same response, so "HELLO" is answered like "hello" |
| Scenarios.OrderQuestionClassified | backend/index.js:108-110 | `order id <digits>` is classified as an order question carrying all the digits |
| Scenarios.ChatAgreesWithOrderStatus | backend/index.js:108-121 | asking the chat about `order id <digits>` reports the same order's status as the order-status endpoint, and is the not-found reply exactly when the endpoint answers 404; leading zeros are kept |
| Scenarios.OrderAnswerAgrees | backend/index.js:110-120 | the chat's order reply and the order-status endpoint look up the same order |
| Scenarios.GreetingWins | backend/index.js:96-98 | a message containing `hi` or `hello` gets the greeting, whatever else it asks |
| Scenarios.ShirtsQuestionClassified | backend/index.js:96-98 | "how many shirts are left" counts as a greeting, because "shirts" contains "hi" |
| Scenarios.ShirtsQuestionIsGreeting | backend/index.js:96-98 | the shirts question is answered with the greeting |
| Scenarios.HelloIsGreeting | backend/index.js:96-97 | "hello" gets "Hi! How can I help you today?" |
| Scenarios.MissingOrderFortyTwo | backend/index.js:117-119 | "order id 42" with no order 42 gets "Sorry, I couldn't find an order with ID 42." |
| Scenarios.BlankStockQuestionClassified | backend/index.js:124-129 | for `how many ` plus one space, the lazy pattern fails, the greedy fallback captures the space, and the query trims to empty |
| Scenarios.BlankStockQuestionFindsFirstNamed | backend/index.js:124-135 | a stock question whose product text is blank is answered with the first product that has a name |
| Scenarios.WidgetQuestionLazyMatch | backend/index.js:124 | in "how many widget a are left" the lazy group is exactly "widget a" |
| Scenarios.WidgetQuestionClassified | backend/index.js:124-129 | that message reaches the stock rule and asks for "widget a" |
| Scenarios.StockAnswerNamesFirstMatch | backend/index.js:130-136 | if product `k` is the first whose lower-cased name contains the query, it has a name and the stock reply names it in its stored case |
| Scenarios.WidgetQuestionAnswered | backend/index.js:124-136 | "how many Widget A are left" with a first product named "Widget A" gets "There are approximately 500 Widget A left in stock." |

## Left out

- Express bootstrap, CORS and JSON middleware, `app.listen`, the `GET /` liveness text and console logging (backend/index.js:1-11, 42-44, 150-152). These are I/O plumbing.
- Loading the two CSV files at startup, and the race between the two asynchronous loads (backend/index.js:17-39). The store is a parameter of every handler. An empty store models a request that arrives before loading finishes.
- backend/utils/loadCSV.js is not part of this model. It is a wrapper over file streams and an external CSV parser.
- frontend/src/App.jsx is not part of this model. It is the React chat interface.
- Text.ToLower: maps only the ASCII capitals A-Z. JavaScript's `toLowerCase` applies full Unicode case mapping, which can also change a string's length.
- Text.Contains: strings are sequences of Unicode scalar values, while JavaScript strings and regular expressions without the `u` flag work on UTF-16 code units. All pattern characters lie in the Basic Multilingual Plane, so only position arithmetic on astral characters differs. A lone surrogate, which `JSON.parse` accepts through a `\uD800` escape, cannot be represented as a Dafny `char` at all, so messages holding one are outside the model.
- Endpoints.StockEstimate: takes `name` as an optional string. A repeated or bracketed query parameter makes `name` an array or object, and, when at least one product is loaded, `toLowerCase` throws inside the `find` callback and Express answers 500; with no products loaded the callback never runs and the answer is 404. Neither case is modelled.
- Chat.HandleChat: takes the `message` field of an already parsed body. A request with no parsed body, which makes the destructuring throw, is not modelled.
- Route parameter decoding (percent-decoding of `:id`) is not modelled. `Endpoints.OrderStatus` receives the decoded id.
