# BuyNest marketplace: chat relay, REST handlers and page logic in Dafny

This project models the sequential core of the BuyNest marketplace:

- **The realtime chat relay** (`server/server.js`). The `activeUsers` registry maps each user id to the socket it was last set up on. The `setup` and `disconnect` handlers update it and broadcast its key list. The `sendMessage` handler first stores the message, then looks up the conversation, picks the receiver and pushes the message to the receiver's socket.
- **The REST handlers** for conversations, shops and products. Each handler is a pure function from the database, the authenticated caller and the request to a `(status, body)` reply and the new database. The Mongoose schemas of shops and products are modelled by the constructor functions of module `Schemas`: casting, trimming, `required` and defaults.
- **The client pages' own logic.**
  - The chat page: the guarded send, the append of incoming messages that is filtered by conversation, and the history replacement.
  - The register page: password strength, ordered validation, the strength indicator, and the change and submit handlers.
  - The login page: validation, and the remember-me round trip through local storage.
  - The add-product page: the comma-split-and-trim of image URLs, and the request body it sends.

Modelling conventions:

- **Ids are opaque strings.** This covers document ids, user ids and socket ids.
- **Fresh values are parameters.** A fresh document id is `newId` and the clock is `now`.
- **Failing awaits are parameters.** Every awaited database call that can throw is controlled by a `Fault`: `FailAt(k)` makes the k-th await of the handler throw. This is how the catch branches are reached.
- **Request outcomes on the client are parameters.** Every axios call's outcome is an `Answer` parameter: `Accepted` or `Rejected(message)`.
- **The registry keeps insertion order.** `activeUsers` is an association list in insertion order. This is the order `Object.keys` returns and `for … in` visits the keys (see "Left out" for integer-like keys).
- **Collections keep insertion order.** Each collection is a sequence, and the model reads an unsorted `find` or `findOne` as returning documents in that order. MongoDB does not promise this (see "Left out").
- **JavaScript truthiness is explicit.** It is the `Falsy` predicate on the `JsValue` datatype. `.length` counts UTF-16 code units (`Text.Utf16Length`), and `trim` removes the ECMAScript whitespace and line-terminator set.

Modules:

| Module | File | Contents |
|---|---|---|
| `Wrappers` | `wrappers.dfy` | `Option` and `Result` |
| `Text` | `text.dfy` | `trim`, `split` and UTF-16 length |
| `JsValues` | `jsvalues.dfy` | request-body values and truthiness |
| `Store` | `store.dfy` | records, database, faults, first-match search |
| `Schemas` | `schemas.dfy` | Mongoose casting and validation |
| `Http` | `http.dfy` | replies and answers |
| `Relay` | `relay.dfy` | the socket server |
| `ConversationControllers` | `conversations.dfy` | conversation endpoints |
| `ShopControllers` | `shops.dfy` | shop endpoint |
| `ProductControllers` | `products.dfy` | product endpoints |
| `ChatPage` | `chat_page.dfy` | chat page logic |
| `RegisterPage` | `register_page.dfy` | register page logic |
| `LoginPage` | `login_page.dfy` | login page logic |
| `AddProductPage` | `add_product_page.dfy` | add-product page logic |

The model follows the code:

- **The server has no empty-body check.** Any body is stored as given. Only the client refuses to send a message whose trimmed text is empty.
- **The sender is acknowledged only when the receiver is online.** The server sends `receiverMessage` to the sender only when it also pushes `receiveMessage` to an online receiver. When the receiver is offline, nothing is emitted at all.
- **Nothing about rooms is cleaned up on disconnect.** The only thing that changes is the registry.

## Model

| member | source | states |
|---|---|---|
| Relay.Lookup | server/server.js:60 | Reading `activeUsers[u]` gives a socket that is recorded for `u`. It gives nothing exactly when no entry names `u`. |
| Relay.KeysAreRegisteredUsers | server/server.js:43 | The broadcast key list names exactly the users who have a socket on record. |
| Relay.Keys | server/server.js:43 | `Object.keys(activeUsers)` lists one key per entry, in the registry's order. |
| Relay.Assign | server/server.js:41 | Assigning `activeUsers[u] = s` leaves an entry `(u, s)`, and every other entry was already there. The registry grows by one exactly when `u` had no entry. |
| Relay.AssignEffect | server/server.js:41 | Assigning `activeUsers[u] = s` makes `u` look up `s`. Every other user keeps its socket. An existing key keeps its position and a new key goes last. Distinct keys stay distinct. |
| Relay.Setup | server/server.js:40-44 | After `setup`, the last set-up socket wins for the user, and every other entry is unchanged. Exactly one broadcast of the new key list is appended. The database is untouched. |
| Relay.Release | server/server.js:72-77 | The `disconnect` scan leaves the registry unchanged when no entry holds the socket. Otherwise it deletes exactly the first entry holding the socket and keeps the rest in order. |
| Relay.ReleaseEffect | server/server.js:72-77 | The release changes at most one user's lookup, and only from the closing socket to nothing. Keys stay distinct. |
| Relay.Disconnect | server/server.js:70-79 | `disconnect` removes at most one entry, and only one whose socket is the closing one. It removes exactly one when some user is on that socket. Then it broadcasts the remaining keys. |
| Relay.StaleDisconnectKeepsNewerSocket | server/server.js:70-77 | A user set up again on a newer socket keeps it when the older socket disconnects. |
| Relay.SharedSocketOneSurvives | server/server.js:72-76 | When two users share a socket, its disconnect leaves one of them registered. |
| Relay.ReceiverKey | server/server.js:56-60 | When some participant differs from the sender, the receiver key is the first such participant. When every participant is the sender, `find` yields undefined and the key read is "undefined". |
| Relay.SendMessage | server/server.js:51-68 | The message is stored unless its own creation throws. Both emits happen exactly when nothing throws and the receiver has a truthy socket on record, and then they go to the receiver and the sender in that order. Any failure, including a missing conversation, emits nothing. |
| Relay.PersistBeforeLookup | server/server.js:53-57 | A send into a conversation that does not exist still leaves the message stored, and emits nothing. |
| Relay.DeliversToOnlineReceiver | server/server.js:53-64 | In a stored conversation whose first other participant is online, the message is stored. It is pushed to that participant's socket and acknowledged to the sender. |
| Relay.OfflineReceiverGetsNothing | server/server.js:60-64 | When the receiver has no socket on record, the message is stored and no event at all is emitted, not even the sender's acknowledgment. |
| Store.FindCons | server/controllers/conversationControllers.js:38-40 | A first-match search takes the head when it matches and otherwise searches the tail. |
| Store.Find | server/controllers/conversationControllers.js:9-11 | `findOne` yields a document that satisfies the query and has no earlier match. It yields nothing exactly when no document matches. |
| Store.Filter | server/controllers/conversationControllers.js:30-31 | `find` returns each matching document exactly once, in stored order (the model's reading of an unsorted query): the i-th result is the document at the i-th matching position. Nothing that fails the query is returned, and every match is. |
| Store.Positions | server/controllers/conversationControllers.js:64-66 | The positions a query reads are increasing and lie inside the collection. Each holds a match, and every matching position is among them. |
| Store.FirstOther | server/server.js:56-58 | The participant `find` yields the first participant different from the sender. It yields nothing exactly when every participant is the sender. |
| ConversationControllers.StartConversation | server/controllers/conversationControllers.js:4-24 | An existing conversation between the two users is returned and nothing is created. Otherwise exactly one conversation with participants `[caller, receiver]` is appended. A failure answers 500 with the retry message and changes nothing. |
| ConversationControllers.FindBetweenSymmetric | server/controllers/conversationControllers.js:9-11 | The `$all` pair query finds the same conversation whichever user asks. |
| ConversationControllers.StartConversationIdempotent | server/controllers/conversationControllers.js:9-19 | Starting the same pair again, in either order, returns the first call's conversation and leaves the store as the first call left it. |
| ConversationControllers.Populate | server/controllers/conversationControllers.js:30-35 | Population keeps the profile (name and email) of each participant id that has a user document, once per occurrence and in the list's order: the i-th profile is that of the id at the i-th such position. Ids without a user document drop out. |
| ConversationControllers.PopulatedOther | server/controllers/conversationControllers.js:37-40 | The first populated participant other than the caller is the profile of the first participant id that differs from the caller and has a user document. |
| ConversationControllers.Summarize | server/controllers/conversationControllers.js:37-46 | A summary keeps the conversation's id and timestamps. Its participant is the profile of the first participant that differs from the caller and has a user document. That participant is in the conversation, is not the caller and has a user document. It is absent exactly when every participant with a user document is the caller. |
| ConversationControllers.GetConversations | server/controllers/conversationControllers.js:26-54 | The answer is 500 exactly on a failed query. Otherwise it is 200 with one entry per stored conversation that contains the caller, in stored order, and each entry is that conversation's summary. |
| ConversationControllers.GetConversationsListsAll | server/controllers/conversationControllers.js:30-47 | Every stored conversation that includes the caller appears in the caller's list. |
| ConversationControllers.GetMessages | server/controllers/conversationControllers.js:56-73 | A caller outside the conversation gets 401. A missing conversation gets 500. Otherwise the answer is 200 with the stored messages of that conversation, each exactly once and in stored order. |
| ConversationControllers.SentMessageRetrievable | server/controllers/conversationControllers.js:59-68 | A message the relay stored (its creation did not throw) is in the history that any participant of its conversation fetches next. |
| ShopControllers.CreateShop | server/controllers/shopControllers.js:4-25 | An owner of a shop gets 400, and no shop is created and no flag changes. A throw at the shop lookup answers 500 and writes nothing. Success appends exactly one shop owned by the caller, with the trimmed name and the default logo. Only after the save is the caller, and only the caller, made a seller. A throw at the save changes nothing. A throw after the save answers 500 with the shop stored and the flag unset. At most one shop per owner is preserved. |
| ProductControllers.AddProduct | server/controllers/productControllers.js:4-39 | A falsy field gets 400 before the shop lookup. No shop gets 404. 201 is answered exactly when the guard passes, neither await throws, the caller has a shop and the product validates. It appends exactly one product, linked to the caller's shop, with its fields copied from the body (name trimmed, number strings cast). Any other outcome changes nothing. |
| ProductControllers.GetAllProducts | server/controllers/productControllers.js:41-48 | Every stored product is returned in stored order, or 500 on failure. |
| ProductControllers.GetProductById | server/controllers/productControllers.js:50-61 | The stored product with the id is returned. 404 exactly when no product has the id. 500 on failure. |
| ProductControllers.CreatedProductReadBack | server/controllers/productControllers.js:32-56 | A product created under a fresh id is what fetching that id returns, and it is the last entry of the product list. |
| ProductControllers.PriceTextKept | server/controllers/productControllers.js:9-32 | A body that passes the guard is never answered 400. Price text the Number cast reads as x, with nothing around it to trim, is saved as x. |
| ProductControllers.TruthinessGate | server/controllers/productControllers.js:9-13 | A price or stock of 0, or an empty name, is refused with 400. An empty image array passes the guard. |
| ProductControllers.AnyFalsy | server/controllers/productControllers.js:9 | The guard trips exactly when one of the six fields is falsy. When the images are an array, only the other five fields matter. |
| Schemas.RequiredString | server/models/shopModel.js:11-19 | A required string path accepts exactly the strings that are non-empty after the optional trim, and stores them trimmed. Undefined and null are refused. |
| Schemas.CastString | server/models/shopModel.js:11-19 | A String path reads undefined and null as absent and keeps a string as it is. Only undefined, null, booleans and strings cast. |
| Schemas.CastNumber | server/models/productModel.js:29-38 | A Number path reads null and "" as absent, undefined as absent, numbers as themselves, blank text as 0, true and false as 1 and 0, and decimal text as its value. Text whose trimmed form is not a decimal is a cast error, and so are NaN, arrays and objects. |
| Schemas.ParseDecimal | server/models/productModel.js:29-33 | The decimal reader gives no number for empty text; `CastNumber` reads "" as absent and blank text as 0 before it calls the reader, as `Number` does. A read value is at most 0 when the text starts with '-', and at least 0 otherwise. |
| Schemas.ParseFraction | server/models/productModel.js:29-33 | Unsigned digits, a point and more digits read as the whole part plus the fraction part. |
| Schemas.FractionRoundTrip | server/models/productModel.js:29-33 | The decimal text of a whole number followed by a point and digits reads back as that number plus the digits scaled down by their count. |
| Schemas.NegativeFractionRoundTrip | server/models/productModel.js:29-33 | The same text with a leading '-' reads back as the negated value. |
| Schemas.ParseNegated | server/models/productModel.js:29-33 | A leading '-' before unsigned text that reads as a number negates that number. |
| Schemas.RequiredNumber | server/models/productModel.js:29-38 | An absent price or stock takes the default 0. A value that casts to null fails `required`. Text whose trimmed form is not a decimal is refused. |
| Schemas.DecimalRoundTrip | server/models/productModel.js:29-33 | The decimal text of a whole number reads back as that number. |
| Schemas.ParsedIsTrimmed | server/models/productModel.js:29-33 | Text the Number cast reads is non-empty and contains no whitespace, so trimming before the read changes nothing. |
| Schemas.CastImages | server/models/productModel.js:19-24 | An absent image list is empty. An array is accepted exactly when every element is a non-empty string, and it is kept element by element. A lone string is accepted as a one-element list exactly when it is non-empty. |
| Schemas.RequiredElements | server/models/productModel.js:19-24 | An image list is accepted exactly when every element is a non-empty string. |
| Schemas.NewShop | server/models/shopModel.js:3-28 | A valid shop has its owner, a trimmed non-empty name, a non-empty description, and the default logo when none is given. It is valid exactly when the trimmed name and the description are non-empty. |
| Schemas.SaveShop | server/models/shopModel.js:5-10 | The unique owner index refuses a second shop for an owner, appends otherwise, and preserves "one shop per owner". |
| Schemas.NewConversation | server/controllers/conversationControllers.js:14-16 | A created conversation keeps the participant list as given, takes the fresh id, and both timestamps are the creation time. |
| Schemas.NewMessage | server/server.js:53 | A created message keeps the body verbatim, with its conversation and sender, and both timestamps are the creation time. |
| Schemas.NewProduct | server/models/productModel.js:3-43 | A product is valid exactly when each of its six paths validates. A valid product is linked to its shop. Its name is trimmed and non-empty, its description and category are non-empty, and its images are non-empty strings copied in order. Price and stock default to 0. An empty image string makes the product invalid. |
| Text.Trim | src/pages/AddProductPage.jsx:30 | `trim` returns a slice of its input without surrounding whitespace, with only whitespace cut from either end. |
| Text.TrimIdempotent | src/pages/AddProductPage.jsx:30 | Trimming twice is trimming once. |
| Text.TrimEmptyIffAllSpace | src/pages/ChatPage.jsx:92 | `trim` yields "" exactly for all-whitespace text. |
| Text.Split | src/pages/AddProductPage.jsx:30 | `split(sep)` yields one more part than there are separators, no part contains the separator, and the parts joined with it rebuild the input. |
| Text.SplitJoin | src/pages/AddProductPage.jsx:30 | Splitting the join of separator-free parts gives the parts back. |
| Text.Utf16Length | src/pages/RegisterPage.jsx:32 | `length` is between the character count and twice it. It equals the character count for text in the Basic Multilingual Plane. A single character outside that plane counts 2, and any other counts 1. |
| Text.Utf16LengthAppend | src/pages/RegisterPage.jsx:71 | The length of a concatenation is the sum of the lengths. |
| JsValues.MessageOr | src/pages/LoginPage.jsx:89 | `err.response?.data?.message \|\| fallback` gives the server's message when it is non-empty, and the fallback otherwise. |
| ChatPage.HandleSendMessage | src/pages/ChatPage.jsx:88-104 | A payload is sent exactly when the text is not all whitespace, a socket exists and a chat is open. It carries the open chat, the user and the untrimmed text. The input is then cleared and the message list is untouched. Otherwise nothing changes. |
| ChatPage.HandleReceiveMessage | src/pages/ChatPage.jsx:49-55 | An incoming message is appended at the end exactly when it belongs to the open chat. Any other message leaves the state unchanged. |
| ChatPage.OnServerEvent | src/pages/ChatPage.jsx:49-57 | Only `receiveMessage` reaches the page: it appends a message of the open chat and ignores any other. Every other event leaves the view unchanged. |
| ChatPage.SelectConversation | src/pages/ChatPage.jsx:74-86 | Selecting opens the conversation. The list is replaced by the fetched history, or kept when the fetch fails. Loading ends either way. |
| ChatPage.HistoryShowsOnlyOpenChat | src/pages/ChatPage.jsx:49-80 | Opening a conversation with the history the messages endpoint returns shows every stored message of that conversation and no other. Incoming events keep the screen limited to the open conversation. |
| ChatPage.SenderAckIgnored | src/pages/ChatPage.jsx:57 | The page listens only for `receiveMessage`, so neither the server's acknowledgment nor any broadcast of active users changes the sender's view. |
| ChatPage.SendReachesOpenConversation | src/pages/ChatPage.jsx:49-104 | End to end: text sent by A in a conversation whose first other participant B is online is stored by the relay and pushed to B's socket. It is appended, untrimmed, to B's open chat. |
| RegisterPage.CountHolding | src/pages/RegisterPage.jsx:31-38 | The count of passing checks is at most the number of checks. It is zero exactly when none passes and full exactly when all pass. |
| RegisterPage.Strength | src/pages/RegisterPage.jsx:29-40 | Strength is between 0 and 5. It is 0 exactly when no check passes and 5 exactly when all do. |
| RegisterPage.StrengthIsCount | src/pages/RegisterPage.jsx:31-38 | Strength equals the number of distinct checks that hold: length of at least 8, a-z, A-Z, 0-9, and a character outside those classes. |
| RegisterPage.CountIsSetSize | src/pages/RegisterPage.jsx:31-38 | Over a list of distinct checks, the filtered count is the number of distinct checks that hold. |
| RegisterPage.StrengthMonotone | src/pages/RegisterPage.jsx:31-38 | Typing one more character never lowers the strength. |
| RegisterPage.StrengthOfShortPasswords | src/pages/RegisterPage.jsx:31-38 | The empty password has strength 0, and any single character has strength exactly 1. |
| RegisterPage.ValidateRegister | src/pages/RegisterPage.jsx:62-78 | The reported error is the first failing rule, in the order missing field, mismatch, fewer than 8 code units, terms not accepted. No error is reported exactly when all four rules hold. |
| RegisterPage.StrengthIndicator | src/pages/RegisterPage.jsx:111-120 | The indicator shown is at level max(1, strength) for strengths 0 to 5. An index past the table falls back to the first entry. |
| RegisterPage.IndicatorFollowsStrength | src/pages/RegisterPage.jsx:111-120 | A password of strength 0 or 1 shows "Fragile", and "Fortified" is shown exactly at strength 5. |
| RegisterPage.HandleChange | src/pages/RegisterPage.jsx:42-52 | An edit writes only the edited field. The strength is recomputed from the new value only for the password. |
| RegisterPage.ToggleTerms | src/pages/RegisterPage.jsx:500 | The checkbox sets the terms flag and leaves every other field of the state unchanged. |
| RegisterPage.StrengthStaysInSync | src/pages/RegisterPage.jsx:42-52 | The meter matches the password on first render, and every edit or checkbox change keeps it matching. |
| RegisterPage.HandleSubmit | src/pages/RegisterPage.jsx:80-109 | A validation error is shown and no request is made. Otherwise name, email and password (not the confirmation) are sent. The answer sets success, or shows the server message or the default text. Loading ends. |
| RegisterPage.SentOnlyWhenValid | src/pages/RegisterPage.jsx:83-93 | A request is sent only for filled fields, matching passwords of at least 8 code units, and accepted terms. |
| LoginPage.SavedEmail | src/pages/LoginPage.jsx:28-29 | A remembered email counts exactly when the key is stored with a non-empty value. |
| LoginPage.Mount | src/pages/LoginPage.jsx:27-33 | A remembered email fills the email field and ticks "Remember me". Otherwise the state is unchanged. |
| LoginPage.ValidateLogin | src/pages/LoginPage.jsx:48-55 | An error is reported exactly when the email or the password is empty. |
| LoginPage.HandleSubmit | src/pages/LoginPage.jsx:57-96 | A validation error makes no request and touches no storage. After success the key is set to the email if "Remember me" is ticked and removed if not, and no other key the page itself writes changes. After failure storage is untouched and the server message or the default is shown. |
| LoginPage.RememberRoundTrip | src/pages/LoginPage.jsx:27-78 | After a remembered successful login, the next mount shows that email with "Remember me" ticked. |
| LoginPage.ForgetRoundTrip | src/pages/LoginPage.jsx:27-78 | After a successful login without "Remember me", the next mount shows the defaults. |
| LoginPage.FailureKeepsRemembered | src/pages/LoginPage.jsx:57-96 | A failed or invalid login leaves the next mount as it would have been. |
| AddProductPage.ImageList | src/pages/AddProductPage.jsx:30 | There is one entry per comma plus one. Entry i is the trimmed i-th comma-separated segment, so no entry has surrounding whitespace or a comma. |
| AddProductPage.ImageSegmentsRebuildInput | src/pages/AddProductPage.jsx:30 | The untrimmed segments joined with commas rebuild the typed text. |
| AddProductPage.EmptyImagesGiveOneBlank | src/pages/AddProductPage.jsx:30 | An empty field gives `[""]`, not `[]`. |
| AddProductPage.SingleImage | src/pages/AddProductPage.jsx:30 | A field without commas gives its trimmed text as the only entry. |
| AddProductPage.EditPrice | src/pages/AddProductPage.jsx:90 | Editing the price stores the input's text and changes nothing else. |
| AddProductPage.EditStock | src/pages/AddProductPage.jsx:100 | Editing the stock stores the input's text and changes nothing else. |
| AddProductPage.Payload | src/pages/AddProductPage.jsx:42-49 | The body carries name, description, category, price and stock unchanged, with `images` set to the split list. |
| AddProductPage.HandleSubmit | src/pages/AddProductPage.jsx:24-67 | For a logged-in user the payload is always sent. Loading ends, and a failure shows the server message or "Failed to add product.". |
| AddProductPage.EditedFormPassesGuard | src/pages/AddProductPage.jsx:42-49 | The endpoint's guard accepts the page's body exactly when the text fields are filled and price and stock are truthy. The image list never trips it. |
| AddProductPage.BlankImageNeverCreated | src/pages/AddProductPage.jsx:30 | A blank image segment (an empty field, or a doubled or trailing comma) never yields a created product. |
| AddProductPage.UntouchedFormRefused | src/pages/AddProductPage.jsx:13-18 | The untouched form is refused with 400, because its empty text fields and its initial price 0 are falsy. |
| AddProductPage.TypedPriceKept | src/pages/AddProductPage.jsx:90 | A number input's value the cast reads as x passes the guard, even "0", and a created product has price x. |
| AddProductPage.TypedWholePriceKept | src/pages/AddProductPage.jsx:90 | A whole number typed as the price is saved as that number. |

## Left out

- `joinConversation` (server/server.js:46-49) is left out. Room membership lives inside socket.io and is never used for delivery.
- The socket.io and Express wiring, the route files, the connection logging and the listening port are left out. Handlers behind `protect` take the authenticated caller as a parameter.
- Interleaving of concurrent handlers across `await` points is not modelled. Each handler is one atomic step, and a throw at its k-th await is modelled by `FailAt(k)`.
- `populate` is treated as a projection. The message's `sender` stays an id, and the shop population of the product reads is not modelled. The conversation list's participant population is modelled (`Populate`).
- ObjectId casting is not modelled, because ids are opaque. An id that is not a valid ObjectId makes Mongoose throw, and that case is covered only by the fault parameter.
- `server/models/messageModel.js` and `server/models/userModel.js` are not part of this model. A message is stored as sent, and any validation of it is covered only by the fault at its creation.
- Schemas.CastNumber: `Number` of text is modelled for plain decimals `[+-]digits[.digits]` only. Exponents, hexadecimal, `Infinity` and the like are refused as cast errors. Blank text reads as 0 as in JavaScript.
- Schemas.CastString / Schemas.RequiredString: a number sent for a string path is refused as a cast error. Mongoose would store its decimal text instead, and booleans are stringified as in Mongoose.
- Relay.Setup: JavaScript lists integer-like keys of an object before the other keys, in numeric order. The registry keeps plain insertion order, which matches for ObjectId user ids that contain a letter.
- `Relay.Disconnect` requires distinct keys in the registry, because a JavaScript object has them. `Setup` and `Disconnect` both preserve this from the empty registry.
- AddProductPage.HandleSubmit: assumes a logged-in user. Without one, reading `user.token` throws before the request, so nothing is sent and "Failed to add product." is shown; the auth context is not modelled.
- AddProductPage.TypedPriceKept: covers only price text a number input can hold, meaning decimal text with nothing around it to trim. The browser's sanitization of such an input's value is not modelled.
- Schemas.CastNumber: numbers are exact reals (`JsValues.Num`), and rounding to IEEE doubles is not modelled. Text such as "9007199254740993" is kept exactly where `Number` would round it. A value too small for a double, which JavaScript reads as the falsy 0, stays non-zero here.
- LoginPage.HandleSubmit: the auth provider's write of the 'user' key after `login(data)` is not modelled, so storage covers only the key the page writes itself. `src/context/AuthContext.jsx` is not part of this model.
- Schemas.CastImages: a boolean or number image value, alone or as an array element, is refused as a cast error. Mongoose's string cast would store its text ("true", "false", "5").
- Store.Filter / Store.Find: unsorted queries are modelled as returning documents in insertion order. MongoDB does not promise an order without a sort, so the order clauses of `Filter`, `Find`, `Populate` and `GetMessages` rest on this reading.
- Timestamps are the `now` parameter. Nothing updates `updatedAt`.
- On the client, axios, `alert`, the `setTimeout` navigation, `login(data)` and the auth context, focus and show-password handlers, the login page's `handleChange` (a plain write of one field), the inbox fetch of the chat page, and all rendering are left out.
