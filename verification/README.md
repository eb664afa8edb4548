# Hyperliquid mock server: a verified model

This project models the order, signing and broadcast logic of a mock Hyperliquid exchange and proves
properties of that model with Dafny 4.11. `dafny verify dfyconfig.toml` checks all of it.

| file | part of the system |
|---|---|
| `Prelude.dfy`, `Bytes.dfy`, `Hex.dfy` | shared types, big-endian bytes, hexadecimal text |
| `MessagePack.dfy` | MessagePack values with their string formats, encoder and decoder |
| `Rewrite.dfy`, `RewriteMeaning.dfy` | the str 16 to str 8 rewrite that precedes signature recovery, and when it keeps what an action says |
| `ActionFraming.dfy`, `SharedPreimages.dfy` | the bytes a request signs, up to the hash, and requests that sign the same ones |
| `Signature.dfy` | r, s and recovery id to the 65-byte signature |
| `FlexibleOid.dfy` | order identifiers in base 16 or base 10 |
| `Orders.dfy` | the order store as a value, its invariant, fills |
| `State.dfy` | the store as a class over mutable order objects |
| `Subscriptions.dfy`, `WebSocket.dfy` | per-connection subscriptions, the channel, one broadcaster turn |
| `Broadcast.dfy`, `StaleReplay.dfy` | all interleavings of store operations, broadcaster and connections, as a state machine; a run that leaves a client behind |
| `Handlers.dfy`, `BatchOrders.dfy` | order, modify and status requests; a batch as one upsert |
| `Capture.dfy` | the request log of the test server |

## Method

Code that updates state in place is a class whose methods are proved against an operation on values
(`State.State` against `Orders.Apply`, `Subscriptions.ConnectionState` against `Subscriptions.Handle`,
`Capture.RequestCapture` against `Capture.Serve`); the laws are lemmas about those operations. The
broadcast protocol is a state machine with one step for each critical section: commit and offer, take
from the channel, take the connection lock, read one subscription, write one update, release, connect,
disconnect, subscribe, unsubscribe. Laws about it are about every legal sequence of steps.

Size and price fields are either the decimal text of a real number or text that is not a number. OIDs
and counters are unbounded integers except where a width matters: `int64` in parsing and framing, bytes
in encodings, and the rounding of `float64` in the OID that a modify request carries.

## Where the unconditional property fails

- The rewrite does not keep the meaning of every action. `RewriteKeepsMeaning` gives the exact
  condition: the loop's guard must not hold at any byte outside the short str 16 strings.
  `RewriteCanLoseCancel` shows a cancel of order 14286848, which is 0xda0000, whose rewritten bytes
  no longer say that.
- The rewrite is not idempotent. `RewriteTwice` gives the exact condition on the input,
  `RewriteTwiceCanDiffer` an input that fails it.
- The bytes that are hashed do not determine the action. Among the requests that sign the same bytes
  as one whose action the rewrite keeps, `PreimageUnique` tells exactly which have an action of the
  same meaning. `PreimageCanBeShared` shows two that do not: a cancel of a cloid of 217 bytes, and a
  cancel of that cloid behind a NUL. `NonceCanDiffer` shows two with different nonces and expiries, on
  lists that are not actions.
- A fill can raise the remaining size: exactly when that size is negative (`FillShrinksIff`).
- A modify does not always reach the order it names. `ModifyReachesIff` gives the exact condition: an
  abbreviated entry reaches it when the OID is a multiple of the spacing of doubles around it, an
  entry with full names when its own OID or cloid is that of the order. `ModifyCanHitAnother` and
  `FullNamesCanMiss` show one miss of each kind: the first reprices another order, the second creates
  one.
- The last update a connection received can be stale when a later one was dropped. `ReplayIsExact`
  tells what that last update is, so when it is the stored order; `ReplayCanBeStale` gives a run after
  which it is not. `DroppedIffFull` tells exactly which updates are dropped.
- `README.md:119` of the repository says that subscriptions only receive orders of the subscribed
  wallet, but orders without an owner go to every subscriber. `server/handlers.go:74` says that such
  orders are accessible to all queries, but they are shown only to a query with an empty user
  (`HandleOrderStatus`). The model follows the code in both places.

## Model

| member | source | states |
|---|---|---|
| MessagePack.ScalarFormats | server/signature_recovery.go:155-161 | which first bytes announce a scalar of 0, 1, 2, 4 or 8 further bytes |
| MessagePack.FirstByte | server/signature_recovery.go:155-161 | the first byte of an encoded value for each of its formats |
| MessagePack.DecodeEncode | server/signature_recovery.go:155-161 | the encoding of a value, followed by anything, decodes to that value and leaves the rest |
| MessagePack.PrefixFree | server/signature_recovery.go:155-162 | two encodings with tails that give equal bytes are the same value with the same tail |
| Rewrite.ConvertStr16ToStr8 | server/signature_recovery.go:200-218 | the index-driven loop computes the suffix-recursive rewrite |
| Rewrite.ConversionsShorten | server/signature_recovery.go:204-214 | the output is shorter by exactly the number of conversions |
| Rewrite.UnchangedIffQuiet | server/signature_recovery.go:204-206 | a buffer is left alone exactly when the guard holds at no position of it |
| Rewrite.CopiedByteStaysQuiet | server/signature_recovery.go:204-215 | a byte the loop copies does not satisfy the guard in the output either |
| Rewrite.LooksShortMeans | server/signature_recovery.go:204-215 | what a converted string holds looks like a short string header in the output exactly under a condition on the input |
| Rewrite.RewriteTwice | server/signature_recovery.go:200-218 | rewriting twice equals rewriting once exactly when no end of a converted string meets that condition with the input behind it |
| Rewrite.PrintableRewriteTwice | server/signature_recovery.go:200-218 | printable ASCII payloads make the rewrite idempotent |
| Rewrite.RewriteTwiceCanDiffer | server/signature_recovery.go:200-218 | an input on which a second rewrite changes the result of the first |
| Rewrite.ConvertFollowsPieces | server/signature_recovery.go:200-218 | on any cut of a buffer with any tail, exactly the marked conversions happen if and only if the guard fails at all other bytes |
| Rewrite.RetagMeaning | server/signature_recovery.go:206-211 | retagging short str 16 strings as str 8 keeps a value well formed and its meaning the same |
| Rewrite.RewriteExact | server/signature_recovery.go:200-218 | the rewrite maps the encoding of a value to the encoding of the retagged value exactly when the guard fails outside short strings |
| Rewrite.CleanIsQuiet | server/signature_recovery.go:204-206 | a value with no stray 0xda byte satisfies that condition whatever follows it |
| RewriteMeaning.FirstDifference | server/signature_recovery.go:204-207 | when the guard holds elsewhere, the output first differs from the encoding of the retagged value by a 0xd9 over a 0xda |
| RewriteMeaning.DivergenceShows | server/signature_recovery.go:204-207 | bytes with such a first difference do not decode to the meaning of the value, whatever follows |
| RewriteMeaning.MeaningKeptBefore | server/signature_recovery.go:200-218 | the rewritten bytes, followed by anything, say what the value says exactly when the guard fails outside short strings |
| RewriteMeaning.RewriteKeepsMeaning | server/signature_recovery.go:200-218 | the same for the rewritten bytes alone, which then decode completely; a value with no stray 0xda byte is always kept |
| RewriteMeaning.RewriteCanLoseCancel | server/signature_recovery.go:136-141 | the rewritten bytes of a cancel of order 14286848 do not say what the cancel says |
| Bytes.EightBytes | server/signature_recovery.go:167-169 | a number in 8 bytes is read with its first byte counting most |
| ActionFraming.EncodeActionPreimage | server/signature_recovery.go:154-195 | the preimage is the rewritten action and then, at fixed positions, the nonce in 8 bytes, 1 and the 20 bytes of the vault or 0, and 0 and the expiry in 8 bytes if there is one; the error is that of the first failing check |
| ActionFraming.SuffixHasLayout | server/signature_recovery.go:166-193 | the suffix function has that layout byte by byte |
| ActionFraming.AddressReads | server/signature_recovery.go:220-235 | vaults are accepted exactly with 39 or 40 hex digits, and the 20 bytes are the number they denote |
| ActionFraming.SuffixLength | server/signature_recovery.go:167-195 | the four suffix shapes have lengths 9, 18, 29 and 38 |
| ActionFraming.SuffixDetermines | server/signature_recovery.go:167-195 | a suffix determines nonce, vault and expiry |
| ActionFraming.PreimageUnique | server/signature_recovery.go:154-195 | a request that signs the bytes of one whose action is kept has an action of the same meaning exactly when its own is kept, and then the same nonce, vault and expiry |
| SharedPreimages.NulIsLost | server/signature_recovery.go:204-214 | the rewrite turns a string of 218 bytes that starts with a NUL and an ASCII character into the string without the NUL |
| SharedPreimages.PreimageCanBeShared | server/signature_recovery.go:154-195 | a cancel by cloid and the cancel of that cloid behind a NUL sign the same bytes with any nonce, vault and expiry, and mean different things |
| SharedPreimages.NonceCanDiffer | server/signature_recovery.go:163-195 | when one of two values is not kept by the rewrite, equal bytes can frame them with different nonces and expiries |
| Hex.DecodeHexReads | server/signature_recovery.go:321-324 | even-length text decodes exactly when all characters are hex digits, to the bytes of its number |
| Hex.DigitsCount | server/signature_recovery.go:321-324 | the hexadecimal digits are 0 to 9 and a to f in either case, and count from 0 to 15 |
| Hex.PrefixesStripped | server/signature_recovery.go:316 | before digits, "0x" and then "0X" are taken away, each at most once and in this order only |
| Signature.ComponentReads | server/signature_recovery.go:311-329 | a component decodes exactly when it denotes a number of at most 64 digits, to that number; otherwise the error says why |
| Signature.CopyInto | server/signature_recovery.go:295-297 | copying overwrites one range of the buffer and nothing else |
| Signature.Assemble | server/signature_recovery.go:295-308 | the buffer holds the two components padded to 32 big-endian bytes and the recovery bit |
| Signature.DecodeExchangeSignature | server/signature_recovery.go:285-309 | decoding succeeds exactly on two readable numbers and a known recovery id, and gives them in 32 bytes each and the bit |
| Signature.SignatureReads | server/signature_recovery.go:295-305 | the halves of a signature read back as r and s, the last byte as the bit |
| Signature.ReadableFits | server/signature_recovery.go:325-327 | an accepted component is below 2^256 |
| Signature.EveryNumberIsReadable | server/signature_recovery.go:311-329 | every number below 2^256 printed with any prefix and leading zeros in 64 digits is accepted as that number |
| FlexibleOid.FlexibleOid.UnmarshalJson | server/types.go:52-96 | numbers and null are taken as they are, text by the two-base rule, anything else fails and changes nothing |
| FlexibleOid.BasesAgreeOnOrder | server/types.go:75-84 | reading decimal digit strings in base 16 keeps their base-10 order |
| FlexibleOid.DigitStringReading | server/types.go:69-95 | a digit string falls back to base 10 exactly from 8*10^15 on, and is then valid exactly when it fits int64 |
| FlexibleOid.DigitsRead | server/types.go:75-81 | hexadecimal digits with or without a sign read as their number exactly when it fits int64 |
| FlexibleOid.OtherTextIsKept | server/types.go:91-95 | text with another character is kept as it is and is not an OID |
| Prelude.LowerCasesAgree | server/state.go:193 | two texts have one lower-case form exactly when they agree letter by letter up to ASCII case |
| Orders.KeysAgree | server/state.go:189-197 | two cloids have one key exactly when they spell one cloid: behind a hex prefix neither letter case nor the case of the prefix matters, and text without a prefix is its own key |
| Orders.PresentMeans | server/state.go:71-75 | a cloid is found exactly when some order has it in any spelling, and then that order is the one |
| Orders.CreateSets | server/state.go:36-57 | creating stores one open order with the next OID and the given fields, all of it still to be filled, and changes no other |
| Orders.OperationSets | server/state.go:67-156 | every other operation changes only the order it names by OID or cloid, keeps its identity and sets price, size and status as stated field by field |
| Orders.SpellingsReach | server/state.go:32-172 | an order created under one spelling of a cloid is found, modified, canceled and filled under every other |
| Orders.RunKeepsInv | server/state.go:32-156 | in every reachable store OIDs are distinct and in range, keys are canonical, and no key disappears |
| Orders.OidsFromTheStart | server/state.go:20-25 | on a new server OIDs lie above 1000000, at most as far as orders were created, and no two orders share an OID or a cloid in two spellings |
| Orders.OidNamesOneOrder | server/state.go:32-156 | over any run an OID keeps naming one order with unchanged identity fields |
| Orders.ScanHasOneHit | server/state.go:94-107 | a scan by OID has at most one possible hit, in any iteration order |
| Orders.ScanRefinesIndex | server/state.go:67-187 | modify, cancel and get by OID equal the same operation by the cloid of the order holding the OID |
| Orders.WrittenUnderItsKey | server/state.go:36-56 | the order an operation leaves belongs under the key written and has the OID, or the cloid in some spelling, that the operation names |
| Orders.FillAmountIsNearest | server/testserver.go:355-365 | the amount filled is the nearest possible one to the amount wanted, and everything when none was named |
| Orders.RemainderIsRounded | server/testserver.go:367-370 | what remains is the exact difference, taken for zero within 10^-12 of it |
| Orders.FillShrinksIff | server/testserver.go:355-370 | a fill keeps the remaining size between zero and what it was exactly when it was not negative |
| Orders.FillsConserve | server/testserver.go:350-370 | over any fills the size only falls, never below zero, and differs from the initial size by what was filled up to 10^-12 |
| Orders.StoredSizeFollowsFills | server/testserver.go:341-379 | an order that is only filled and canceled, among any operations on others, has the size the fills leave, and its status is "canceled" or, after a fill, "filled" exactly at zero |
| Orders.StoredPriceFollowsFills | server/testserver.go:372-373 | such an order has the price of its last fill, or its first price when it was not filled, and keeps coin, side, OID, original size, cloid and owner |
| State.AnnouncesStored | server/state.go:59-61 | what an operation announces is the order as it is stored afterwards, unless 100 updates wait |
| State.State.CreateOrder | server/state.go:32-64 | the store gains a new object under the canonical key with the next OID, and its snapshot is offered |
| State.State.ModifyOrder | server/state.go:67-87 | price and size of the order under the key change in place and its snapshot is offered, or nothing happens |
| State.State.FindOid | server/state.go:94-96 | a scan in arbitrary order finds exactly the key holding the OID |
| State.State.ModifyOrderByOid | server/state.go:90-111 | as ModifyOrder, on the order holding the OID |
| State.State.CancelOrder | server/state.go:114-133 | the order under the key becomes canceled and its snapshot is offered, or nothing happens |
| State.State.CancelOrderByOid | server/state.go:136-156 | as CancelOrder, on the order holding the OID |
| State.State.GetOrder | server/state.go:159-172 | the result is a new object equal to the stored order with that cloid in any spelling, or null exactly when there is none |
| State.State.GetOrderByOid | server/state.go:175-187 | the same by OID |
| State.State.ExecuteFill | server/testserver.go:355-384 | the step-by-step clamps and the status update equal the specified fill |
| State.State.FillOrder | server/testserver.go:341-386 | a fill changes only the order under the key, and is refused exactly for unknown cloids and unreadable sizes |
| State.State.CopiesAreStable | server/state.go:169-183 | a copy returned by a query is unchanged by any later sequence of operations |
| Subscriptions.NormalFormsAgree | server/handlers.go:15-17 | two addresses have one normal form exactly when they differ in letter case only |
| Subscriptions.RepliesTell | server/websocket.go:164-274 | a subscribe that takes effect is acknowledged, with a snapshot for a book feed; an unsubscribe is not answered; anything else gets one error and changes nothing |
| Subscriptions.ErrorsTell | server/websocket.go:166-247 | the error names what is missing or not supported |
| Subscriptions.ConnectionState.HandleMessage | server/websocket.go:164-182 | a message changes the subscriptions and is answered as specified |
| Subscriptions.ConnectionState.HandleSubscribe | server/websocket.go:185-249 | the same for subscribe messages, malformed ones included |
| Subscriptions.ConnectionState.HandleUnsubscribe | server/websocket.go:252-274 | an unsubscribe is silent and clears both book feeds of its coin |
| Subscriptions.CoinsFollowMessages | server/websocket.go:210-274 | after any messages a coin is subscribed exactly when it was asked for after its last unsubscribe of either type |
| Subscriptions.UserFollowsMessages | server/websocket.go:193-203 | the subscribed user is the normalized user of the last well-formed subscribe with no unsubscribe after it |
| Subscriptions.NoUserAfterDrop | server/websocket.go:259-262 | no user is subscribed when every subscribe is followed by an unsubscribe |
| WebSocket.SubscriptionMeans | server/websocket.go:362-378 | a subscription to an address reaches exactly the orders without an owner and those of that address up to letter case; one to the empty address reaches none |
| WebSocket.PushedMeans | server/websocket.go:362-388 | a log gains the update exactly when there is a subscription and the order has no owner or that subscriber as owner |
| WebSocket.OfferMeans | server/websocket.go:344-348 | at most 100 updates wait, and the next one is dropped |
| WebSocket.WebSocketManager.BroadcastOrderUpdate | server/websocket.go:319-349 | the channel gains the order's snapshot, or is unchanged when it holds 100 |
| WebSocket.WebSocketManager.BroadcastNext | server/websocket.go:354-391 | one uninterrupted turn writes the oldest update once to every connection that wants it, in any visiting order; an order without an owner goes to every subscriber |
| WebSocket.WebSocketManager.Connect | server/websocket.go:127-136 | a new connection is registered without subscriptions and the others stay |
| Broadcast.AfterInv | server/websocket.go:319-391 | registration, accounting, log order, canonical keys and store agreement hold after every legal run |
| Broadcast.OrderedAndAccounted | server/websocket.go:340-391 | in every run each connection's log is a subsequence of the commits in order; commits are dropped, queued or taken, with at most 100 queued |
| Broadcast.DroppedIffFull | server/websocket.go:344-348 | every writing step of a run is recorded as the next commit, which is dropped exactly when the channel held 100 at that step |
| Broadcast.Isolation | server/websocket.go:354-388 | every delivered update was checked for that connection at a step of the run, has the subscription read at that step, and no owner or that subscriber as its owner up to letter case |
| Broadcast.OnlyOwnUpdates | server/websocket.go:354-388 | while a connection stays subscribed as one user, all it receives is visible to that user, except possibly first the update already checked for it |
| Broadcast.SilentWhileUnsubscribed | server/websocket.go:258-262 | while unsubscribed a connection receives at most the one update already checked for it |
| Broadcast.BroadcasterCanStep | server/websocket.go:355-390 | the broadcaster has a next step as long as an update waits or is on its way |
| Broadcast.OthersCanStep | server/websocket.go:132-143 | in every phase orders are written and subscriptions change; connections come and go while the broadcaster does not hold the connection lock |
| Broadcast.SilentBeforeSubscribe | server/websocket.go:127-136 | a new connection is registered and receives nothing until its first subscribe |
| Broadcast.SilentAfterDisconnect | server/websocket.go:140-147 | a connection that is closed never receives anything again |
| Broadcast.DeliveryIsExact | server/websocket.go:354-391 | once drained, a continuously subscribed connection has received an update committed meanwhile exactly when it was not dropped and is visible |
| Broadcast.ReplayIsExact | server/websocket.go:319-391 | once drained, the last update a continuously subscribed connection got for a canonical cloid is the last one committed meanwhile, sent and visible; so it is the stored order exactly when the two are equal |
| Broadcast.ReplayAgreement | server/websocket.go:319-391 | it is the stored order, if that is visible and the latest update for the cloid was not dropped |
| Broadcast.SubscriberReceives | server/websocket.go:193-203 | once drained, a connection that subscribed to an address and left it at that has received exactly the later updates that were not dropped and whose order has no owner or that address as owner |
| Broadcast.SubscriberAgrees | server/websocket.go:193-203 | and the last one for a cloid is the stored order, if that has no owner or that address as owner and its latest update was not dropped |
| StaleReplay.ReplayCanBeStale | server/websocket.go:344-348 | a run that leaves a subscriber with the old price of its own order and nothing on its way, while the store has the new price |
| Broadcast.FanOutInAnyOrder | server/websocket.go:356-389 | every order of visits gives the same logs: one update to each connection that wants it |
| Broadcast.CommitMatchesState | server/websocket.go:344-348 | a commit step does to the channel what the State methods do |
| Broadcast.MessagesMatchSteps | server/websocket.go:193-262 | a message about order updates changes the subscribed user as the subscription steps do |
| Broadcast.TurnInAnyOrder | server/websocket.go:354-391 | an uninterrupted turn gives the same state whatever the order of its visits |
| Broadcast.TurnMatchesManager | server/websocket.go:354-391 | that state has the channel and logs that the contract of WebSocketManager.BroadcastNext gives |
| Broadcast.TurnReaches | server/websocket.go:362-388 | after a turn a subscriber has the oldest update exactly when its order has no owner or the subscriber as owner |
| Handlers.UlpMeans | server/handlers.go:353 | the spacing is the power of two that leaves the number 53 binary digits |
| Handlers.ConversionIsNearest | server/handlers.go:353 | float64 gives the nearest multiple of the spacing, the even one of two |
| Handlers.TruncateMeans | server/handlers.go:170-172 | int64 of a number cuts off the fraction, towards zero |
| Handlers.FloatSurvival | server/handlers.go:352-353 | an integer survives float64 exactly when it is a multiple of the spacing around it, always up to 2^53 |
| Handlers.FloatLosesNext | server/handlers.go:353 | 2^53 + 1 becomes 2^53 in float64, so the bound is tight |
| Handlers.NamesMeans | server/handlers.go:302-321 | a request resolves to the OID of an order exactly when it gives it as a number or "0x" text, or gives its large 0x cloid |
| Handlers.ModifyHitsTarget | server/handlers.go:297-356 | an abbreviated modify naming an order reprices that order only and creates none |
| Handlers.ModifyErrors | server/handlers.go:324-350 | a modify that names nothing is an error even without an order, one that names an order and brings none is another, and neither changes anything |
| Handlers.ProcessReaches | server/handlers.go:211-257 | an entry with the OID of an order, or no OID and its cloid, reprices that order alone and is answered with its OID; no other entry is, and given a new cloid it leaves the order alone |
| Handlers.OidReprices | server/handlers.go:170-222 | an entry with the OID of an order, as a number in the field of its format or as hex text, reprices that order alone and is answered with its OID and cloid |
| Handlers.UnknownOid | server/handlers.go:223-228 | an OID that no order has is an error, whatever the cloid |
| Handlers.CloidReprices | server/handlers.go:231-238 | without an OID the cloid in any spelling reprices the order that has it |
| Handlers.OtherwiseCreates | server/handlers.go:202-257 | otherwise an IOC order for BTC at 87000 or less, in any letter case, is rejected, and any other entry creates an open order with its side, price, size and owner |
| Handlers.ModifyReachesIff | server/handlers.go:297-356 | a modify that names an order, in either format, is answered with its OID exactly when its entry leads there; it then reprices that order alone, and otherwise leaves it alone |
| Handlers.AbbreviatedModify | server/handlers.go:352-356 | an abbreviated modify reprices whichever order has the converted OID, or finds none |
| Handlers.ModifyCanHitAnother | server/handlers.go:305-353 | a modify naming OID 2^53 + 1 as text reprices the order with OID 2^53 instead |
| Handlers.FullNamesCanMiss | server/handlers.go:185-201 | a modify with full names that names an order by OID can leave it alone and create another |
| Handlers.Handler.ProcessOrder | server/handlers.go:151-257 | the method changes the store and answers as the specification of one entry says |
| Handlers.Handler.HandleOrder | server/handlers.go:122-147 | the loop processes the entries in order, with one status each |
| Handlers.Handler.HandleModify | server/handlers.go:297-367 | the OID is resolved from number, hex text or cloid and the entry processed with it |
| Handlers.LookedUpMeans | server/handlers.go:545-551 | a status request finds the order whose OID is the number, or whose cloid the text spells |
| Handlers.Handler.HandleOrderStatus | server/handlers.go:535-565 | an order is shown exactly when the identifier is that of the order and the user equals its owner up to letter case |
| BatchOrders.LastForMeans | server/handlers.go:128-132 | the item that sets price and size is the last one addressed to the key |
| BatchOrders.FirstAdmissibleMeans | server/handlers.go:240-252 | the item that creates an order is the first one for the key that is not rejected |
| BatchOrders.BatchIsUpsert | server/handlers.go:122-147 | a batch equals one upsert: known keys are repriced, new keys take identity from their first admissible entry, statuses match entries |
| BatchOrders.OidsAreConsecutive | server/handlers.go:252 | new OIDs are consecutive in the order of first admission |
| Capture.RequestCapture.Handle | server/testserver.go:73-124 | one request updates log and skip state as specified |
| Capture.RequestCapture.Append | server/testserver.go:114-124 | the log gains one entry, in place or in a larger array |
| Capture.RequestCapture.GetRequests | server/testserver.go:167-175 | the result is a new array holding the log |
| Capture.RequestCapture.ClearLog | server/testserver.go:185-191 | the log becomes empty over the same array and skipping starts |
| Capture.LogAfterClear | server/testserver.go:90-108 | after a clear the log is all later requests but upgrades, without exactly the first min(2, k) /info POSTs |
| Capture.LogBeforeClear | server/testserver.go:90-124 | before any clear nothing but upgrades is left out |
| Capture.LoggedAsSent | server/testserver.go:114-123 | with nothing left out the log has verb, path and body of every request in order |
| Capture.UpgradesUnlogged | server/testserver.go:75-79 | an upgrade makes no difference to the log, wherever it comes |
| Capture.StartUpIsHidden | server/testserver.go:90-104 | after a clear the first two POSTs to /info for "meta" or "spotMeta" are hidden and all that follows is logged |
| Capture.OthersAreLogged | server/testserver.go:105-124 | any other first request is logged, and as a POST to /info it ends the hiding |
| Capture.RequestCapture.SlicesAreStable | server/testserver.go:167-191 | a returned slice is unchanged by any later requests and clears |

## Left out

- HTTP routing, JSON text, logging, timestamps, socket I/O and the embedded metadata: requests are taken as decoded values, and a write to a connection appends to its log and succeeds.
- The metadata records of `server/types.go` and their JSON forms: data and plumbing.
- Keccak, EIP-712 hashing, ECDSA recovery and `normalizeActionPayload`: the model stops at the pre-hash bytes and the 65-byte signature.
- MessagePack ext 8, ext 16 and ext 32: the encoder of the signing code does not produce them.
- Float formatting, NaN and IEEE rounding in sizes: two spellings of one number are one size, and fills are exact over the reals.
- Lower-casing beyond ASCII: addresses, cloids and coin names are ASCII.
- Overflow of the OID counter at 2^63 and `int64` of a float outside its range.
- Generated cloids: the caller of the model supplies the cloid an entry without one would get.
- `handleCancel` and `handleBatchModify`: loops over single store operations that are modelled.
- The l2Book and bbo broadcaster: it reads one subscription and writes one frame, without the ownership rule.
- Atomicity of a batch, or of check-then-create, across concurrent requests: only single store operations are atomic, and handlers are modelled one request at a time.
- Liveness and deadlock: the broadcast laws are about what has happened, not that something will happen.
- Data races on the skip state of the request capture, which the code reads and writes outside its lock: requests are modelled one at a time.
- ActionFraming.PreimageUnique: says nothing of two requests neither of whose actions the rewrite keeps, because equal bytes then need not be the front of any encoding.
