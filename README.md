# creamy-chat broadcast core, modelled in Dafny

creamy-chat is a small relay server: clients publish text messages and file
chunks over HTTP (`/send`, `/file`), and every client connected to
`/receive` gets each published message as a stream of JSON lines. This
project models the part of `main.go` that does the relaying:

- the envelope (`Message` and its four sub-records) — module `Messages`;
- the id scheme `"%X.%X"` of Unix seconds and a 32-bit counter — modules
  `Numerals` and `Ids`;
- the `chatter` registry — module `Registry`. It holds the map from receiver
  id to queue, the live receiver count and the id counter. It provides
  `NewID`, `NewMessage`, `Send`, `Receive` and the close function `Receive`
  returns. `Chatter` is a class with those three fields. `Subscription`
  stands for the close closure; it has one `closed` flag;
- the `/receive` session — module `Session`. It registers, writes the
  `SERVER-HELLO` ping, drains its own queue in order and closes on every
  way out;
- the keepalive goroutine — module `Keepalive`. It covers the payload length
  cap and its fallback, the index-byte fallback payload and the jittered
  delay;
- the `/send` and `/file` handlers after JSON decoding — module `Publish`.
  They cover sender defaulting, the size and chunk checks and the fan-out of
  the accepted message;
- a run of one subscriber and one text message, and two joins in a row — module `Scenario`.

The integer widths are written out: the counter is a `uint32` that wraps to 0
(`Ints.NextCounter`). The receiver count is an `int32` with two's-complement
wrap-around (`Ints.AddInt32`). `Chatter` also keeps a ghost log of every id
it has issued, with the time each carries. Its invariant `Valid()` ties the
counter and the registered ids to that log. This is what lets the model prove
that issued ids stay distinct until the counter has gone all the way round.
`Valid()` also holds that, until then, the count equals the number of
registered receivers, reduced to 32 bits. So a join or leave notice reports
how many receivers are registered.

Three behaviours of `main.go` shape the model:

- `Send` blocks on a full 10-slot channel (main.go:81) and never drops a
  message. The model's queues are therefore unbounded;
- the close function panics on a second call, because it closes a closed
  channel (main.go:91). `Subscription.Close` therefore requires that it has
  not run before;
- `ctr` is a `uint32` that wraps (main.go:68). Distinctness of ids, and with
  it the exact count, is therefore proved only up to 2^32 ids.

## Model

| member | source | states |
|---|---|---|
| `Ints.NextCounter` | main.go:68 | the counter's successor is c + 1, except that 2^32 - 1 wraps to 0 |
| `Ints.AddInt32` | main.go:104 | 32-bit addition equals true addition when no overflow occurs, and is congruent to it modulo 2^32 always |
| `Ints.CounterAfter` | main.go:68 | the counter after n increments; each is one `NextCounter` step |
| `Ints.CounterAfterAdds` | main.go:68 | n increments add n modulo 2^32 |
| `Ints.ToInt32` | main.go:63 | a receiver count as the int32 field holds it; it is exact below 2^31 |
| `Ints.ToInt32Mod` | main.go:63 | that reduction is two's-complement reduction modulo 2^32 |
| `Ints.AddToInt32` | main.go:94-104 | adding or subtracting one on the int32 count gives the reduced true count |
| `Ints.AddInt32Inverse` | main.go:94 | decrementing after incrementing restores the count, across the wrap too |
| `Numerals.Digits` | main.go:69 | the printed digits are non-empty and are all digit characters, with one digit exactly when n < base |
| `Numerals.ValueOfDigits` | main.go:69 | reading back the printed digits gives the number (round trip) |
| `Numerals.DigitsInjective` | main.go:69 | different numbers print differently |
| `Numerals.Signed` | main.go:69 | the leading '-' appears exactly for negative values, and every other character is a digit |
| `Numerals.SignedRoundTrip` | main.go:69 | reading back a signed print gives the number |
| `Numerals.SignedInjective` | main.go:69 | different signed numbers print differently |
| `Numerals.Hex` | main.go:69 | `%X` gives one or more upper-case hex digits, which `ValueOfDigits` reads back |
| `Numerals.Decimal` | main.go:97-107 | `%v` gives '-' first exactly for a negative count, and `SignedRoundTrip` reads it back |
| `Ids.FormatID` | main.go:69 | the id `"%X.%X"` of the time and the counter. It has no contract of its own; `DotPosition` and `FormatIDInjective` state how it parses |
| `Ids.DotPosition` | main.go:69 | an id is the time digits, one '.', then the counter digits, and there is no '.' before the separator |
| `Ids.FormatIDInjective` | main.go:67-70 | two ids are equal only when their times and counters are equal |
| `Ids.HelloIsNotGenerated` | main.go:291 | no generated id equals `SERVER-HELLO` |
| `Ids.IssuedLogExtend` | main.go:67-70 | an id stamped with counter (ids issued + 1) mod 2^32 extends the id log |
| `Ids.CounterTracksLog` | main.go:68 | the wrapped counter stays equal to the number of issued ids modulo 2^32 |
| `Ids.IssuedDistinct` | main.go:67-70 | the logged ids are pairwise distinct while at most 2^32 have been issued, whatever the times |
| `Ids.NextIsFresh` | main.go:67-70 | the next id is not among the earlier ones until the counter wraps |
| `Messages.Envelope` | main.go:72-77 | a new message carries its id and time with no sub-record present |
| `Messages.Notice` | main.go:96-97 | a system notice has only its system record present, with the given text |
| `Messages.JoinNotice` | main.go:104-108 | the join notice has only its system record present, with text starting "total chatters +1 = " |
| `Messages.LeaveNotice` | main.go:94-98 | the leave notice has only its system record present, with text starting "total chatters -1 = " |
| `Messages.NoticeCountReadable` | main.go:97 | the count can be read back from the text of a join or leave notice |
| `Messages.JoinIsNotLeave` | main.go:97 | a join notice never equals a leave notice |
| `Messages.Hello` | main.go:289-292 | the greeting is a ping with id `SERVER-HELLO` and no other present record |
| `Registry.Broadcast` | main.go:79-84 | fan-out neither adds nor removes a receiver |
| `Registry.BroadcastAppends` | main.go:79-84 | fan-out keeps the set of receivers and every queue's contents, and puts the message last in each queue |
| `Registry.FanOut` | main.go:80-83 | the loop over the registry visits every entry once and pushes the message into it |
| `Registry.PublishedStep` | main.go:79-84 | one more send after a run of sends applies one more fan-out |
| `Registry.PublishedInOrder` | main.go:79-84 | a receiver registered during a run of sends gets each message exactly once, in send order |
| `Registry.JoinedQueues` | main.go:101-108 | after storing an empty queue and sending, the newcomer holds just the message and every other queue gets it appended |
| `Registry.RegisterThenDrop` | main.go:90-108 | registering, sending and then deleting the newcomer leaves the others as the send alone would |
| `Registry.Chatter.CountIsReceivers` | main.go:63-104 | before a wrap, the count is exactly the number of registered receivers |
| `Registry.Chatter.constructor` | main.go:137 | a new registry has no receivers and both counters at zero |
| `Registry.Chatter.NewID` | main.go:67-70 | the counter advances by one (wrapping), the id is the time and the new counter, and the id is fresh until the wrap |
| `Registry.Chatter.NewMessage` | main.go:72-77 | the result is a fresh-id envelope with the time, and nothing else changes |
| `Registry.Chatter.Send` | main.go:79-84 | the queues become the fan-out of the old queues, and the counters are unchanged |
| `Registry.Chatter.Receive` | main.go:86-112 | the new empty queue is stored before the broadcast, so it holds exactly the join notice. Every other queue gets that notice appended. The count rises by one, and the notice text reports the new count, which before a wrap is the number of registered receivers. The receiver id is fresh until the wrap, and two ids are logged |
| `Registry.Chatter.Register` | main.go:101-104 | the new empty queue is stored and the count rises by one, which keeps the count exact |
| `Registry.Chatter.Take` | main.go:300 | receiving from the channel yields the oldest queued message and removes it |
| `Registry.Subscription.constructor` | main.go:89 | the close function starts out not yet called |
| `Registry.Subscription.Close` | main.go:89-99 | the entry is deleted and the count falls by one, so before a wrap it is still the number of registered receivers. Every remaining queue gets the leave notice with the new count. The closed receiver gets no notice of its own. One id is logged |
| `Session.Taken` | main.go:298-306 | the session takes a prefix of its queue, stopping short only when cancelled, and then after exactly `cancelAfter` messages |
| `Session.Written` | main.go:289-307 | the output is empty exactly when the greeting fails. Otherwise the greeting comes first and then the queued messages in queue order, up to the first failed write |
| `Session.WritesWholeQueue` | main.go:298-307 | over a healthy connection the greeting is followed by the whole queue |
| `Session.Drain` | main.go:298-307 | the loop writes `Written` of the queue after the greeting. It leaves the session's own queue without the messages it took, the failed one included, and changes nothing else, the id log included |
| `Session.Stream` | main.go:265-307 | the writes are `Written` of the queue, and close runs on every exit, including a failed greeting. One id is logged |
| `Session.HandleReceive` | main.go:258-308 | a whole session writes the greeting and then its own join notice. It uses and logs four ids (receiver, join, greeting, leave) and leaves the count as it was. The other receivers see the join notice and then the leave notice, stamped when the connection ends |
| `Keepalive.PingLength` | main.go:146-154 | the length is min(r, 100), where r is the random byte or 69 when the random source fails |
| `Keepalive.NextDelay` | main.go:166-168 | the next delay lies in [2, 30) seconds |
| `Keepalive.PingPayload` | main.go:155-161 | the payload has the chosen length and is the random bytes, or byte i at index i on failure |
| `Keepalive.FillWithIndex` | main.go:158-160 | the fallback loop sets every byte to its index truncated to a byte |
| `Keepalive.FillPayload` | main.go:155-161 | the buffer filled on one tick is exactly that tick's `Payload` |
| `Keepalive.Payload` | main.go:155 | a tick's payload is at most 100 bytes long |
| `Keepalive.Ping` | main.go:144-145 | a ping carries the encoded payload and has only its ping record present |
| `Keepalive.KeepaliveTick` | main.go:144-168 | one tick stamps a ping and fans it out with the encoded payload, and returns a delay in [2, 30). One id is logged |
| `Keepalive.DoneExtend` | main.go:143-169 | one more completed tick extends the record of completed ticks |
| `Keepalive.Keepalive` | main.go:143-169 | tick i publishes exactly the ping stamped with counter i + 1 after the start. The pings go out in tick order, every delay lies in [2, 30), the counter ends |ticks| steps on with |ticks| ids logged, and the count is untouched |
| `Publish.Sender` | main.go:193-198 | the sender is the basic-auth user when present, otherwise the body's sender, and "anon" when empty; it is never empty |
| `Publish.AcceptText` | main.go:192-198 | the text record is present, keeps its text and has a non-empty sender |
| `Publish.Rejection.Reason` | main.go:227-244 | each 400 body starts "Bad Request: " |
| `Publish.ReasonsDistinct` | main.go:227-244 | different rejections have different response bodies |
| `Publish.ValidateFile` | main.go:218-246 | each rejection reason holds exactly when its condition, checked in source order, first fails. An accepted chunk is present, attributed, and otherwise unchanged |
| `Publish.AcceptedWithinLimit` | main.go:225-246 | an accepted chunk has a non-zero size within the limit, an offset within the limit, a chunk within 2 MiB and a non-empty sender |
| `Publish.HandleSend` | main.go:184-208 | the text is stamped and fanned out, and its id is returned and logged |
| `Publish.HandleFile` | main.go:210-256 | a rejected chunk changes nothing and uses no id; an accepted chunk is stamped, fanned out and its id returned and logged |
| `Scenario.Connect` | main.go:86-112 | on a new registry a receiver's connection uses ids 1 to 3, leaves the count at 1, and queues just the notice "total chatters +1 = 1" |
| `Scenario.TwoJoins` | main.go:86-112 | two receivers that join in turn get different ids, and the count still equals the number of registered receivers |
| `Scenario.AliceSaysHi` | main.go:289-307 | a lone receiver writes the greeting, its own "total chatters +1 = 1" notice and then alice's "hi", in that order |

## Left out

- Concurrency: `sync.Map`, the atomics, the goroutines and the `select` race between a ready message and a cancelled request. Every operation is a sequential method, with no interleaving.
- Channel capacity and blocking: `Send` blocks on a full 10-slot channel. The model's queues are unbounded and never block or drop.
- After `close(ch)`, messages still buffered in the channel are unreachable. The model drops them together with the map entry.
- HTTP routing, headers, status codes (400, 204), the embedded page and script, and `ListenAndServe`. `Rejection.Reason` gives the 400 response bodies only.
- JSON decoding with its "Invalid JSON" rejection, JSON encoding, the newline write and the flush. The handlers take the decoded body. A session's write step is abstract: `Session.Peer` says which write fails.
- `time.Now()` and RFC 3339 formatting, the random source and base64. They are parameters: an `Instant` per operation, `Option` values for the random reads, and an `encode` function for base64.
- Registry.Chatter.Receive: the id and the notice read the clock separately in the source, but here one `Instant` serves both; `Subscription.Close`, the keepalive tick and `Session.HandleReceive` likewise. `HandleReceive` takes a second `Instant` for the leave notice, stamped when the connection ends, but its receiver id, join notice and greeting share the first.
- Keepalive.Keepalive: runs over a finite sequence of timer ticks instead of forever, and returns the chosen delays instead of resetting a timer. The initial 10-second wait (main.go:140) is not modelled.
- Registry.Subscription.Close: requires that its id is still registered. Before the counter wraps, that always holds for the one call main.go makes (the deferred close, main.go:265-268). A `Delete` of an id that is already gone, possible only after an id was reused, is not modelled.
- Session.Drain: cancellation is observed only between messages, after `Peer.cancelAfter` messages or when the queue is empty. In the source, a cancelled request can also win the `select` against a ready message; that is the same outcome as a smaller `cancelAfter`.
- Publish.ValidateFile: `len(DataB64)` counts UTF-8 bytes in the source, and the model counts characters. `data_b64` is unchecked client input, so the two differ for non-ASCII text: 1,048,577 two-byte characters make 2,097,154 bytes, which main.go:242 rejects and the model accepts.
- Environment variables (`CREAMY_CHAT_DEBUG`, `CREAMY_CHAT_FILE_SIZE_LIMIT`), `strconv.ParseUint`, `os.Exit` and slog logging. The size limit is a parameter; its 20 MiB default (main.go:126) is not modelled.
