# TradeSynth verification

A Dafny model of TradeSynth, a trading server and client in C, and proofs about it.
`dafny verify dfyconfig.toml` checks the whole project.

What is modelled, by file:

| file | models |
|---|---|
| `Arithmetic.dfy`, `Base33.dfy` | the number theory of `acc = acc * 33 + digit` modulo a power of two |
| `Checksum.dfy` | the wire checksum and exactly which changes it detects |
| `Bytes.dfy`, `Types.dfy` | little-endian integers, record layouts on LP64, the payload records |
| `Serialization.dfy`, `FrameTheorems.dfy` | encoder and decoder over byte buffers; round trips, unique parsing, corruption |
| `Streams.dfy` | frames back to back on a connection, cut into the pieces `recv` returns |
| `Registry.dfy`, `Arrivals.dfy`, `Counting.dfy` | the client array: every operation as a function on values, and all runs of them; who sits in which slot; what its counts and times record |
| `Server.dfy` | the server context as a class; each handler proved against those functions |
| `ServerThreads.dfy` | handler threads interleaved access by access over one context |
| `Solo.dfy` | a thread left to itself against the handler's one call |
| `Scans.dfy`, `Skips.dfy`, `Misses.dfy` | what one broadcast or trade sends under every interleaving; which clients a broadcast misses |
| `Honest.dfy` | what honest clients can make the server send |
| `Prices.dfy`, `Hashes.dfy` | decimal prices; string and order hashes |
| `Client.dfy`, `ClientThreads.dfy`, `ClientProgress.dfy` | the client's calls; its threads interleaved step by step; what connects, disconnects, receiving and sending achieve |

## What the proofs show about the code

Where the code does not do what its names, tests or comments suggest, the model follows the code.

- The decoder returns 0, not a size, and does not restore the sequence number or timestamp, which
  are not on the wire (tests/unit/test_serialization.c:27 and :29 expect otherwise).
- The checksum misses a swap of two bytes at distance d exactly when 2^27 divides d times their
  difference (`Checksum.SwapMissed`), and no swap of unequal bytes within a payload.
- The checksum does not cover the header: a damaged type field passes exactly when the new type is
  encodable with the same payload size (`FrameTheorems.TypeCorruption`), and `message_size` may be
  wrong in ways the decoder accepts (`FrameTheorems.SizeCorruption`, `FrameTheorems.ReceivedBytesDecide`).
- No operation ever assigns a client id. So in every run all ids compare equal, a disconnect always
  drops the longest-connected client, whichever handler disconnects
  (`Registry.LiveClientsAreAQueue`), lookups by a nonempty id fail (`Registry.NonemptyIdNeverFound`),
  and trades between named parties are sent to nobody (`ServerThreads.NamedTradesGoNowhere`).
- A handler keeps the slot it was started for while the clients move. It reads its own client's socket exactly
  as long as no disconnect has shifted a live successor into the slot and no arrival has filled it again
  (`Arrivals.WhoseSocketTheHandlerReads`, `Arrivals.SlotStaysIff`).
- `disconnect_client` reads the slot again after the shift and the unlock, so the same condition decides whether
  it closes its own client's descriptor (`Arrivals.WhoseDescriptorTheHandlerCloses`); even a newcomer's can be
  closed (`Arrivals.NewcomerClosed`). When the close follows its shift at once, it hits a client that stays
  connected exactly when the slot had a live successor or held a client younger than the oldest live one
  (`Arrivals.ClosesAStayingClientIff`); otherwise that of one dropped now or long before (`Arrivals.DepartedClosed`).
- Message counts stay with the slot: nothing resets them, so a newcomer goes on counting where the slot's last
  client stopped (`Counting.MessagesCounted`, `Counting.NewcomerInheritsCount`).
- The receive loop decodes one message per `recv`: of a piece that starts with a frame it processes that frame
  if the piece holds all of it, and drops the rest (`Streams.PieceAtBoundary`). A piece that starts inside
  a frame can pass for a message nobody sent (`Streams.CutInsideAFrame`). Only sent messages are processed,
  however an honest stream is cut, exactly when no bytes inside a frame look like a message that was not sent
  (`Streams.OnlySentIff`); and only sent frames are relayed exactly when none look like one that would be relayed
  (`Honest.HonestRelayIff`).
- Broadcasts scan leftovers too. A broadcast taken as one instant reaches each live client exactly once and nobody
  else only while the client count stands at its highest value ever (`Registry.BroadcastReach`), and addresses a
  departed client exactly when a leftover slot still holds one (`Arrivals.BroadcastAddressesDeparted`).
  Right after a disconnect among two or more clients the newest client is addressed twice, until an arrival
  fills the second slot (`Registry.NewestClientDuplicated`).
- The scan takes no lock. Every finished broadcast has sent once at each slot that was ever filled when it began
  (`Scans.FinishedBroadcast`), but a client that stays connected throughout is missed in its own slot exactly
  when a disconnect takes effect while the scan stands right before that slot (`Skips.WhoIsSkipped`). With its
  descriptor to itself, it gets no frame at all exactly when that happens and the scan reads no leftover copy of
  it (`Misses.WhoGetsNothing`).
- `process_order` never returns success and never sends anything, since order status messages cannot be
  encoded (`Server.ServerContext.ProcessOrder`); likewise the heartbeat reply.
- The position check is an unsigned 32-bit sum: a buy of an allowed quantity passes exactly when it keeps the
  position within the limit or the sum wraps (`Server.PositionLimit`).
- After one `disconnect_from_server` a client never receives again, even if it reconnects
  (`ClientThreads.FrozenAfterDisconnect`). A receiver thread that cannot be started leaves the client
  connected with nobody receiving and every further connect refused, until it disconnects
  (`ClientThreads.FailedSpawnStaysConnected`, `ClientThreads.FailedSpawnLasts`).
- The price improvement can exceed the ask by more than a cent: exactly for prices more than a cent below zero
  with more than six decimals, such as -10000005 * 10^-7 against an ask of -1.0000004 (`Server.StaysBelowTheAsk`).

## Assumptions

- LP64, little endian, signed `char`; enumerations are 32-bit unsigned. Copying a record copies its padding.
- In runs, `accept` yields positive descriptors; a single call of `accept_client` may yield any.
- `max_clients` is `MAX_CLIENTS` (the default): the array scans run to `MAX_CLIENTS` whatever the configuration.
- A handler holds the slot its `client` pointer points at, and that slot was filled before.
  Nothing in the repository starts `handle_client`; the model says what its threads do once started.
- One scan of `find_client_socket` is one step, though the scans take no lock; a broadcast is one step per slot.
- What happens to the array under the mutex is one step, the `memmove` of a disconnect included, even for those who
  read without the mutex. The close behind a disconnect is a step of its own in runs (`Registry.Close`);
  the method `Server.ServerContext.DisconnectClient`, `Registry.WhatIsClosed` and `Registry.OwnSocketClosedIff` take
  the two without anything in between.
- One thread calls connect and disconnect of a client; any number of threads send.
- `get_client_position` and `get_market_data` are placeholders and appear as parameters; the theorems that
  fix them to the values they return say so.
- A converted price out of the range of `int64_t` is undefined in C; the model yields what an x86-64
  conversion does, and the theorems about conversion exclude it.
- An id without a NUL compares like one that differs from every terminated id.

## Model

| member | source | states |
|---|---|---|
| `Base33.HornerIsPolynomial` | src/serialization/serialization.c:111-117 | The accumulation loop, from any start, is the start times 33^n plus the polynomial sum of b[i] * 33^(n-1-i). |
| `Base33.LiftExponent` | src/serialization/serialization.c:111-117 | 33^d - 1 has exactly five more factors of two than d. |
| `Base33.WindowChange` | src/serialization/serialization.c:111-117 | Replacing a stretch of digits is missed modulo 2^k exactly when the two stretches have congruent base-33 values, whatever surrounds them. |
| `Base33.SwapChange` | src/serialization/serialization.c:111-117 | Exchanging two digits at distance d is missed modulo 2^(5+k) exactly when 2^k divides d times their difference. |
| `Checksum.CalculateChecksum` | src/serialization/serialization.c:111-117 | The loop over 32-bit wrapping shifts and sums computes the checksum of the given stretch of the buffer. |
| `Checksum.ChecksumIsPolynomial` | src/serialization/serialization.c:111-117 | The checksum is the base-33 polynomial of the bytes modulo 2^32. |
| `Checksum.ChecksumConcat` | src/serialization/serialization.c:111-117 | The checksum of a concatenation follows from the two checksums and the second length. |
| `Checksum.AccumulatorBijection` | src/serialization/serialization.c:111-117 | For fixed bytes, starting and final accumulators are one to one on 32-bit values, with an explicit inverse. |
| `Checksum.WindowDetection` | src/serialization/serialization.c:111-117 | Changes inside one window of at most five bytes are missed exactly when the window keeps its base-33 value. |
| `Checksum.SixByteCollision` | src/serialization/serialization.c:111-117 | Five is the limit: two six-byte windows of different value with one checksum. |
| `Checksum.OneByteDetected` | src/serialization/serialization.c:111-117 | Every change of a single byte changes the checksum, at any length. |
| `Checksum.AdjacentBytesMissed` | src/serialization/serialization.c:111-117 | A change of two adjacent bytes is missed exactly when the second difference is -33 times the first. |
| `Checksum.SwapMissed` | src/serialization/serialization.c:111-117 | A swap is missed exactly when 2^27 divides distance times difference. |
| `Checksum.SwapDetected` | src/serialization/serialization.c:111-117 | Every swap of unequal bytes less than 2^20 apart changes the checksum. |
| `Checksum.SwapAtTwoToTheTwentyMissed` | src/serialization/serialization.c:111-117 | At distance 2^20 a difference of 128 is missed, so the bound is sharp. |
| `Types.OrderRoundTrip` | include/common/types.h:84-105 | An order comes back from its 128-byte image with every field as it was. |
| `Types.MarketDataRoundTrip` | include/common/types.h:108-119 | Market data comes back from its 104-byte image with every field as it was. |
| `Types.TradeRoundTrip` | include/common/types.h:122-131 | A trade execution comes back from its 128-byte image with every field as it was. |
| `Types.OrderImage` | include/common/types.h:90-105 | Every 128-byte string is the image of the order read from it, padding included. |
| `Types.MarketDataImage` | include/common/types.h:108-119 | Every 104-byte string is the image of the market data read from it, padding included. |
| `Types.TradeImage` | include/common/types.h:122-131 | Every 128-byte string is the image of the trade read from it, padding included. |
| `Types.OrderLayout` | include/common/types.h:90-105 | Which bytes of the image each field of an order occupies. |
| `Types.MarketDataLayout` | include/common/types.h:108-119 | Which bytes of the image each field of market data occupies. |
| `Types.TradeLayout` | include/common/types.h:122-131 | Which bytes of the image each field of a trade occupies. |
| `Types.IntegerBytes` | include/common/types.h:84-131 | Byte i of an integer field is its digit of weight 256^i, of its two's complement when negative. |
| `Serialization.SerializeMessage` | src/serialization/serialization.c:3-54 | Succeeds exactly when the type is encodable and the frame fits; writes exactly the frame, and nothing on an error; which error comes first. |
| `Serialization.CompleteFrame` | src/serialization/serialization.c:48-53 | Size, checksum and header turn a payload in place into its frame and leave the rest of the buffer. |
| `FrameTheorems.FrameBytes` | src/serialization/serialization.c:8-53 | The wire bytes of every frame, field by field: 1 0 0 0, the size, the type, the payload size, the checksum, the payload. |
| `FrameTheorems.FrameLengths` | src/serialization/serialization.c:17-46 | Which types can be encoded, with which payload, and how long their frames are. |
| `FrameTheorems.ValidationIsTight` | src/serialization/serialization.c:119-135 | Header validation passes a version and message_size if and only if some buffer carrying them is accepted. |
| `Serialization.DeserializeMessage` | src/serialization/serialization.c:56-109 | Return code and resulting message for every buffer, received length and previous message, including the type written before a late error. |
| `Serialization.DeliverPayload` | src/serialization/serialization.c:77-108 | Exactly the payload is copied over the front of the union, and only when the announced size fits the type. |
| `FrameTheorems.EncodeDecode` | src/serialization/serialization.c:3-109 | Every encoded message, with any bytes after it, decodes to its type and payload; sequence number, timestamp and the rest of the union stay. |
| `FrameTheorems.RecordsArrive` | src/serialization/serialization.c:25-41 | Orders, market data and trades arrive field for field. |
| `FrameTheorems.TruncatedFrame` | src/serialization/serialization.c:56-70 | Every frame cut short is reported incomplete and leaves the message alone, whatever stale bytes follow. |
| `FrameTheorems.DecodeEncode` | src/serialization/serialization.c:56-106 | Accepted bytes are the frame of what was delivered except perhaps message_size, and exactly that frame when message_size is the true size. |
| `FrameTheorems.AcceptedLanguage` | src/serialization/serialization.c:56-135 | The decoder accepts exactly the encoder's frames with message_size anywhere from the header size to what was received (and the maximum). |
| `FrameTheorems.FramesAreAPrefixCode` | src/serialization/serialization.c:3-54 | No frame is a proper prefix of another; type and payload are determined by the frame. |
| `Streams.StreamsAreUnique` | src/serialization/serialization.c:3-54 | Frames back to back can have come from one message sequence only. |
| `Streams.FirstFrameOnly` | src/server/server_network.c:91-106 | A piece that starts with a frame, cut anywhere: the first frame's message is processed exactly when the piece holds all of it; nothing else is. |
| `Streams.PieceAtBoundary` | src/server/server_network.c:91-106 | The same for a piece that starts before any message of the stream. |
| `Streams.OneMessagePerPiece` | src/server/server_network.c:91-106 | However a stream is cut at frame boundaries, the first frame of each piece is processed; everything is, if and only if no piece holds two. |
| `Streams.CutInsideAFrame` | src/server/server_network.c:91-106 | For any market data there is an order whose frame, received in two pieces, is processed as that market data. |
| `Streams.OnlySentIff` | src/server/server_network.c:91-106 | Over all cuts of an honest stream and all stale bytes, only sent messages are processed if and only if, at each offset strictly inside a frame, the bytes look like no message, or like one that was sent. |
| `FrameTheorems.PayloadCorruption` | src/serialization/serialization.c:72-75 | A damaged payload is a checksum error unless its checksum is that of the original. |
| `FrameTheorems.SmallCorruptionsDetected` | src/serialization/serialization.c:72-75 | One changed payload byte, or two unequal ones exchanged, is always a checksum error, and the message is left alone. |
| `FrameTheorems.BurstCorruption` | src/serialization/serialization.c:72-75 | A burst over at most five payload bytes passes exactly when it keeps their base-33 value. |
| `FrameTheorems.VersionOrChecksumCorruption` | src/serialization/serialization.c:64-75 | A damaged version or checksum field is always noticed, with these codes. |
| `FrameTheorems.TypeCorruption` | src/serialization/serialization.c:77-106 | A damaged type passes exactly when encodable with the same payload size; otherwise which error, and that the type has been written all the same. |
| `FrameTheorems.SizeCorruption` | src/serialization/serialization.c:64-106 | Result and message for every damaged message_size; a damaged payload_size never passes. |
| `FrameTheorems.ReceivedBytesDecide` | src/serialization/serialization.c:68-72 | An accepted result is settled by the received bytes if and only if they cover the announced payload. |
| `FrameTheorems.BareHeaderAccepted` | src/serialization/serialization.c:68-72 | The other case is real: a bare 20-byte header is accepted together with stale bytes, for every message. |
| `Registry.StepInvariant` | src/server/server_network.c:65-77 | From every state, every operation keeps: count within bounds, positive sockets below the high-water mark, untouched slots above it. |
| `Registry.RunInvariant` | src/server/server_core.c:35-65 | The same holds in every run from the initial context, where moreover no slot ever has an id. |
| `Registry.ShiftRemovesFirstMatch` | src/server/server_network.c:141-149 | The shift and decrement remove the first live client with the id; the others keep order and contents; the old last entry stays behind them. |
| `Registry.NothingToRemove` | src/server/server_network.c:141-149 | Without a live match a disconnect changes nothing in the array. |
| `Registry.LiveClientsAreAQueue` | src/server/server_network.c:65-149 | In every run the live clients are those of a queue: each disconnect drops the oldest. |
| `Registry.WhatIsClosed` | src/server/server_network.c:141-154 | From any state and ids: the descriptor closed is the successor's when the shift reaches the slot, else the slot's own. |
| `Registry.OwnSocketClosedIff` | src/server/server_network.c:138-156 | In every run, with nothing between shift and close, when exactly a handler closes the descriptor its slot held. |
| `Arrivals.SlotsHoldArrivals` | src/server/server_network.c:65-149 | In every run each slot ever filled holds the socket of one numbered arrival; live slot k holds number dropped + k. |
| `Arrivals.HolderNeverReverts` | src/server/server_network.c:65-149 | Over any stretch of a run a slot only moves on to later arrivals. |
| `Arrivals.SlotStaysIff` | src/server/server_network.c:65-149 | From any point of any run, a filled slot still holds the same client if and only if no later event moved another one in. |
| `Arrivals.WhoseSocketTheHandlerReads` | src/server/server_network.c:83-106 | In every run, whose socket the handler started for an arrival reads: its own client's if and only if none was moved into the slot since; while the slot is live, that of the client that many arrivals later as were dropped since. |
| `Arrivals.WhoseDescriptorTheHandlerCloses` | src/server/server_network.c:138-156 | In every run, with anything between shift and close: whose descriptor a handler closes; exactly when its own client's, and exactly when a connected client's. |
| `Arrivals.ClosesAStayingClientIff` | src/server/server_network.c:138-156 | For every handler, with nothing between shift and close: exactly when the closed descriptor belongs to a client that stays. |
| `Arrivals.NewcomerClosed` | src/server/server_network.c:152-154 | A run in which a client accepted between unlock and close has its descriptor closed. |
| `Arrivals.DepartedClosed` | src/server/server_network.c:138-156 | A run in which, with two clients connected, the descriptor of one dropped earlier is closed. |
| `Arrivals.WhoseDescriptorsAreClosed` | src/server/server_network.c:138-156 | Over whole runs, closes separate from their shifts: to which arrivals the closed descriptors belonged, and which arrivals are the live clients. |
| `Registry.BroadcastReach` | src/server/server_handlers.c:134-138 | In every run a broadcast taken at one instant attempts one send per slot ever filled, live clients first; it addresses each of them once and nobody else if and only if the count is at its high-water mark. |
| `Arrivals.BroadcastAddressesDeparted` | src/server/server_handlers.c:134-138 | Which client each send addresses; somebody departed is addressed if and only if a leftover slot holds one. |
| `Registry.BroadcastBeforeAnyDisconnect` | src/server/server_handlers.c:134-138 | Before any disconnect or stop it reaches every accepted client exactly once, in order. |
| `Registry.BroadcastNeverShrinks` | src/server/server_core.c:124-133 | No operation, stopping included, ever makes a broadcast smaller. |
| `Registry.NewestClientDuplicated` | src/server/server_network.c:143-147 | Right after any disconnect among two or more clients the newest is sent each broadcast twice. |
| `Registry.LookupMissing` | src/server/server_handlers.c:206-214 | A lookup fails exactly when no occupied slot, live or left over, has the id. |
| `Registry.LookupOfLiveClient` | src/server/server_handlers.c:206-214 | For the id of a live client the full scan finds the first live match, in spite of leftovers. |
| `Registry.NonemptyIdNeverFound` | src/server/server_handlers.c:206-214 | In every run a nonempty id is never found. |
| `Server.ServerContext.constructor` | src/server/server_core.c:35-65 | The initial context: zeroed slots, no clients, counter 1. |
| `Server.ServerContext.AcceptClient` | src/server/server_network.c:39-81 | All outcomes of accept: codes, the slot filled, the descriptor closed when full. |
| `Server.ServerContext.DisconnectClient` | src/server/server_network.c:138-156 | The loop and memmove on the array are the removal of the first match; which descriptor is closed. |
| `Server.ServerContext.StopServer` | src/server/server_core.c:113-137 | Every live client's descriptor and the listening one are closed; count 0, sockets left in the slots. |
| `Server.ServerContext.FindClientSocket` | src/server/server_handlers.c:206-214 | The scan computes the first occupied match or -1. |
| `Server.ServerContext.SendResponseMessage` | src/server/server_handlers.c:189-204 | Exactly the message's frame is sent if its type is encodable, otherwise nothing and the serialization error. |
| `Server.ServerContext.ProcessOrder` | src/server/server_handlers.c:65-110 | Never success, never a frame; a number is taken exactly by accepted orders, whose copy has status new and the time of the change. |
| `Server.ServerContext.BroadcastMarketData` | src/server/server_handlers.c:126-141 | One number, and the frame to every slot with a positive socket, in order. |
| `Server.ServerContext.ProcessTradeExecution` | src/server/server_handlers.c:159-178 | One number, and the frame to the buyer's and then the seller's socket, where found. |
| `Server.ServerContext.GenerateId` | src/server/server_handlers.c:230-236 | Ids are the successive sequence numbers. |
| `Server.ServerContext.HandleReceived` | src/server/server_network.c:91-132 | One turn of the receive loop: undecodable input leaves no trace; otherwise the handler's slot counts one message more modulo 2^64 and notes the time, no other slot changes, and the relayed frames and the number follow. |
| `Counting.RecordStep` | src/server/server_network.c:65-149 | From every state of a run, what each operation does to any slot's count, heartbeat and record. |
| `Counting.MessagesCounted` | src/server/server_network.c:108 | In every run, between shifts into it, a slot's count grows by exactly the messages handled for it, modulo 2^64, newcomers included. |
| `Counting.NewcomerInheritsCount` | src/server/server_network.c:72-77 | A run in which a new client starts with the count of the one before it. |
| `Server.ServerContext.HandleMessage` | src/server/server_handlers.c:11-46 | For every type: the result, the frames sent, the number taken; only relays are ever sent. |
| `Server.PositionLimit` | src/server/server_handlers.c:69-83 | An order is refused if and only if its quantity is not allowed, or it is a buy that exceeds the limit without wrapping the 32-bit sum; at the placeholder's position 0 only the quantity decides. |
| `Server.ProcessedOrder` | src/server/server_handlers.c:85-99 | An accepted order gets status new and the time; a limit buy below the ask gains a cent, exactly if it has at most six decimals and to within a millionth otherwise; every other price and every other field stay, as does every nonnegative price against the placeholder's zero ask. |
| `Server.StaysBelowTheAsk` | src/server/server_handlers.c:85-93 | Exactly when a limit buy's new price stays below the ask plus a cent for every ask above its price: from minus a cent up, or with at most six decimals. |
| `ServerThreads.StepInvariant` | src/server/server_handlers.c:65-178 | Every step of every thread keeps: numbers, jobs, messages in flight and frames sent all agree. |
| `ServerThreads.NumbersIssued` | src/server/server_handlers.c:103-236 | In every interleaving the numbers taken by orders, broadcasts, trades and generated ids are 1, 2, 3, ... modulo 2^64, pairwise distinct if and only if at most 2^64 were taken. |
| `ServerThreads.NumbersTakenInRun` | src/server/server_handlers.c:75-236 | In every run the numbers on record are exactly those taken by generated ids and by starts on decoded messages other than rejected orders, in that order. |
| `ServerThreads.Relay` | src/server/server_network.c:103-127 | Every frame ever sent decodes at a client as market data or a trade, and is the front of a received buffer up to message_size. |
| `ServerThreads.HonestRelay` | src/server/server_network.c:103-127 | If every decoded buffer begins with a frame some client encoded, every frame the server sends is one of those, byte for byte. |
| `Honest.HonestRelayIff` | src/server/server_network.c:91-127 | Over all interleavings and all cuts of honest streams, the server sends only frames some client sent if and only if, at each offset strictly inside a frame, the bytes look like no relayable message, or like one that was sent. |
| `ServerThreads.OneNumberPerOperation` | src/server/server_handlers.c:126-178 | All frames of one operation carry the number taken for it and are the same frame; up to 2^64 numbers, one number means one operation. |
| `ServerThreads.NamedTradesGoNowhere` | src/server/server_handlers.c:159-178 | A trade frame is sent to the buyer's side only if the buyer id is empty, and to the seller's only if the seller id is. |
| `Scans.OncePerPlace` | src/server/server_handlers.c:134-175 | Under every interleaving one broadcast sends at most once per slot, in slot order, and one trade at most once to each side. |
| `Scans.FinishedBroadcast` | src/server/server_handlers.c:126-141 | Under every interleaving a finished broadcast has sent exactly once at every slot below the high-water mark at the moment it took its number. |
| `Skips.FollowedPosition` | src/server/server_network.c:141-149 | A followed client moves down one slot with each disconnect that takes effect, and is connected until it was the oldest at one or the server stops. |
| `Skips.WhoIsSkipped` | src/server/server_handlers.c:134-138 | Follow any client that is live when a scan begins: while it stays, its socket stays with it, and the finished scan has sent from its slot if and only if no disconnect took effect while the scan stood right before it. |
| `Skips.AfterADisconnect` | src/server/server_handlers.c:134-138 | Without leftovers and with nothing else happening: what the rest of a scan sends after such a disconnect, to the clients behind, and to the newest again. |
| `Skips.SkippedClientGetsNothing` | src/server/server_handlers.c:134-138 | In that case the passed client, neither oldest nor newest, stays live and gets nothing more, if descriptors differ. |
| `Misses.WhoGetsNothing` | src/server/server_handlers.c:134-138 | Under every interleaving, for any client that stays and has its descriptor to itself: a finished broadcast sent it no frame if and only if a disconnect moved it past the scan and the scan read no leftover copy of it. |
| `Misses.PassedOverGetsNothing` | src/server/server_handlers.c:134-138 | A client without leftover copies and never the newest at a disconnect gets no frame if and only if a disconnect moved it past the scan. |
| `Solo.AloneIsSequential` | src/server/server_handlers.c:65-178 | A thread without interference sends exactly what the handler sends in one call, and takes a number exactly when it does. |
| `Solo.TurnAlone` | src/server/server_network.c:91-132 | A whole receive turn without interference: nothing for undecodable input; otherwise the message is counted in its slot, and frames and number are those of the one call. |
| `Prices.NormalizePrice` | src/common/utils.c:246-253 | The loop on the price behind the pointer computes the normal form, and ends. |
| `Prices.NormalizeKeepsValue` | src/common/utils.c:246-253 | The value is kept, and no trailing zero is left while the exponent is negative. |
| `Prices.NormalizeIsCanonical` | src/common/utils.c:246-253 | Which prices share a normal form: with no positive exponent, exactly those of equal value; otherwise only equal ones. |
| `Prices.PositiveExponentsStayApart` | src/common/utils.c:246-253 | Different prices of equal value keep different fields if and only if one has a positive exponent; such a pair exists. |
| `Prices.CompareAndNormalize` | src/common/utils.c:235-244 | Comparison yields -1, 0 or 1 as the value is smaller, equal or greater; it is a total order, unchanged by normalizing, and decides equality of normal forms. |
| `Prices.ValueOfPrice` | include/common/types.h:158-160 | The value is the mantissa times, or divided by, the power of ten of the exponent. |
| `Prices.ConvertibleIff` | include/common/types.h:162-167 | Exactly which values fit the conversion, and what the others become. |
| `Prices.ConversionMonotone` | include/common/types.h:162-167 | Conversion preserves order. |
| `Prices.PriceRoundTrip` | include/common/types.h:158-167 | There and back keeps the value, or the normal form, exactly when the normal form has at most six decimals (and no positive exponent). |
| `Prices.ImprovementIsOneCent` | src/server/server_handlers.c:89-93 | The improvement is exactly a cent if and only if the price has at most six decimals; otherwise less than a millionth off, short for prices from minus a cent up and beyond it below. |
| `Prices.ImprovementBound` | src/server/server_handlers.c:89-93 | Exactly when the improved price is below each higher ask plus a cent. |
| `Hashes.HashString` | src/common/utils.c:212-220 | The loop computes the base-33 accumulation of the signed characters from 5381. |
| `Hashes.HashOrder` | src/common/utils.c:222-232 | The chain of updates is the same accumulation over symbol text, id, type, side and quantity; an unterminated symbol reads on into the fields behind it. |
| `Hashes.HashPolynomials` | src/common/utils.c:212-232 | Both hashes in closed form: a base-33 polynomial behind 5381, and 33^4 times the text's hash plus the weighted numbers, modulo 2^64. |
| `Hashes.EachFieldCounts` | src/common/utils.c:222-232 | The hash is injective in the id, and, if the text ends before them, in each of type, side and quantity, with the rest fixed. |
| `Hashes.SameSymbolAndIdCollision` | src/common/utils.c:225-229 | With symbol and id fixed, orders collide exactly when 1089 type + 33 side + quantity agree. |
| `Hashes.OneCharacterCounts` | src/common/utils.c:212-220 | Strings of equal length that differ in one character never collide. |
| `Hashes.OneSymbolCharacterCounts` | src/common/utils.c:222-232 | Orders whose symbols differ in one character, everything else the same, never collide. |
| `Hashes.TextOfOrder` | src/common/utils.c:225 | A terminated symbol is hashed alone; otherwise, if the client id holds a NUL, the two decide the text. |
| `Hashes.ShortStringCollision` | src/common/utils.c:212-220 | Strings of equal length up to twelve collide exactly when they have the same base-33 value. |
| `Client.ClientContext.SendOrder` | src/client/client.c:229-253 | Codes, the frame put on the wire, and both counters, for every order, state and result of send. |
| `Client.ClientContext.RequestMarketData` | src/client/client.c:202-227 | Codes, the request frame, and the message counter; a partial send counts. |
| `Client.RequestReadBack` | src/client/client.c:206-210 | What the frame of every request decodes to: the symbol cut to fifteen characters and filled up with zeros, and zeros in every other field. |
| `Client.RequestedSymbol` | src/client/client.c:210 | The symbol is cut to fifteen characters and terminated. |
| `ClientThreads.StepInvariant` | src/client/client.c:5-186 | Every step of the controlling thread, of receivers and of senders keeps counters, states and the single active receiver consistent. |
| `ClientThreads.Counters` | src/client/client.c:224-251 | In every interleaving the stored counters are the totals modulo 2^64; trades never outrun messages; messages sent fall short of orders plus requests by exactly the threads between their two increments. |
| `ClientThreads.StoredCounters` | src/client/client.c:31-251 | What the stored counters therefore satisfy, before and after they wrap. |
| `ClientThreads.Receivers` | src/client/client.c:10-65 | Each receiver reports its disconnect at most once; at most one is still in its loop; no order status is ever delivered. |
| `ClientThreads.ConnectedByConnect` | src/client/client.c:144-147 | Over every run, the context becomes connected only by the marking step of a connect; no receiver does it. |
| `ClientProgress.ConnectConnects` | src/client/client.c:99-161 | From every disconnected state between calls, a connect whose system calls succeed ends connected with one more receiver at its loop, whatever other threads do in between. |
| `ClientProgress.ConnectRefused` | src/client/client.c:103-142 | A connect that is refused or cannot open its connection changes nothing. |
| `ClientProgress.DisconnectEnds` | src/client/client.c:163-186 | From every state between calls, a disconnect waits for the receiver and for nothing else, and ends stopped, disconnected, without a receiver. |
| `ClientProgress.ReceiverWindsDown` | src/client/client.c:10-65 | Once stopped, a receiver is done after at most six steps of its own, whatever else happens. |
| `ClientProgress.TurnOfReceiver` | src/client/client.c:10-65 | One turn of the receiver loop for every outcome of recv and the decoder: what is counted, where the receiver stands, what the context says. |
| `ClientProgress.TurnOfSender` | src/client/client.c:202-253 | One call of either sending function for every outcome: what is counted, once each. |
| `ClientProgress.FirstMessage` | src/client/client.c:67-161 | A new client that connects and is sent any frame receives and counts it. |
| `ClientThreads.ConnectedWhileReceiving` | src/client/client.c:99-186 | Between calls "connected exactly while a receiver has not reported the disconnect" holds if and only if no failed start of a receiver is still standing. |
| `ClientThreads.FailedSpawnStaysConnected` | src/client/client.c:144-153 | In every state where starting the receiver fails, the context stays connected, nobody receives and connects are refused, through every later run without a disconnect. |
| `ClientThreads.FailedSpawnLasts` | src/client/client.c:144-186 | What a failed start leaves behind lasts through every run until a disconnect completes, which ends it. |
| `ClientThreads.FrozenAfterDisconnect` | src/client/client.c:163-186 | Once a disconnect has returned, nothing is ever received again, whatever follows, reconnects included. |

## Left out

- Serialization.DeserializeMessage: requires the memory behind the buffer to cover the announced payload whenever
  the checksum is reached, because the source sums `payload_size` bytes without a check (src/serialization/serialization.c:68-72)
  and reading past the memory has no defined result.
- Server.ServerContext.HandleReceived: carries the same requirement on its receive buffer.
- Prices.PriceRoundTrip: requires the scaled value to fit `int64_t`; so do the other theorems about conversion.
- Hashes.HashOrder: requires a NUL somewhere in the record from the symbol on; else the source reads past the record.
- Hashes.SameSymbolAndIdCollision: requires a NUL in symbol or client id; else the text itself runs over the fields changed.
- Registry.BroadcastReach: takes a broadcast as one instant; what happens during the scan is in `Skips.WhoIsSkipped`
  and `Misses.WhoGetsNothing`.
- Streams.OnlySentIff: a piece whose announced payload runs past the receive buffer counts as processing nothing; the source reads on.
- Registry.Enabled: runs with a client on descriptor 0, which the scans would take for an empty slot, are not followed.
- The client's threads are modelled on values rather than as methods, since their subject is interleaving; the context's
  socket number and the resolution of host names are not part of that model.
- Sockets, threads, signals and clocks: descriptors, bytes received, results of `send` and times are parameters or arbitrary.
- Floating-point rounding and `pow`: prices are exact reals.
- Logging, the command line, configuration checks, the Docker script, examples.
- Order book, positions, best bid and ask, market data cache: declared in include/server/server_types.h, but no code works on them.
- Validators, enumeration names, case conversion, random generators, allocation wrappers: each is a table or a single call.
- `max_clients` below `MAX_CLIENTS`: the scans would leave the allocated array.
- `pthread_join` in `stop_server` (src/server/server_core.c:126-129): no code sets `active`, so it is never reached.
