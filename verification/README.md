# Verified model of the simulator bridge, the competition timer and the local planner

This project models, in Dafny 4.11, the parts of the racing stack whose correctness spans several
functions, and proves what they promise for all inputs and all runs.

* **Serializer** (`Schema`, `Codec`, `RoundTrip`, `ReadBack`, `Canonical`, `Layout`, `Serializer`): the introspection-driven
  writer and reader of the bridge. A schema is a list of members of primitive, string or nested type, each
  scalar, dynamic array or fixed array; primitive values are raw bytes, so floating point is opaque.
* **Framing** (`Framing`, `Connection`): how a client's byte stream is cut into operations, whatever
  the chunks it arrives in.
* **Outgoing double buffer** (`DoubleBuffer`, `Connection`): one buffer being written, one waiting.
* **Registry and node** (`Registry`, `Publishers`, `RosNode`): subscriber changes that are queued and
  drained by the executor, publisher changes that happen at once, the wait set, and the fan-out.
* **End to end** (`Inbound`, `Session`, `Outbound`, `Server`): the pieces composed, over all runs and on the heap:
  any interleaving of the running bridge's steps is a run of the system.
* **Competition timer** (`FinishLine`, `LapTimer`, `LapLaws`, `LapExceptions`) and **local path** (`Waypoints`).

Code that works by changing fields is a class whose methods are proved against a function of the old state
(`Serializer.Writer`, `Serializer.Reader`, `Connection.Client`, `RosNode.Node`, `Server.Bridge`,
`LapTimer.CompetitionTimer`, `Waypoints.Planner`); the lemmas are about those functions. `Bytes` holds the length fields, `Reals`
the products, that several modules share.
`dafny verify dfyconfig.toml` checks everything.

## Where the code differs from what one would expect

The model follows the code in each case.

* A message comes back from `Unserialize(Serialize(m))` exactly when it is *sendable*: every type visited is
  supported and every string length, element count and primitive-array byte count is below 2^32
  (`ReadBack.UnserializeOfSerializeIff`). This is for data below 2^32 bytes, which is what a frame can carry, and
  types whose fixed arrays have fewer than 2^32 elements. Both bounds are needed: outside them a message can come
  back although it is not sendable (`ReadBack.LongReadBack`, `Canonical.ReadBackWithoutSendable`). For types
  without fixed arrays neither is (`Canonical.FixedFreeReadBackIff`).
* A fixed array may arrive with count 0. Primitive ones then become zeros, others keep their initial values,
  so reading and writing again gives the same bytes only if that did not happen. It gives the same message if
  those values can be sent, but not always otherwise: the initial value may hold a member of an unsupported type
  (`Canonical.RewriteRejected`).
* The writer stops silently at an unsupported member, and an enclosing message goes on; `Unserialize` ignores
  its `offset` parameter and accepts trailing bytes.
* The frame handlers read the second length before its four bytes are known to have arrived. The model lets
  that read give any number; the outcome is the same for all of them.
* An unknown operation code closes the connection but does not remove the client from the node
  (`Session.UnknownCodeKeepsClient`).
* The timer can end in an exception: when a competition starts before the first clock reading, and when the target
  is below one lap. `LapExceptions` says exactly when.
* A competition whose start time is exactly 0.0 is treated by `save_results` as not started, so a completed
  race is written exactly when its start time is not 0.
* A finish line with equal end points is never crossed, whatever the tolerance.
* The top-level README says of a red flag that the timer does not pause; that is proved
  (`LapTimer.FlagsDoNotPause`).
* The walk that ends the local path adds up distances from the vehicle, not along the path as its comment
  suggests. It wraps around unless the waypoints after the closest one are far enough away in sum, and then the
  slice that is copied is empty or not a valid range: always so at the last waypoint
  (`Waypoints.LocalPathIff`, `Waypoints.AtLastWaypoint`).

## Model

| member | source | states |
|---|---|---|
| Bytes.Le32Bytes | src/external/interfaces/lgsvl_bridge/src/client.cc:230-240 | a length field is the four low bytes of the length, least significant first |
| Bytes.GetOfLe32 | src/external/interfaces/lgsvl_bridge/src/client.cc:261-264 | reading a length field gives the length modulo 2^32, at any offset |
| Bytes.Le32OfGet | src/external/interfaces/lgsvl_bridge/src/client.cc:261-264 | writing a number that was read gives the same four bytes |
| RoundTrip.ReadsBackAnywhere | src/external/interfaces/lgsvl_bridge/src/types.cc:258-592 | a sendable message is read back whole, after any prefix and before any tail, and the reader stops at the end of its code |
| RoundTrip.PrefixFree | src/external/interfaces/lgsvl_bridge/src/types.cc:467-592 | codes of one type are injective and prefix-free |
| RoundTrip.ExtensionKeepsRead | src/external/interfaces/lgsvl_bridge/src/types.cc:191-243 | appending bytes never changes a successful read |
| RoundTrip.TruncationRejected | src/external/interfaces/lgsvl_bridge/src/types.cc:191-243 | every strict prefix of a message's code is rejected |
| Canonical.SendableIffReadBack | src/external/interfaces/lgsvl_bridge/src/types.cc:423-592 | a message is read back with no zero-count fixed array met, if and only if it is sendable, for every schema and tail |
| ReadBack.UnserializeOfSerializeIff | src/external/interfaces/lgsvl_bridge/src/types.cc:409-592 | for every type whose fixed arrays have fewer than 2^32 elements and data below 2^32 bytes, unserializing the serialized message gives it back if and only if it is sendable, whatever follows |
| ReadBack.LongReadBack | src/external/interfaces/lgsvl_bridge/src/types.cc:445-465 | the bound on the data is needed: a message with an array of 2^32 bytes and two fixed arrays comes back although the bytes of the first were not written |
| Canonical.FixedFreeReadBackIff | src/external/interfaces/lgsvl_bridge/src/types.cc:409-592 | for types without fixed arrays the same holds for code of any length |
| Canonical.ReadBackWithoutSendable | src/external/interfaces/lgsvl_bridge/src/types.cc:221-243 | a fixed array of 2^32 zero bytes comes back although its count was cut to 0 |
| Canonical.RewriteOfUnpadded | src/external/interfaces/lgsvl_bridge/src/types.cc:262-350 | for every type, fewer than 2^32 bytes and no zero-count fixed array: what was read can be sent, its code is the consumed bytes, and they are read back as it |
| Canonical.RewriteIsIdentityIffNotPadded | src/external/interfaces/lgsvl_bridge/src/types.cc:262-350 | for types whose padding values can be sent, writing what was read gives exactly the consumed bytes if and only if no fixed array arrived with count 0, and is never shorter |
| Canonical.RewriteReadsTheSame | src/external/interfaces/lgsvl_bridge/src/types.cc:262-350 | for types whose padding values can be sent, decode, encode, decode equals the first decode, padded or not |
| Canonical.RewriteRejected | src/external/interfaces/lgsvl_bridge/src/types.cc:313-403 | for other types it need not: an accepted array of messages with an unsupported member, sent with count 0, is written with count 1 and then rejected |
| ReadBack.RewriteReadsTheSameIff | src/external/interfaces/lgsvl_bridge/src/types.cc:262-592 | in every accepted case, decode, encode, decode gives the same message if and only if the message read is sendable |
| Canonical.OversizedLastArrayRejected | src/external/interfaces/lgsvl_bridge/src/types.cc:445-465 | a last primitive array with fewer than 2^32 elements but at least 2^32 bytes is written with a cut byte count, and the reader rejects it |
| Canonical.CanonZeroCount | src/external/interfaces/lgsvl_bridge/src/types.cc:269-279 | a fixed array sent with count 0 is read as a conforming value whose own code starts differently |
| Canonical.SoundIsPaddable | src/external/interfaces/lgsvl_bridge/src/types.cc:269-350 | a type of supported members whose initial values can be sent pads with values that can be sent |
| Canonical.InitFits | src/external/interfaces/lgsvl_bridge/src/types.cc:324-333 | what init stores in nested and array members conforms and can be sent |
| Canonical.AcceptedIff | src/external/interfaces/lgsvl_bridge/src/types.cc:258-406 | below 2^32 bytes, what is read without a zero-count fixed array is exactly the data that starts with the code of a sendable message, and that message |
| Layout.ElementSizes | src/external/interfaces/lgsvl_bridge/src/types.cc:214-243 | n elements take n, 2n, 4n or 8n bytes, and that many bytes hold n |
| Layout.ScalarCode | src/external/interfaces/lgsvl_bridge/src/types.cc:423-443 | a number is written as its 1, 2, 4 or 8 bytes |
| Layout.ArrayCode | src/external/interfaces/lgsvl_bridge/src/types.cc:445-465 | a primitive array is its count, then all of its memory, by element size |
| Layout.TextCode | src/external/interfaces/lgsvl_bridge/src/types.cc:430-436 | a string is its length, then its characters |
| Layout.MembersInOrder | src/external/interfaces/lgsvl_bridge/src/types.cc:467-590 | the code of a message is the codes of its members in their order |
| Layout.ElementsInOrder | src/external/interfaces/lgsvl_bridge/src/types.cc:489-530 | the code of an array is the codes of its elements in their order |
| Layout.LongTextIsCut | src/external/interfaces/lgsvl_bridge/src/types.cc:430-436 | a string is written as its first characters, as many as its length modulo 2^32 |
| Layout.LongListIsCut | src/external/interfaces/lgsvl_bridge/src/types.cc:489-530 | an array of strings or messages likewise, by its count |
| Layout.LongBlockIsCut | src/external/interfaces/lgsvl_bridge/src/types.cc:445-465 | a primitive array likewise |
| Layout.LongBytesAreCut | src/external/interfaces/lgsvl_bridge/src/types.cc:445-465 | a primitive array whose count fits but whose bytes do not has its full count written, and its bytes cut modulo 2^32 |
| Layout.FixedCountLaw | src/external/interfaces/lgsvl_bridge/src/types.cc:269-335 | for a fixed array a count other than its size and 0 is rejected; with 0, numbers of every width become zeros, strings and messages keep their initial values |
| Layout.InitLaw | src/external/interfaces/lgsvl_bridge/src/node.cc:315-322 | the initial message, member by member: init values, nested messages, empty dynamic and full fixed arrays of messages |
| Layout.WriterStops | src/external/interfaces/lgsvl_bridge/src/types.cc:467-592 | nothing of a message is written from its first unsupported member on |
| Layout.OuterGoesOn | src/external/interfaces/lgsvl_bridge/src/types.cc:575-590 | the enclosing message is written on after it |
| Layout.ReaderRejects | src/external/interfaces/lgsvl_bridge/src/types.cc:385-403 | no bytes are accepted for a type with an unsupported member |
| Serializer.Writer.PutText | src/external/interfaces/lgsvl_bridge/src/types.cc:430-436 | appends the 32-bit length and that many characters |
| Serializer.Writer.Serialize | src/external/interfaces/lgsvl_bridge/src/types.cc:467-592 | appends exactly the message's code, ending early at an unsupported member |
| Serializer.Writer.SerializeMember | src/external/interfaces/lgsvl_bridge/src/types.cc:473-590 | appends one member, an array as count and elements, both cut to 32-bit sizes |
| Serializer.Reader.Take | src/external/interfaces/lgsvl_bridge/src/types.cc:191-201 | takes the bytes and advances, or fails and leaves the offset |
| Serializer.Reader.TakeString | src/external/interfaces/lgsvl_bridge/src/types.cc:203-212 | takes a length and that many characters, with the offset reached on failure |
| Serializer.Reader.Read | src/external/interfaces/lgsvl_bridge/src/types.cc:258-406 | reads as the decoding function says, success or failure; the offset never goes back nor past the size |
| Serializer.Reader.ReadMember | src/external/interfaces/lgsvl_bridge/src/types.cc:264-403 | reads one member, for an array rejecting a wrong fixed count and padding a zero one |
| Serializer.Unserialize | src/external/interfaces/lgsvl_bridge/src/types.cc:409-420 | exactly the message read from offset 0, with any bytes left over, or nothing if it cannot be read |
| ReadBack.UnserializedIff | src/external/interfaces/lgsvl_bridge/src/types.cc:409-420 | a body is accepted if and only if it can be read, with any bytes left over, and as what is read |
| ReadBack.BodyReadsBack | src/external/interfaces/lgsvl_bridge/src/types.cc:409-420 | a sendable message is unserialized from its code with any bytes after it |
| ReadBack.MoreBytesIgnored | src/external/interfaces/lgsvl_bridge/src/types.cc:409-420 | bytes after an accepted body change nothing |
| ReadBack.CutBodyRejected | src/external/interfaces/lgsvl_bridge/src/types.cc:191-243 | a body that lacks any of its bytes is not accepted |
| Framing.PeelIffFrame | src/external/interfaces/lgsvl_bridge/src/client.cc:113-221 | an operation is taken off the buffer if and only if the buffer starts with its whole frame and both lengths fit 32 bits |
| Framing.FrameParts | src/external/interfaces/lgsvl_bridge/src/client.cc:223-242 | the layout of a frame: code, length, topic, length, body |
| Framing.ChunkingIndependent | src/external/interfaces/lgsvl_bridge/src/client.cc:44-74 | for every split of a stream, operations and the decision to stop equal those of parsing it whole, and so do the bytes kept unless it stopped |
| Framing.ParseSound | src/external/interfaces/lgsvl_bridge/src/client.cc:44-74 | the stream is the frames of the dispatched operations and a rest that holds no complete frame; it stops exactly at an unknown code |
| Framing.ParseFrames | src/external/interfaces/lgsvl_bridge/src/client.cc:44-74 | any frames followed by a rest with no complete frame are dispatched exactly, in order |
| Framing.FillDataReadBackIff | src/external/interfaces/lgsvl_bridge/src/client.cc:223-242 | what fill_data writes is read back as that publish if and only if both lengths are below 2^32 |
| Framing.ParseOfCode | src/external/interfaces/lgsvl_bridge/src/client.cc:19-74 | code 1 asks for a subscription, 2 for a publisher, 3 publishes; at any other byte the reader stops |
| DoubleBuffer.RunValid | src/external/interfaces/lgsvl_bridge/src/client.cc:92-111 | before a failure one write is outstanding exactly when the writing buffer is non-empty, and that buffer is what was handed over last |
| DoubleBuffer.Conservation | src/external/interfaces/lgsvl_bridge/src/client.cc:92-111 | over any interleaving, bytes handed to the socket are the frames of a first part of the accepted messages in order, and pending holds the frames of the rest |
| DoubleBuffer.ReceiverSeesAccepted | src/external/interfaces/lgsvl_bridge/src/client.cc:244-259 | parsing what was handed over gives those messages and no partial frame |
| DoubleBuffer.AcceptedIff | src/external/interfaces/lgsvl_bridge/src/client.cc:244-259 | a message is accepted in full if and only if fewer than 1073741824 bytes wait, and otherwise leaves no trace |
| DoubleBuffer.FailureStops | src/external/interfaces/lgsvl_bridge/src/client.cc:92-100 | when the outstanding write fails, nothing is in flight and nothing more is handed over, whatever comes |
| DoubleBuffer.PendingBounded | src/external/interfaces/lgsvl_bridge/src/client.cc:253-258 | pending stays below the limit plus the frame accepted last |
| DoubleBuffer.OneWriteAtATime | src/external/interfaces/lgsvl_bridge/src/client.cc:244-259 | until the outstanding write has an outcome, any number of messages change neither the buffer in flight nor what was handed over |
| DoubleBuffer.NothingSentAfterFailure | src/external/interfaces/lgsvl_bridge/src/client.cc:92-100 | after a write error no further write starts |
| DoubleBuffer.TwoCompletionsFlush | src/external/interfaces/lgsvl_bridge/src/client.cc:102-111 | two completions in a row hand over everything accepted |
| Connection.Client.Get32le | src/external/interfaces/lgsvl_bridge/src/client.cc:261-264 | the number at the offset if its bytes have arrived, any number otherwise |
| Connection.Client.HandleFrame | src/external/interfaces/lgsvl_bridge/src/client.cc:113-221 | takes the first frame off the buffer or leaves it, whatever the early read of the second length gives |
| Connection.Client.HandleRead | src/external/interfaces/lgsvl_bridge/src/client.cc:44-74 | the read loop over one chunk computes exactly the parse of buffer and chunk |
| Connection.Client.Publish | src/external/interfaces/lgsvl_bridge/src/client.cc:244-259 | starts a write, appends to pending, or discards at the limit |
| Connection.Client.HandleWrite | src/external/interfaces/lgsvl_bridge/src/client.cc:92-111 | completes, swaps and starts the next write, or fails; says whether the client must be removed |
| Connection.ReadChunks | src/external/interfaces/lgsvl_bridge/src/client.cc:34-74 | a client given chunks one after another until it stops reads what the chunk-by-chunk parse gives |
| Registry.ApplyEffect | src/external/interfaces/lgsvl_bridge/src/node.cc:155-188 | one change keeps one entry a topic and no empty entry, and changes the membership of its client only |
| Registry.FoldWellFormed | src/external/interfaces/lgsvl_bridge/src/node.cc:155-267 | over all runs each topic has at most one subscriber entry and every entry has clients |
| Registry.RegisteredIff | src/external/interfaces/lgsvl_bridge/src/node.cc:155-267 | a client is registered on a topic if and only if some change registered it there and no later one removed it |
| Registry.DeferredRefinesImmediate | src/external/interfaces/lgsvl_bridge/src/node.cc:82-90 | at every moment the table is the fold of the calls made before the last drain, and the queue holds the others in order |
| Registry.DrainedGrows | src/external/interfaces/lgsvl_bridge/src/node.cc:82-90 | that prefix never shrinks, and a drain makes it all calls |
| Publishers.FoldMirrors | src/external/interfaces/lgsvl_bridge/src/node.cc:269-302 | over all runs the publisher map keeps the same topics, types and clients as a table under the same changes |
| Publishers.PublisherIff | src/external/interfaces/lgsvl_bridge/src/node.cc:195-222 | every publisher entry has clients, exactly those registered there and not removed since |
| RosNode.Node.AddSubscriber | src/external/interfaces/lgsvl_bridge/src/node.cc:225-267 | queues the change if the type is known and changes nothing else |
| RosNode.Node.AddPublisher | src/external/interfaces/lgsvl_bridge/src/node.cc:269-302 | joins an existing publisher, or creates one of a known type |
| RosNode.Node.Publish | src/external/interfaces/lgsvl_bridge/src/node.cc:304-344 | publishes exactly the message that is read if the topic has a publisher and the bytes can be read, and nothing otherwise |
| RosNode.Node.Remove | src/external/interfaces/lgsvl_bridge/src/node.cc:155-223 | queues the removal, and takes the client out of every publisher at once |
| RosNode.Node.Receive | src/external/interfaces/lgsvl_bridge/src/client.cc:44-221 | a chunk has exactly the effects of its operations in order |
| RosNode.Node.RunAdd | src/external/interfaces/lgsvl_bridge/src/node.cc:233-263 | the queued search-and-insert loop is the table function for adding |
| RosNode.Node.RunDrop | src/external/interfaces/lgsvl_bridge/src/node.cc:157-188 | the loop with erasure in place is the table function for removing |
| RosNode.Node.Drain | src/external/interfaces/lgsvl_bridge/src/node.cc:83-88 | empties the queue first in first out and reaches the fold of all calls |
| RosNode.Node.Prepare | src/external/interfaces/lgsvl_bridge/src/node.cc:80-132 | whenever there are subscriptions the wait set has room for exactly them and holds all of them, also after the table emptied and refilled |
| RosNode.Node.HandleMessage | src/external/interfaces/lgsvl_bridge/src/node.cc:346-371 | sends the serialized message to every client of the entry, in any order, and touches nothing else of them |
| RosNode.Node.Serve | src/external/interfaces/lgsvl_bridge/src/node.cc:144-151 | every ready handle is served as its own entry, while calls arrive after each delivery; receive buffers are untouched |
| RosNode.Node.Iterate | src/external/interfaces/lgsvl_bridge/src/node.cc:78-152 | a whole iteration with calls arriving before and after each delivery: they only queue, in order, and handles stay live until served |
| Inbound.InboundEndToEnd | src/external/interfaces/lgsvl_bridge/src/client.cc:44-74 | serialized, framed and joined messages, delivered in any chunks, are dispatched exactly in order and published exactly as sent |
| Inbound.PublishLaw | src/external/interfaces/lgsvl_bridge/src/node.cc:304-344 | for any body exactly one message is published, the one it is read as, or none: without a publisher, or if it cannot be read |
| Inbound.WholeOrNothing | src/external/interfaces/lgsvl_bridge/src/node.cc:304-344 | a message of the topic's type is published whatever bytes follow it, and nothing if any of its bytes are missing |
| Inbound.ReceivePosts | src/external/interfaces/lgsvl_bridge/src/client.cc:189-221 | the same on a node and a client: the messages are published, nothing else changes, and the client reads on with an empty buffer |
| Session.SessionEndToEnd | src/external/interfaces/lgsvl_bridge/src/client.cc:44-221 | a whole connection that opens publishers, subscribes and sends messages in any order and chunks: the reader dispatches exactly that, the node opens, queues and publishes exactly those messages |
| Session.FirstOpens | src/external/interfaces/lgsvl_bridge/src/node.cc:269-302 | the first opening of a topic with a known type that the middleware creates fixes the topic's type, whatever is opened after |
| Session.UnknownCodeKeepsClient | src/external/interfaces/lgsvl_bridge/src/client.cc:44-74 | no bytes, an unknown operation code included, take a client out of the subscriptions asked for or of a publisher; an unknown code with no frame before it changes nothing |
| Outbound.ClientRuns | src/external/interfaces/lgsvl_bridge/src/node.cc:346-371 | in every run each client's buffers evolve as if alone with the events that concern it |
| Outbound.FanOut | src/external/interfaces/lgsvl_bridge/src/node.cc:346-371 | a taken message adds exactly one frame for each client then registered and not at its limit, and none for others |
| Outbound.OutboundEndToEnd | src/external/interfaces/lgsvl_bridge/src/node.cc:346-371 | over all runs a client that parses and unserializes what was handed to its socket gets a first part of its accepted messages, unchanged and in order; the rest is pending |
| Outbound.ServedIsTakes | src/external/interfaces/lgsvl_bridge/src/node.cc:144-151 | an executor iteration on the heap does to each client what its take events do in the system of all runs |
| Server.Bridge.OnChunk | src/external/interfaces/lgsvl_bridge/src/client.cc:44-74 | bytes from a client take the heap from a run to that run followed by the changes they ask for |
| Server.Bridge.OnReadError | src/external/interfaces/lgsvl_bridge/src/client.cc:76-90 | a failed read removes the client: its publishers at once, its subscriptions by a queued change |
| Server.Bridge.OnWrite | src/external/interfaces/lgsvl_bridge/src/client.cc:92-111 | a write outcome is that client's event, followed by its removal after an error other than cancellation |
| Server.Bridge.BeginIteration | src/external/interfaces/lgsvl_bridge/src/node.cc:80-132 | an iteration begins with a drain of the run, and serves exactly when there are subscriptions |
| Server.Bridge.ServeNext | src/external/interfaces/lgsvl_bridge/src/node.cc:144-151 | each ready handle is a take event of its own entry, whatever happened since the drain |
| Server.BridgeEndToEnd | src/external/interfaces/lgsvl_bridge/src/node.cc:346-371 | at every moment of the bridge on the heap, what was handed to a client's socket reads back as a first part of the messages accepted for it |
| Server.BridgeRegisteredIff | src/external/interfaces/lgsvl_bridge/src/node.cc:155-267 | at every moment the node's table holds a client on a topic if and only if a call carried out registered it and none after removed it |
| FinishLine.NearIff | src/common/competition_timer/competition_timer/competition_timer.py:257-278 | the crossing test is true if and only if the end points differ and some point of the segment is closer than the tolerance |
| FinishLine.ClampedIsNearest | src/common/competition_timer/competition_timer/competition_timer.py:266-276 | the clamped projection minimises the distance over the segment |
| LapTimer.CompetitionTimer.PublishVehicleFlag | src/common/competition_timer/competition_timer/competition_timer.py:151-190 | a flag tick starts, ends or leaves the competition |
| LapTimer.CompetitionTimer.ClockCallback | src/common/competition_timer/competition_timer/competition_timer.py:192-194 | stores the clock reading and nothing else |
| LapTimer.CompetitionTimer.GpsCallback | src/common/competition_timer/competition_timer/competition_timer.py:196-245 | a crossing starts the first lap or records one, reaching the target sets the end time and the black flag |
| LapTimer.CompetitionTimer.CheckFinishLineCrossing | src/common/competition_timer/competition_timer/competition_timer.py:247-278 | true exactly when the minimum interval has passed, the end points differ, and some point of the line is closer than the tolerance |
| LapTimer.CompetitionTimer.SaveResults | src/common/competition_timer/competition_timer/competition_timer.py:280-315 | not started, raised, no laps, or the total and the file: laps, their number, sum, average and best |
| LapTimer.ReportSound | src/common/competition_timer/competition_timer/competition_timer.py:304-312 | the rows and summary are those laps, their number and sum; the average times the number of laps is the total, and the best lap is one of them, no longer than any and than the average |
| LapTimer.SaveOutcomes | src/common/competition_timer/competition_timer/competition_timer.py:283-311 | not started without a start time or with 0, raised without an end time, else the total, with the file if there are laps |
| LapTimer.LapsTelescope | src/common/competition_timer/competition_timer/competition_timer.py:170-245 | in every run there is one lap less than crossings, and the laps sum to the last crossing less the start |
| LapTimer.BlackTickSavesIffCompleted | src/common/competition_timer/competition_timer/competition_timer.py:178-190 | the black-flag tick saves if and only if at least the target number of laps was recorded; the total then equals the sum of the laps, and they are written if and only if the start is not 0 |
| LapTimer.FlagsDoNotPause | README.md:246 | whatever red or green flags are set during a competition, laps, crossings and times are the same |
| LapTimer.LapsSpaced | src/common/competition_timer/competition_timer/competition_timer.py:252-255 | with a clock that never goes back every recorded lap lasts at least the minimum interval |
| LapLaws.GpsChangesIff | src/common/competition_timer/competition_timer/competition_timer.py:196-278 | a position changes the timer if and only if a competition is on, the clock was read, the minimum interval has passed, and some point of the line is closer than the tolerance |
| LapLaws.CrossingLaw | src/common/competition_timer/competition_timer/competition_timer.py:213-245 | the whole new state after such a position: timing starts, or raises, or one lap is added such that the laps sum to the time since the start, and the target sets end time and black flag |
| LapLaws.TargetEndsRace | src/common/competition_timer/competition_timer/competition_timer.py:178-241 | over all runs, completing the target sets flag and parameter to black, and the next tick ends the race with one save of those laps |
| LapLaws.OnlyTargetSetsFlag | src/common/competition_timer/competition_timer/competition_timer.py:236-241 | no other position changes the flag, its parameter or the end time |
| LapLaws.StartLaw | src/common/competition_timer/competition_timer/competition_timer.py:151-177 | exactly the green and speed-limit flags start a competition, with the clock's time and nothing recorded; red and black are only published |
| LapLaws.EndLaw | src/common/competition_timer/competition_timer/competition_timer.py:178-190 | during a competition every flag but black is only published; black ends it, and saves if and only if there were more crossings than laps to do |
| LapLaws.FirstTick | src/common/competition_timer/competition_timer/competition_timer.py:151-177 | before any event nothing is recorded, and the first tick starts under the same flags |
| LapLaws.SavesAreComplete | src/common/competition_timer/competition_timer/competition_timer.py:178-190 | with a target of at least one lap every save of every run is a whole race whose total is the sum of its laps |
| LapExceptions.CrossableIff | src/common/competition_timer/competition_timer/competition_timer.py:257-278 | some position is near the finish line if and only if its end points differ and the tolerance is positive |
| LapExceptions.NoExceptionAfterClockIff | src/common/competition_timer/competition_timer/competition_timer.py:151-289 | after a first clock reading no run raises if and only if the target is at least one lap, or no laps on a line that cannot be crossed |
| LapExceptions.NoExceptionFromHereIff | src/common/competition_timer/competition_timer/competition_timer.py:196-245 | with a target of at least one lap, at every moment of every run, no continuation raises if and only if the line cannot be crossed, or the clock was read and an active competition has a start time |
| LapExceptions.NoExceptionIff | src/common/competition_timer/competition_timer/competition_timer.py:151-289 | no run at all raises if and only if the target is not negative and the line cannot be crossed |
| LapExceptions.NoExceptionWithClock | src/common/competition_timer/competition_timer/competition_timer.py:213-245 | with a target of at least one lap, once the clock was read every later competition has a start time and nothing raises |
| Waypoints.StepsIff | src/planning/global_planning/src/global_planning_node.cpp:224-241 | the walk takes the least number of steps whose accumulated distances reach the radius, or all n - 1 |
| Waypoints.SquareDistanceByAxes | src/planning/global_planning/src/global_planning_node.cpp:246-252 | along one axis the square distance is the square of the difference, and the axes add up |
| Waypoints.TravelledAround | src/planning/global_planning/src/global_planning_node.cpp:224-241 | after the wrap the walk has added up all distances after the start and those from the front of the path |
| Waypoints.ConvertsIff | src/planning/global_planning/src/global_planning_node.cpp:302 | the radius is the whole part of the length, and 0 just below 0 |
| Waypoints.NoWrapIff | src/planning/global_planning/src/global_planning_node.cpp:224-241 | the walk stays below the end of the path if and only if it starts at the first waypoint or the distances to the waypoints after the start add up to the radius |
| Waypoints.LocalPathIff | src/planning/global_planning/src/global_planning_node.cpp:290-315 | the copied slice is the visited waypoints if and only if that condition holds |
| Waypoints.AtLastWaypoint | src/planning/global_planning/src/global_planning_node.cpp:290-315 | a vehicle at the last waypoint, with any positive radius, gets an empty path or an invalid range |
| Waypoints.SliceIff | src/planning/global_planning/src/global_planning_node.cpp:310-315 | the copied slice is the visited waypoints if and only if the walk does not wrap around |
| Waypoints.WrappedSlice | src/planning/global_planning/src/global_planning_node.cpp:310-315 | when the walk wraps, the slice is empty after a full round and an invalid range otherwise |
| Waypoints.ClosestIffLeastSquares | src/planning/global_planning/src/global_planning_node.cpp:204-252 | a waypoint is the closest found if and only if it is the first with the least sum of squares |
| Waypoints.Planner.FindClosestWaypoint | src/planning/global_planning/src/global_planning_node.cpp:194-214 | the first of the waypoints closest to the position, 0 for an empty path |
| Waypoints.Planner.FindNextWaypoint | src/planning/global_planning/src/global_planning_node.cpp:216-244 | terminates with next = (start + steps) mod n from the waypoint closest to the position |
| Waypoints.Planner.PublishLocalPath | src/planning/global_planning/src/global_planning_node.cpp:290-324 | publishes nothing without a position or waypoints, else the slice for the converted length; with a true root it is correct if and only if what is left of the path is long enough |

## Left out

- Serializer.Reader.Read: messages are values built as they are read, not memory filled through pointers; every message is taken to have been initialised first, as all callers do.
- Allocation failures (malloc, init and resize functions) and alignment are not modelled; the host is little-endian.
- Connection.Client.HandleRead: the socket itself is environment; only chunk arrival and write outcomes are steps. A read error is the call to `RosNode.Node.Remove`, made by the caller.
- Connection.Client.Get32le: shifts and bitwise or of four bytes are written as the equal sum.
- RosNode.Node.Receive: the operations of a chunk are dispatched after the chunk has been parsed, not between frames; handlers do not look at the buffer, so the effects are the same.
- RosNode.Node.Prepare: initialising and clearing the wait set is taken to succeed; a timeout of the wait is an iteration in which nothing is taken.
- RosNode.Node.AddSubscriber: whether the middleware creates a subscription or publisher is an input to the call, and type lookup is a fixed table; loading of type libraries is not modelled.
- RosNode.Node.Iterate: calls from the network thread are placed between deliveries, not inside one; they touch only the queue, which deliveries do not read.
- Server.Bridge: its steps are atomic, as the node's and the client's locks make them; closing sockets, stopping all clients and destroying a client that nothing refers to any more are not steps.
- LapTimer.CompetitionTimer.SaveResults: numbers are written exactly, not to three decimals; an error while writing the file, which is logged, and the save on shutdown in `main` are not modelled.
- LapTimer.CompetitionTimer.PublishVehicleFlag: flag names are an enumeration; mapping strings to flags, unknown ones to red, is not modelled.
- LapTimer and FinishLine use real numbers: floating-point rounding and the GPS projection are not modelled, and the position is given in local coordinates.
- Waypoints.Planner.PublishLocalPath: the square root is a parameter; where its value matters it is required to be a root. A length that does not fit an unsigned 64-bit integer converts to any number.
- Signal handling, CSV input, flags, race control, controllers and the simulator interfaces: input and output plumbing or single-step arithmetic.
