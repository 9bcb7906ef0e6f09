# baetyl-go: a verified model

This project models the parts of baetyl-go with the most state, branching and arithmetic, and proves what they promise.

- **Protobuf codecs** (`Varint`, `BitOps`, `Wire`, `MqttCodec`, `MqttGrammar`, `FaasCodec`, `FaasGrammar`, `WireOrder`). Marshalling fills a buffer from its end to its
  first byte, and works only because `Size` is exact. Unmarshalling is a forward cursor over any bytes. Both are methods over
  real buffers and objects, proved against encoding functions and against a decoder that folds one step per record.
  Proved about these: round trips (for every walk of the metadata map), decoding of concatenations, indifference to unknown
  records, which bytes decode at all and what each record does, in what order the encoders write, and that the depth counter of the
  skip routine recognises exactly the well-formed record trees.
- **Shadow algebra** (`Shadow`, `ShadowPaths`, `ShadowHeap`). `Merge`, `Diff`, `DiffWithNil` and `Patch` over JSON trees, with patches applied as in
  section 2 of RFC 7396. `merge` and `clean` are in-place methods over map objects. The laws that tie them hold under exact
  conditions, stated as if-and-only-if: a null that is desired but not reported is what breaks them.
  A merge leaves maps shared by both documents; which ones is stated, with two merges of which the second changes the first document.
- **Reconnecting MQTT client** (`MqttClient`, `MqttLoops`, `MqttReceiving`, `MqttDelivery`). Callers, the connecting loop and the receiver of every stream ever opened
  are one step relation with histories. The invariants hold in every run. The loops themselves are methods that are proved to be runs
  of that relation; what comes of the packets received and of scripts of the loops is stated on its own.
- **Affine solver** (`Solver`). Rewriting keeps the meaning, the root is the only one, and what is refused is exactly what has a part at
  fault; a part, not always the whole.
- **Port allocator and report filter** (`PortAllocation`, `ReportFilter`), with their laws over runs of calls.
- **Checkers and canonical forms** (`Topic`, `CacheKey` with `CacheIdentity` and `Uri`, `FlowTest`): each proved against a
  specification that does not follow the code.
  `Separated`, `Permutations` and `Wrappers` hold what they share.

Where the code does less than its name suggests, the model follows the code, with an input that shows it and the exact condition
under which the expected law holds:

- `faas.Message.Equal` is not symmetric (`FaasCodec.ComparisonIsNotSymmetric`, `ComparesBackIff`, `ComparesEqualIffEqual`).
- A desired null need not reach the report (`Shadow.DesiredNullIsLost`, `PatchReachesDesire`).
- A converged `Diff` may hold empty objects (`Shadow.ConvergedDiffNeedNotBeEmpty`, `ConvergedDiffIsEmptyIff`).
- A system topic that holds a wildcard is accepted with wildcards off (`Topic.SystemTopicWithWildcard`, `WildcardsSwitchIff`).
- Different requests can share a cache key (`CacheIdentity.UndecodedCollides`, `SeparatorsCollide`, `KeyIdentifiesIff`).
- `faas.Message.Unmarshal` can end in an index panic (`FaasCodec.DecodePanics`, `DecodePanicsIff`).
- The deviation test of the report filter is one-sided, and for negative records it repeats unchanged readings
  (`ReportFilter.TwoSidedIff`, `FallsAreSuppressed`, `UnchangedIsRepeated`).
- A linear expression can be refused for a part that is not (`Solver.RefusedThoughLinear`, `RefusedIffFaulty`).

## Model

| member | source | states |
|---|---|---|
| Varint.SovCountsBytes | mqtt/mqtt.pb.go:471-473 | The closed form (Len64(x or 1) + 6) / 7 is the number of bytes that the varint loop writes |
| Varint.VarintBytes | mqtt/mqtt.pb.go:322-332 | Byte i of a varint holds bits 7i to 7i + 6, with a high bit unless it is the last, and the last is not zero unless the value is |
| Varint.EncodeVarint | mqtt/mqtt.pb.go:322-332 | Writes exactly the bytes of the varint just below offset, returns where they start, changes nothing else in the buffer |
| Varint.ReadsBackVarint | mqtt/mqtt.pb.go:513-524 | Reading inverts writing for every value that fits, whatever follows, also in the middle of a varint |
| Varint.VarintRoundTrip | mqtt/mqtt.pb.go:322-332 | For every uint64 the ten-byte overflow error is never met, the value comes back and exactly the bytes written are consumed |
| Varint.RawVarintLocal | mqtt/mqtt.pb.go:513-524 | A complete varint is read the same whatever bytes follow |
| Varint.VarintErrorsIff | mqtt/mqtt.pb.go:484-497 | Ten bytes that all continue overflow, fewer that all continue are cut short, and nothing else is an error |
| Varint.CutVarint | mqtt/mqtt.pb.go:513-524 | A varint cut short after k bytes has gathered exactly its lowest 7k bits |
| Varint.ReadVarint | mqtt/mqtt.pb.go:484-497 | The shift loop leaves the low 64 or 32 bits of the unbounded value in the register, with the right error and cursor for cut and overlong varints |
| BitOps.BitwiseByBits | mqtt/mqtt.pb.go:325-328 | The digit-wise or and and of the model act on every bit as their names say |
| BitOps.OrIsAdd | mqtt/mqtt.pb.go:492 | An or with a number whose bits start above those of the register adds |
| BitOps.MaskIsRemainder | mqtt/mqtt.pb.go:498 | A mask of n low bits is the remainder modulo 2^n |
| Varint.OrShiftedAdds | mqtt/mqtt.pb.go:558 | Or-ing a shifted group into a register of any width adds the part of the group that the register keeps, also when the shift reaches past its top |
| BitOps.GroupByte | mqtt/mqtt.pb.go:325-328 | The byte v & 0x7f or 0x80 is v modulo 128 plus 128, and v >> 7 is v divided by 128 |
| Wire.SkipRecord | mqtt/mqtt.pb.go:758-835 | The loop with its cursor and depth counter computes the recursive skip: the same length or the same error on every input, cursors that wrap around included |
| Wire.SkipsOneRecord | mqtt/mqtt.pb.go:758-835 | Every well-formed record tree, groups nested to any depth, is skipped exactly, whatever follows it |
| Wire.SkipIffRecord | mqtt/mqtt.pb.go:758-835 | A skip of n bytes inside the input succeeds if and only if the input starts with a well-formed record of n bytes |
| Wire.SkippedRecord | mqtt/mqtt.pb.go:758-835 | From a successful skip the record tree that was read can be rebuilt |
| Wire.SkipReadsFrames | mqtt/mqtt.pb.go:816-829 | From depth d, a successful skip has read the rest of d open groups, each with its own end tag |
| Wire.SkipLocal | mqtt/mqtt.pb.go:758-835 | A successful skip does not depend on the bytes behind it |
| Wire.SkipRefuses | mqtt/mqtt.pb.go:773-826 | At the first tag: the end of a group that was not started, a wire type there is none of, and a negative length are each refused with their error |
| Wire.SkipUnknown | mqtt/mqtt.pb.go:614-630 | The default case moves the cursor behind one record, or reports the skip's error, an unexpected end past the input, or an invalid length where the sum wraps around |
| Wire.TakeTag | mqtt/mqtt.pb.go:481-505 | The tag loop yields the int32 field number and the wire type of the varint at the cursor |
| Wire.TakeBytes | mqtt/mqtt.pb.go:582-613 | Exactly the announced bytes are taken; a length negative as an int64, a sum that wraps around, and an end past the input each give the error of the code |
| Wire.RunConcat | mqtt/mqtt.pb.go:477-637 | For every decoder made of steps that do not look ahead: decoding a + b is decoding b on top of the result of a |
| Wire.RunIgnores | mqtt/mqtt.pb.go:614-630 | A record that the step passes over can be inserted between decoded records without effect |
| MqttCodec.DecodeConcat | mqtt/mqtt.pb.go:638-757 | Decoding a + b merges: nested contexts are decoded on top of each other, the last scalar wins |
| MqttCodec.DecodeContextConcat | mqtt/mqtt.pb.go:477-637 | The same for contexts |
| MqttCodec.UnknownRecordIgnored | mqtt/mqtt.pb.go:734-750 | A well-formed record of an unknown field between decoded records, groups included, changes nothing |
| MqttCodec.UnknownContextRecordIgnored | mqtt/mqtt.pb.go:614-630 | The same for contexts |
| MqttCodec.ContextOverlay | mqtt/mqtt.pb.go:477-637 | Decoding an encoded context onto any context replaces the non-zero fields and keeps the others, as the target is not reset |
| MqttCodec.MessageOverlay | mqtt/mqtt.pb.go:638-757 | The same for messages, through the nested context |
| MqttCodec.MessageRoundTrip | mqtt/mqtt.pb.go:297-320 | Every message comes back whole when it is decoded into a fresh one |
| MqttGrammar.ContextDecodesIff | mqtt/mqtt.pb.go:477-637 | Bytes decode as a context, onto whichever, if and only if they are a sequence of well-formed records with positive field numbers, fields 1 to 4 varints, field 5 length-delimited |
| MqttGrammar.MessageDecodesIff | mqtt/mqtt.pb.go:638-757 | Bytes decode as a message if and only if they are such records, fields 1 and 2 length-delimited and every field 1 a context that decodes |
| MqttGrammar.DoneIffRecords | mqtt/mqtt.pb.go:477-637 | Any decoder whose steps take exactly the records wanted succeeds exactly on sequences of them |
| MqttGrammar.ContextRecordTaken | mqtt/mqtt.pb.go:507-613 | Each record overwrites its field, also with zero, with the low bits of a number too large; records of other fields do nothing |
| MqttGrammar.MessageRecordTaken | mqtt/mqtt.pb.go:668-733 | A context record is decoded onto the context there is, a content record replaces the content; others do nothing |
| MqttGrammar.ContextTagRefused | mqtt/mqtt.pb.go:498-510 | A tag with an end of group, a field number that is not positive or a wire type that does not fit gives its error and changes nothing |
| MqttGrammar.MessageTagRefused | mqtt/mqtt.pb.go:659-671 | The same for messages |
| MqttGrammar.CutFieldKeepsBits | mqtt/mqtt.pb.go:511-524 | A field whose varint is cut short is left with the bits read so far |
| MqttGrammar.FailedContextStays | mqtt/mqtt.pb.go:698-700 | A context that fails inside a message leaves what it had decoded, and its error |
| WireOrder.ContextInOrder | mqtt/mqtt.pb.go:247-280 | The encoding is a sequence of well-formed records with one-byte tags, in strictly ascending order of fields, one for each field that is not zero |
| WireOrder.MessageInOrder | mqtt/mqtt.pb.go:297-320 | The encoding is the context as field 1, always, and then the content as field 2, if there is any |
| MqttCodec.ContextSize | mqtt/mqtt.pb.go:431-454 | The sum that Size computes is the length of the encoding |
| MqttCodec.MessageSize | mqtt/mqtt.pb.go:456-469 | The same for messages, with the nested length prefix |
| MqttCodec.Context.Size | mqtt/mqtt.pb.go:431-454 | Returns the exact length of the encoding |
| MqttCodec.Context.MarshalToSizedBuffer | mqtt/mqtt.pb.go:247-280 | Fills the end of the buffer back to front with the encoding, leaves the rest alone, and the cursor never underflows |
| MqttCodec.Context.Marshal | mqtt/mqtt.pb.go:232-240 | The buffer that Size allocates is the encoding, filled to its first byte |
| MqttCodec.Context.Unmarshal | mqtt/mqtt.pb.go:477-637 | Ends on every input, in the state and with the error of the record-by-record decoder; success means the cursor stopped at the end |
| MqttCodec.Message.Size | mqtt/mqtt.pb.go:456-469 | Returns the exact length of the encoding |
| MqttCodec.Message.MarshalToSizedBuffer | mqtt/mqtt.pb.go:297-320 | Fills the end of the buffer back to front with the encoding, the nested context into what is left of it |
| MqttCodec.Message.Marshal | mqtt/mqtt.pb.go:282-290 | The buffer that Size allocates is the encoding, filled to its first byte |
| MqttCodec.Message.Unmarshal | mqtt/mqtt.pb.go:638-757 | Ends on every input, in the state and with the error of the record-by-record decoder, nested context included |
| FaasCodec.MessageRoundTrip | faas/function.pb.go:438-670 | Whatever order the map was walked in, decoding into a fresh message restores the id, the exact map and the payload |
| FaasCodec.MessageOverlay | faas/function.pb.go:438-670 | Decoding onto any message adds or replaces the entries; a zero id and an empty payload leave the old value |
| WireOrder.FaasInOrder | faas/function.pb.go:266-303 | The encoding is the id as field 1 unless it is zero, then for each key of the walk one field 2 with key before value, then the payload as field 3 unless it is empty |
| FaasGrammar.RecordTaken | faas/function.pb.go:468-646 | Any record with a fitting tag overwrites its field, also with zero or nothing; an entry sets its last key to its last value |
| FaasGrammar.EntryReads | faas/function.pb.go:518-612 | In a map entry of any records, in any order, the last key and the last value count |
| FaasGrammar.TagRefused | faas/function.pb.go:459-489 | A tag that does not fit gives its error and changes nothing |
| FaasGrammar.CutIdKeepsBits | faas/function.pb.go:472-486 | An id whose varint is cut short is left with the bits read so far |
| FaasCodec.DecodesEntries | faas/function.pb.go:488-633 | A sequence of encoded entries decodes to the map update it lists, for any order |
| FaasCodec.EncodedLengthIgnoresOrder | faas/function.pb.go:408-430 | All walks of the map give encodings of one length |
| FaasCodec.DecodeConcat | faas/function.pb.go:438-670 | Decoding a + b is decoding b on top of the result of a; later entries win |
| FaasCodec.DecodePanicsIff | faas/function.pb.go:590-607 | Decoding ends in an index panic if and only if it comes to a map entry and in it, at some c, to a field other than key and value of a size k below 2^63 with c + k at least 2^63 |
| FaasCodec.DecodePanics | faas/function.pb.go:590-607 | Twelve bytes on which it does, whatever message they are decoded onto |
| FaasCodec.UnknownRecordIgnored | faas/function.pb.go:649-663 | A well-formed record of an unknown field between decoded records changes nothing |
| FaasCodec.ComparesEqualIffEqual | faas/function.pb.go:103-137 | Messages that compare equal are equal exactly when no empty value stands at a key that the other lacks |
| FaasCodec.ComparesBackIff | faas/function.pb.go:125-132 | A comparison that holds also holds the other way round exactly when every key that the first message lacks has an empty value in the second |
| FaasCodec.ComparisonIsNotSymmetric | faas/function.pb.go:128-132 | Because a missing key reads as the empty string, a can compare equal to b while b does not to a |
| FaasCodec.Message.Equal | faas/function.pb.go:103-137 | The loop over the own keys decides that comparison |
| FaasCodec.Message.Size | faas/function.pb.go:408-430 | Returns the length of the encoding for every walk of the map |
| FaasCodec.Message.MarshalToSizedBuffer | faas/function.pb.go:266-303 | Fills the end of the buffer back to front with the encoding for the order in which the map was met |
| FaasCodec.Message.PutEntries | faas/function.pb.go:277-295 | The loop over the map writes each entry once, and the sized buffer has room for all of them |
| FaasCodec.Message.Marshal | faas/function.pb.go:251-259 | The buffer that Size allocates is the encoding for some walk, filled to its first byte |
| FaasCodec.Message.Unmarshal | faas/function.pb.go:438-670 | Ends on every input, in the state and with the error of the record-by-record decoder; an index panic behind an unknown record in a map entry is one of these errors |
| FaasCodec.Message.UnmarshalEntry | faas/function.pb.go:488-615 | The entry loop reads key and value in any order, the last of each wins, and the cursor ends where the entry's length says; of its cursor sums all but that behind an unknown record are checked for wrapping around |
| Shadow.PatchReachesDesire | spec/v1/node.go:191-224 | Patching the report with DiffWithNil gives exactly the desire if and only if every desired null is already reported as null |
| Shadow.SecondDeltaIsEmpty | spec/v1/node.go:191-224 | A second DiffWithNil against the patched report is empty under the same condition, and only then |
| Shadow.NullFreeIsReported | spec/v1/node.go:710-732 | A null-free desire meets that condition against every report |
| Shadow.DesiredNullIsLost | spec/v1/node.go:191-224 | The condition is needed: a null only in the desire never reaches the report |
| Shadow.DiffReachesMerge | spec/v1/node.go:174-224 | Patching the report with Diff gives exactly what Merge gives if and only if every desired null is already reported as null |
| Shadow.EmptyPatchIffEqual | spec/v1/node.go:710-732 | A generated patch is empty if and only if the documents are equal |
| ShadowPaths.PatchAtPath | spec/v1/node.go:206-224 | For every document, patch and path: the value the patch holds there if it is no object, nothing where it holds null, an object where it holds one, and where it holds nothing the value of the document, unless the patch put something else in the way |
| ShadowPaths.PatchTwice | spec/v1/node.go:206-224 | A patch that arrives a second time changes nothing |
| ShadowPaths.PatchIsMinimal | spec/v1/node.go:710-732 | A generated patch names exactly the keys at which the documents differ, with the new value, null, or the patch of two objects |
| ShadowPaths.MergeAtPath | spec/v1/node.go:693-708 | What a merge leaves at every path: as a patch, but nulls are kept |
| ShadowPaths.BothDeepIffPath | spec/v1/node.go:693-708 | The depth limit of n is met exactly when both sides hold maps along a path of n keys |
| ShadowPaths.CleanAtPath | spec/v1/node.go:734-748 | Cleaning leaves nothing at a null, a map at a map, and every other value, at every path |
| ShadowPaths.SameAtAllPaths | spec/v1/node.go:206-224 | Documents with the same at all paths are equal, so these laws determine the results |
| Shadow.MergeTwice | spec/v1/node.go:693-708 | Merging the same document again changes nothing |
| Shadow.RepeatedMergeDepth | spec/v1/node.go:693-708 | Repeating a merge meets the depth limit exactly when the document alone is that deep |
| Shadow.ConvergedDiffIsSkeleton | spec/v1/node.go:734-748 | After a merge, Diff carries no values: nested empty objects at most |
| Shadow.MergeIsDesire | spec/v1/node.go:693-708 | A merge leaves exactly the desire if and only if the desire names every key of the report, recursively where both hold maps |
| Shadow.ConvergedDiffIsEmptyIff | spec/v1/node.go:710-748 | After a merge Diff is empty if and only if, under every key where both hold maps, the desire covers the report |
| Shadow.ConvergedDiffNeedNotBeEmpty | spec/v1/node.go:734-748 | Any key of the report that a nested map of the desire leaves out makes it non-empty, though patching with it changes nothing |
| Shadow.CleanIffNullFree | spec/v1/node.go:734-748 | clean changes nothing exactly in null-free documents |
| Shadow.CleanIsNullFree | spec/v1/node.go:734-748 | What clean leaves holds no null in a map, at any depth |
| ShadowHeap.CleanMap | spec/v1/node.go:734-748 | In place, for any key order: the tree becomes its cleaned form and stays a tree of the same map objects |
| ShadowHeap.MergeMaps | spec/v1/node.go:693-708 | On disjoint trees, for any key order: fails exactly when both hold maps too deep on one path; otherwise left is the deep merge; right is unchanged; on failure left is partly merged key by key |
| ShadowHeap.Merge | spec/v1/node.go:174-181 | The limit is a path of four keys; the result equals patching with Diff if and only if every null of the right document is already in the left; map by map, it is the merged tree |
| ShadowHeap.SharedIffAdopted | spec/v1/node.go:700 | After a merge the two documents share exactly the maps of the right that met no map in the left, and all below them |
| ShadowHeap.SecondMergeChangesFirst | spec/v1/node.go:693-708 | So merging a second document into the left can change the first one: an empty map merged first gains the value |
| MqttClient.StepKeeps | mqtt/client.go:99-147 | Every step of the callers, the connecting loop and every receiver keeps the invariant |
| MqttClient.NothingLostOrReordered | mqtt/client.go:68-147 | In every run the packets accepted are, in order, those handed to connections without error, the one held over, and the queue; at most one more than the queue holds is outstanding |
| MqttClient.HistoryGrows | mqtt/stream.go:103-127 | What was handed over stays so: only a successful hand-over extends it, by the packet at hand |
| MqttClient.StreamsBehave | mqtt/stream.go:129-184 | In every run, for every stream: no callback, acknowledgement or queued packet before an accepted CONNACK, no queued packet before the SUBACK if there are subscriptions, acknowledged ids are in order those of the handled QoS 1 publishes, one connack and one death at most |
| MqttClient.ReceiveKeeps | mqtt/stream.go:129-184 | One turn of the receive loop keeps all stream laws, whatever arrives and however handlers end |
| MqttClient.DrainDelivers | mqtt/stream.go:103-127 | The sending loop can hand over everything outstanding, in order |
| MqttClient.RecoveryDelivers | mqtt/client.go:99-147 | From every state not stopped, wherever the loop is and whatever has died, some continuation without new sends delivers everything accepted |
| MqttLoops.ReceiveAllKeeps | mqtt/stream.go:129-184 | The stream laws hold when the receive loop ends or waits |
| MqttReceiving.WhatIsReceived | mqtt/stream.go:129-184 | For a fresh stream and any arrivals: the gate opens exactly for an accepting CONNACK as the first; the callbacks and the acknowledgements are, in order, those that the packets behind it call for, up to the first that ends the loop, which is listed by packet; the subscription completes exactly with an accepting SUBACK; an ended stream has died with an error |
| MqttLoops.Connection.Receiving | mqtt/stream.go:129-184 | The receive loop over any arrivals computes the steps of the relation and ends at the first failure |
| MqttLoops.Connection.ReceiveOne | mqtt/stream.go:133-182 | One packet: gate, callbacks, acknowledgement, suback and death as one step of the relation |
| MqttLoops.Connection.DieOnce | mqtt/stream.go:219-232 | Only the first death cancels futures and is reported |
| MqttLoops.NothingLost | mqtt/client.go:99-147 | Whatever script of attempts, failures and callers is played, accepted = handed over + held over + cache |
| MqttDelivery.SendingDelivers | mqtt/stream.go:103-127 | On a stream, n good turns hand over the packet held over and then the first min(n, length) of the cache, in order, and leave the rest |
| MqttDelivery.FailedSendHoldsOver | mqtt/stream.go:115-121 | A failed send from the cache holds over exactly its head, whatever turns were to follow |
| MqttDelivery.HeldOverAgain | mqtt/stream.go:107-113 | A failed send of the packet held over keeps it held over, takes nothing else, and kills the stream |
| MqttDelivery.DyingEndsSending | mqtt/stream.go:122-126 | The dying of client or stream ends the loop exactly when it is so, and sends nothing |
| MqttDelivery.GoodAttemptDelivers | mqtt/client.go:120-146 | Whatever happened before, one attempt that goes well and is long enough ends with everything accepted handed over, in order |
| MqttDelivery.ScriptDelivers | mqtt/client.go:120-146 | So does a whole script of attempts of any kind that ends with such a one |
| MqttDelivery.NoAnswerGivesUp | mqtt/stream.go:61-65 | Without a CONNACK the stream dialled is given up and dead, and all packets are kept |
| MqttDelivery.NoSubackGivesUp | mqtt/stream.go:66-81 | Without a SUBACK likewise; when SUBSCRIBE cannot be sent the stream is left without having died |
| MqttDelivery.FailedDialHears | mqtt/client.go:130-141 | Before an attempt that cannot dial, what callers and old streams do counts, and nothing else happens |
| MqttDelivery.DyingStops | mqtt/client.go:130-134 | A dying client stops, with everything kept |
| MqttDelivery.CallersAreHeard | mqtt/client.go:68-97 | A caller's packet goes to the end of the cache while there is room, and a caller's close makes the client die |
| MqttDelivery.StreamsAreHeard | mqtt/stream.go:129-217 | A failing ping kills its stream and an arrival is taken by its receiver, also on streams given up |
| MqttLoops.Client.Connecting | mqtt/client.go:99-147 | The loop plays exactly its script, every action a step of the relation, receivers of streams given up included: the real queue, the packet carried and the last stream are those of the state so reached, and accepted = handed over + held over + cache |
| MqttLoops.Client.Connect | mqtt/stream.go:28-83 | A stream comes of an attempt exactly when its CONNACK and, with subscriptions, its SUBACK are completed in time; the packet at hand survives every failure |
| MqttLoops.Client.Sending | mqtt/stream.go:103-127 | The held-over packet goes first, then the turns are played one by one until one ends the loop; a failed send returns its packet as the one to hold over |
| MqttLoops.Client.CloseStreamWhile | mqtt/stream.go:234-237 | close returns only when the receiver has ended |
| Solver.SimpleKeepsMeaning | dmcontext/expression.go:171-218 | The expression evaluates to slope * x + offset for every x, and has no value where these are not finite |
| Solver.CombineKeepsMeaning | dmcontext/expression.go:190-218 | Each operator on slopes and offsets is the operator on values |
| Solver.SolveFindsTheRoot | dmcontext/expression.go:144-168 | The solution is the one and only x at which the expression has the value asked for |
| Solver.SolvedIff | dmcontext/expression.go:144-168 | An expression is solved if and only if it has one variable, no fault and more than one value; otherwise the reason that comes first is the error |
| Solver.ZeroSlopeIsConstant | dmcontext/expression.go:163-166 | An expression refused for its zero slope has the same value everywhere |
| Solver.SlopeShows | dmcontext/expression.go:171-218 | The slope found is zero exactly for expressions that have one and the same value everywhere |
| Solver.RefusedIffFaulty | dmcontext/expression.go:171-218 | Rewriting fails exactly when some part is at fault, and with the fault that is met first: a bad literal or node, a product of two parts neither of which is constant, a divisor that is not constant, another operator |
| Solver.NoValueIsNotFinite | dmcontext/expression.go:210-214 | Dividing by zero is no error: an infinity or NaN is returned exactly for expressions that have no value anywhere |
| Solver.OnlyLinearIsRight | dmcontext/expression.go:205-208 | An expression refused as not linear has one part, a product, that agrees with no a*x+b at all |
| Solver.RefusedThoughLinear | dmcontext/expression.go:205-208 | The whole can be linear nevertheless: x*x - x*x + x is refused |
| Solver.DenominatorVanishes | dmcontext/expression.go:210-213 | An expression refused for its denominator has a part without a value at some x |
| Solver.SolveExpression | dmcontext/expression.go:144-168 | The set collected in the loop has one element exactly when all identifiers agree; the result is the specified one, refusals included |
| PortAllocation.FullScan | native/port.go:24-38 | From every offset, a scan of the range meets every free port exactly once |
| PortAllocation.AllocationFailsIffNoneFree | native/port.go:24-38 | An allocation fails exactly when no port in range is free; what it returns is in range and free |
| PortAllocation.OffsetLeft | native/port.go:30-32 | The offset left is behind the port found, or where it was when the whole range was probed in vain |
| PortAllocation.AllocationsFollowScan | native/port.go:24-38 | Allocations in a row return the free ports in the order of the scan |
| PortAllocation.EveryFreePortOnce | native/port.go:24-38 | With m free ports, any m allocations in a row return each exactly once |
| PortAllocation.PortAllocator.Allocate | native/port.go:24-38 | The loop returns the first free port from the offset and leaves the offset behind it, wrapping around |
| PortAllocation.NewPortAllocator | native/port.go:14-22 | Refuses ranges outside 1024 to 65535 and ranges with no two ports |
| ReportFilter.RecordIsLastPassed | dmcontext/context.go:389-414 | Over every run the stored record is the value passed on last |
| ReportFilter.NextInRun | dmcontext/context.go:395-413 | Each offer is held against the last value passed on, and what is passed on is recorded with the reading of the clock at the place that records it |
| ReportFilter.MappingIsLast | dmcontext/context.go:384-387 | The mapping that counts is the last with the name, and there is none exactly when no mapping has it |
| ReportFilter.SuppressedIsSmall | dmcontext/context.go:395-413 | Over every run: a value not passed on came within the window of the last one passed on, and a number lies below that one plus the deviation |
| ReportFilter.CallsAreRuns | dmcontext/context.go:374-416 | A sequence of calls is, for each property by itself, such a run: the record left and the values passed on are those of the run |
| ReportFilter.PassedAreSpaced | dmcontext/context.go:395-399 | With a monotone clock, values passed on in a row that are not both numbers are more than the window apart |
| ReportFilter.TwoSidedIff | dmcontext/context.go:409 | Inside the window the test agrees with one on the size of the change in exactly these cases, for records and deviations of any sign |
| ReportFilter.FallsAreSuppressed | dmcontext/context.go:409 | Inside the window every fall, however far, is suppressed if and only if record and deviation do not differ in sign |
| ReportFilter.UnchangedIsRepeated | dmcontext/context.go:409 | Inside the window an unchanged number is passed on again if and only if record times deviation is not positive |
| ReportFilter.DmCtx.ReportDevicePropertiesWithFilter | dmcontext/context.go:374-416 | For any order of the report, each mapped property is filtered against its own record alone: passed on or not, with its new record; unmapped properties and all other records stay untouched |
| ReportFilter.DmCtx.FilterProperty | dmcontext/context.go:394-414 | Window first, then deviation against the record as it then stands |
| FlowTest.ConsumeIffPermutation | mock/msg_flow.go:189-212 | Greedy matching succeeds exactly when the next n renderings are a permutation of the n expected ones, and takes exactly n |
| FlowTest.Strike | mock/msg_flow.go:203-209 | Whichever matching entry the map yields first, one entry of that text is deleted, and only if there is one |
| FlowTest.Match | mock/msg_flow.go:182-249 | Receive and Skip succeed iff the next packets are a permutation of those expected, and then have consumed exactly these |
| FlowTest.Test | mock/msg_flow.go:155-246 | A whole flow succeeds iff each action in turn finds what it demands, an open connection to send on or close included; everything it had to send was sent in order |
| FlowTest.TestAction | mock/msg_flow.go:167-283 | When each kind of action succeeds, what it takes off the inbox, and that only a close closes |
| FlowTest.SendAll | mock/msg_flow.go:169-181 | All packets are sent, in order, or none on a closed connection |
| Separated.SplitJoins | mqtt/topic.go:47 | Splitting is undone by joining and leaves no separator in a segment |
| Separated.JoinedSplits | mqtt/topic.go:47 | Segments without separators come back from their joined text |
| Topic.LevelsAreSlashes | mqtt/topic.go:63-66 | There is one level more than there are slashes |
| Topic.SegmentsAreCharacters | mqtt/topic.go:67-82 | The tests on the segments hold exactly when every wildcard character stands alone between slashes, '#' last, and wildcards are allowed |
| Topic.PlainTopics | mqtt/topic.go:41-66 | Without $ in front and without wildcards a topic is valid exactly with 1 to 255 bytes, no NUL and at most nine levels |
| Topic.SystemTopics | mqtt/topic.go:48-66 | Behind a first level with $ one to nine levels follow; that level holds no wildcard, or is one of the system topics if there are any |
| Topic.WildcardsOff | mqtt/topic.go:73-76 | Turning wildcards off rejects exactly the topics with a wildcard behind the system level |
| Topic.WildcardsOffAnywhere | mqtt/topic.go:36-83 | Without system topics, or when none holds a wildcard: accepted with wildcards off iff accepted with wildcards on and no wildcard character anywhere |
| Topic.WildcardsSwitchIff | mqtt/topic.go:48-76 | That law holds for all topics if and only if no system topic holds a wildcard, starts with $, is shorter than 255 bytes and holds neither slash nor NUL |
| Topic.SystemTopicWithWildcard | mqtt/topic.go:56-60 | Such a system topic, with a slash behind it, is accepted with wildcards off |
| Topic.CheckTopicWith | mqtt/topic.go:36-83 | The check accepts exactly the valid topics of the character-level specification: length, NUL, system level, nine levels, wildcards |
| Topic.TopicChecker.constructor | mqtt/topic.go:91-99 | The set holds exactly the topics given |
| Topic.TopicChecker.CheckTopic | mqtt/topic.go:102-104 | The same check with the checker's own system topics |
| CacheKey.SamePairsSameKey | cache/config.go:78-105 | The key depends only on the path and the multiset of decoded pairs |
| CacheKey.ReorderedQuerySameKey | cache/config.go:78-105 | Reordering the pieces of the query does not change the key |
| CacheKey.OrderedUnique | cache/config.go:94-102 | Pairs sorted by key, then value, have only one arrangement |
| CacheKey.ArrangedAscends | cache/config.go:94-102 | The pairs of a key ascend by key, and those of one key by value |
| CacheKey.LeAtFirstDifference | cache/config.go:94-98 | The order is byte by byte: the first difference decides, and a prefix comes first |
| CacheKey.GroupsHoldThePairs | cache/config.go:84 | Grouping by key keeps every pair as often as it occurs |
| CacheKey.QueryVals | cache/config.go:90-102 | The loops render every pair once, by key, then by value, whichever order the map yields its keys in |
| CacheKey.RequestUriIgnoreQueryOrder | cache/config.go:78-105 | Error iff the URI does not parse; the URI itself when no parameter decodes; otherwise the key of its path and pairs |
| CacheIdentity.KeyIdentifiesIff | cache/config.go:78-105 | Among all request URIs, a key belongs to one request alone if and only if: with parameters, there is a single pair, no ? in path or name, no = in name or value, and the key sent as a URI is not a request without decodable parameters; without parameters, no = follows the first ? of the URI |
| CacheIdentity.Collides | cache/config.go:78-105 | Whenever that fails, a URI of another path or of other parameters has the same key |
| CacheIdentity.UndecodedCollides | cache/config.go:86-88 | path?name=%25 has one pair and shares its key with path?name=%, whose only piece does not decode |
| CacheIdentity.SeparatorsCollide | cache/config.go:97-104 | The text of a key with several pairs, or with a ? or = in the places named, is also the text of another path or of one pair split elsewhere |
| CacheIdentity.PlainKeysIdentify | cache/config.go:97-104 | Among requests with decoded parameters whose paths hold no ?, names no = or &, and values no &, keys are equal exactly when path and multiset of pairs are |
| Uri.EscapeUndone | cache/config.go:79-84 | Percent-encoding writes any text without separators, and decoding gives it back |
| Uri.PlusRead | cache/config.go:79-84 | In queries a plus is a space, in paths itself |
| Uri.MalformedRead | cache/config.go:79-84 | A percent sign without two hexadecimal digits behind it makes the text malformed, wherever it stands |
| Uri.PiecesRead | cache/config.go:79-84 | A piece without = is a name with no value, an empty one and one with a semicolon are left out |
| Uri.OnePairRequest | cache/config.go:79-84 | Every path from the root with any pair of name and value can be requested |

## Left out

Codecs:
- Nil receivers and nil byte slices: an empty and a nil slice are one value.
- Machine words are natural numbers with their truncations and wrap-arounds written out; that Go's integers behave so is taken as given. The cursor of the model does not become negative: where it would, the model returns the error that the code then reports, or the index panic.
- MqttCodec.MessageRoundTrip: is stated for encodings shorter than 2^63 bytes, more than a Go slice can hold.
- The random populators, GoString, descriptors, XXX methods and the gRPC stubs. `mqtt` Equal compares field by field and is not modelled.

Shadow documents:
- The JSON library's treatment of nulls inside arrays and its conversion of numbers: leaves are abstract values, arrays are leaves. Marshalling errors and nil documents are not modelled.
- ShadowHeap.SecondMergeChangesFirst: is an example; what a later merge does to shared maps in general is not stated, beyond which maps are shared.
- Maps of other Go types than map[string]interface{}, on which merge panics.

MQTT client:
- Timers, back-off, TLS, dialling and the keep-alive tracker: time-outs and failures are steps that may happen at any moment.
- The DISCONNECT that die sends, and the case where that send fails and re-enters the same once; so nothing is claimed about close ending then.
- A turn of the receive loop is one step: what other goroutines do between a callback and its acknowledgement is not interleaved with it.
- What the network does after an asynchronous send returned without error; handed over means that.
- MqttLoops.Client.Connecting: other goroutines act where the loop waits; the step relation interleaves everywhere, and also has the unbuffered queue.
- The packet id counter of Publish, ResetClient and the reconnect callback.

Solver and filter:
- Floating point: numbers are exact reals. Infinities and NaN are one value, which suffices because slope and offset become non-finite together. Parsing of expressions and literals, and formatting with a precision, are not modelled.
- The overflow of very long silent windows as a duration, and errors of publishing.

The others:
- PortAllocation.PortAllocator.Allocate: availability is a function of the port during one call. Checking a port by opening a listener is not modelled.
- FlowTest.Test: sending, and closing again, fail on a closed connection and only there (closing the pipe again panics); other errors, time-outs and TestAsync are not modelled. Receive ends with EOF when nothing is left or the connection is closed. The supplied function of Run does nothing to the connection.
- CacheIdentity.KeyIdentifiesIff: is stated for request URIs that start with a slash, which are parsed as net/url does since Go 1.17; what other forms mean is a parameter. The raw URI used as key where parsing fails is not considered.
- Templates of topics, cached replies, Redis, HTTP, PKI, plugins, triggers, counters, port mappings, pubsub and the node view: wrappers over libraries or easy members.
