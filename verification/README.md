# Verified model of the client's erasure codec, receive window and acknowledgements

A base station sends batches of k packets as n coded packets over a lossy link; the client recovers the batch from any
k of them, puts the packets in order, and reports what is missing. This project states in Dafny what that code does and
proves that it does what it is for. `dafny verify dfyconfig.toml` checks all of it.

- **The codec** (`src/fec.cc`). `Gf`, `GfPowers`, `GfTables`: the tables are the field GF(2^8). `LinAlg`, `FlatMatrix`,
  `MatrixOps`: matrices in flat buffers. `Exchange`, `GaussJordan`: inversion in place, correct and complete. `Poly`,
  `Vandermonde`, `VdmInversion`: inversion in closed form, and exactly when the source's version of it is right.
  `Generator`, `FecCode`: the systematic generator, any k rows of which are invertible. `Shuffle`, `FecCodec`,
  `RoundTrip`: encoding and decoding, and exactly when decoding succeeds. `Sequences` holds what is true of any sequence.
- **Batches** (`src/fec.cc`, `src/wspace_client_scout.cc`). `Batches`: the object around the codec. `Reassembly`: which
  packets a stream hands on, as a function of the stream, and that it is each packet exactly once. `Receiver`: the loop.
- **The receive window** (`src/wspace_asym_util.cc`, `src/wspace_asym_util.h`). `Window`: a transition system whose
  steps are the critical sections of the producers, the consumer and the acknowledging thread, with any ring size and
  any interleaving. `DataBuf`: the object itself, its methods proved to take those steps. `LockOrder`: the locks.
- **Acknowledgements.** `Nacks`: which numbers are reported missing. `AckRuns`: the acknowledging thread among the others,
  with its stale snapshot, in every interleaving; `AckCases`: runs in which it destroys a packet. `AckPacket`: 16-bit
  compression. `RawBuf`: losses on the raw link. `AckThreads`: one round of each acknowledging thread.
- **All together.** `EndToEnd`: what the consumer takes is what the sender meant by that number.

## Where the code and its description differ

- The comment on `invert_vdm` (`src/fec.cc:517-528`) asks for a non-singular Vandermonde matrix. That is not enough: the
  loop at `src/fec.cc:560` never stores the constant term while it multiplies. `Vandermonde.DroppedExact` gives the exact
  condition and `Vandermonde.DroppedFails` three points that fail it; the matrix that `fec_new` builds meets it because
  its first point is 0 (`Generator.TopInverseInverts`).
- A jump of the window onto a slot that holds an unread packet moves the head without storing the new packet
  (`src/wspace_asym_util.cc:153-171`). `DataBuf.JumpDelivers` proves that a
  consumer that takes next is then always given the old packet under the new number, and after any other jump the new
  packet; `Window.JumpExact` says that this is the only way in which a jump breaks the window, and
  `DataBuf.JumpOntoPacketFails` is a run for every ring of two slots or more. The theorems on delivery are about runs
  without such a step.
- Giving up a list that is too long can destroy packets that have come and not been read
  (`src/wspace_asym_util.cc:347-357`), because the queue is not locked and no slot stays locked between the snapshot and
  the marks. `AckRuns.AckLosesExact` says for each mark in every interleaving when it does: it gives up the packet's very
  number, or one at least a window away. `AckRuns.OwnNumberCameLate` says when a packet came that is lost under its own
  number: it was stored in that round, after the snapshot if its number lay past the tail then, and otherwise after the
  move that scanned its slot as a hole. `AckCases` has a run for each case. Without interruption only numbers beyond the
  window do it (`Nacks.UnreadSurvivesAtOnce`).
- The assertion at `src/wspace_asym_util.cc:321` fails when nothing has ever been enqueued but there is a batch to
  report; `DataBuf.RxDataBuf.FindNackSeqNum` says exactly when.
- The return at `src/wspace_asym_util.cc:151` would keep the queue locked; it is never taken, since the head is compared
  with the same local copy just before.
- The comment on `fec_encode` speaks of n data packets; the code reads k.

## Assumptions

Packets of one batch come from one sender: they agree on k, n, first number, lengths and coded size, and their payload is
the coded packet of their index; headers satisfy the assertions of `src/wspace_asym_util.cc:497-498`. The calling code
hands the decoder k different buffers. Sequence numbers and counters are unbounded naturals.

## Model

| member | source | states |
|---|---|---|
| `Gf.AddLaws` | src/fec.cc:166 | xor is the addition of the field: commutative, associative, every element its own inverse, 0 neutral |
| `Gf.XTimeAdd` | src/fec.cc:262-267 | shifting out the top bit and folding the polynomial back in is linear over xor |
| `Gf.MulAddRight` | src/fec.cc:168-178 | the product distributes over xor in its second argument |
| `Gf.MulAddLeft` | src/fec.cc:168-178 | the product distributes over xor in its first argument |
| `Gf.MulXTimeLeft` | src/fec.cc:256-268 | multiplying by the generator commutes with multiplying by anything else |
| `Gf.MulOneLeft` | src/fec.cc:168-178 | 1 is neutral |
| `Gf.MulComm` | src/fec.cc:168-178 | the product is commutative |
| `Gf.MulAssoc` | src/fec.cc:168-178 | the product is associative |
| `GfPowers.ExpAdd` | src/fec.cc:194-203 | adding exponents multiplies powers of the generator |
| `GfPowers.ExpOrder` | src/fec.cc:109 | the polynomial is primitive: no power of the generator below the 255th is 1 |
| `GfPowers.ExpMod` | src/fec.cc:202-203 | exponents count modulo 255 |
| `GfPowers.ExpInjective` | src/fec.cc:130-131 | the 255 powers are pairwise different |
| `GfPowers.LogExists` | src/fec.cc:131 | every non-zero element is a power of the generator, so the logarithm is total |
| `GfPowers.LogUnique` | src/fec.cc:130-131 | the logarithm undoes the power: exponent and logarithm are inverse bijections |
| `GfPowers.InvLaw` | src/fec.cc:132-133 | a non-zero element times its inverse is 1, on both sides |
| `GfPowers.MulNonzero` | src/fec.cc:168-178 | there are no zero divisors |
| `GfTables.Modnn` | src/fec.cc:139-147 | the loop of shifts and masks ends and computes the remainder modulo 255 |
| `GfTables.ExpReduction` | src/fec.cc:241-250 | the bits of the polynomial string add up to the eighth power of the generator |
| `GfTables.GenerateLow` | src/fec.cc:233-255 | the first eight entries, and the eighth power, are the powers of the generator and their logarithms |
| `GfTables.GenerateHigh` | src/fec.cc:262-269 | the remaining entries, each from the one before, are the powers and their logarithms |
| `GfTables.GenerateGf` | src/fec.cc:226-287 | the three tables hold the powers (twice over), the logarithms and the inverses of the whole field |
| `GfTables.MulByLog` | src/fec.cc:174 | a product of non-zero elements is the power at the sum of the logarithms |
| `GfTables.InitMulTable` | src/fec.cc:168-178 | the table filled from logarithms, with its zero row and column, is the product of polynomials modulo the primitive one |
| `GfTables.InitFec` | src/fec.cc:586-598 | after initialisation every table is the field operation it stands for |
| `LinAlg.InverseNotSingular` | src/fec.cc:384-389 | a matrix cannot have an inverse and be singular, so the two results of the inversion exclude each other |
| `LinAlg.InverseEntries` | src/fec.cc:384-389 | what is called inverse is the two-sided inverse: both products are the identity, entry by entry |
| `MatrixOps.AddMulCells` | src/fec.cc:316-341 | the statements of one turn, and the final components, add c times the source to so many cells and touch no other |
| `MatrixOps.AddMul1` | src/fec.cc:306-342 | the kernel in chunks of sixteen with a remainder adds c times the source to the destination for every length, and touches nothing else |
| `MatrixOps.AddMul` | src/fec.cc:302-303 | skipping c = 0 changes nothing |
| `MatrixOps.ProductCell` | src/fec.cc:354-358 | one entry of a product |
| `MatrixOps.MatMul` | src/fec.cc:347-362 | the product of an n by k and a k by m matrix, row by row, in flat buffers; what lies before the result is kept |
| `Exchange.SwapRowsRepresents` | src/fec.cc:452-456 | a row swap permutes right-hand sides that are not used up: the matrix goes on representing the original system |
| `Exchange.PivotExchange` | src/fec.cc:459-492 | one pivot step exchanges an unknown with a right-hand side, and loses no solution |
| `Exchange.PivotRepresents` | src/fec.cc:459-492 | a pivot step keeps the invariant of the elimination |
| `Exchange.StuckIsSingular` | src/fec.cc:424-444 | when no pivot is left before the end, some non-zero vector is mapped to zero |
| `Exchange.AllDoneScrambled` | src/fec.cc:412-494 | after all columns the matrix is the inverse up to a permutation of its columns |
| `Exchange.SwapColumnsScrambled` | src/fec.cc:501-505 | a column swap undoes one recorded row swap |
| `Exchange.UnscrambledInverse` | src/fec.cc:495-507 | with the identity permutation the matrix is the inverse |
| `GaussJordan.FindPivot` | src/fec.cc:418-444 | finds a non-zero entry in a row and a column not used yet, or there is none |
| `GaussJordan.SwapRows` | src/fec.cc:452-456 | exactly the two rows change places |
| `GaussJordan.Normalize` | src/fec.cc:460-475 | the pivot row becomes its multiple by the inverse of the pivot, with the inverse itself at the pivot |
| `GaussJordan.EqualBytes` | src/fec.cc:484 | the comparison with the identity row is exact |
| `GaussJordan.Eliminate` | src/fec.cc:485-491 | every other row loses its multiple of the pivot row; the pivot row stays |
| `GaussJordan.PivotStep` | src/fec.cc:459-493 | the step as a whole is a pivot exchange, also when the shortcut for an identity row skips the elimination |
| `GaussJordan.ProgressStep` | src/fec.cc:445-494 | one column of the main loop keeps the invariant, with one more pivot marked and the swap recorded |
| `GaussJordan.Pass` | src/fec.cc:412-494 | one turn of the main loop: singular, or one more column done; no pivot mark exceeds 1 |
| `GaussJordan.EliminateAll` | src/fec.cc:404-494 | the main loop: the inverse up to the recorded swaps, or the matrix is singular |
| `GaussJordan.Unscramble` | src/fec.cc:495-506 | undoing the recorded swaps in reverse order leaves the inverse |
| `GaussJordan.InvertMat` | src/fec.cc:391-515 | returns 0 with the two-sided inverse of the input in place, or 1 and the input is singular |
| `Poly.Division` | src/fec.cc:566-575 | synthetic division: a polynomial is its value at p plus (x - p) times the quotient |
| `Poly.RootBound` | src/fec.cc:517-528 | a polynomial of degree below k with k different roots is zero |
| `Poly.PowerRowDot` | src/fec.cc:656-662 | a row of powers times coefficients is the value of the polynomial |
| `Vandermonde.VdmInjective` | src/fec.cc:664-670 | the Vandermonde matrix of different points maps no two vectors to one |
| `Vandermonde.ProductVanishes` | src/fec.cc:539-556 | the product of the factors x - p_i vanishes at every p_i and is monic |
| `Vandermonde.LagrangeInverse` | src/fec.cc:565-578 | from the true product of the factors the closed form is the two-sided inverse |
| `Vandermonde.DroppedIsProduct` | src/fec.cc:557-563 | the source's loop gives the true coefficients, apart from the constant term it never stores |
| `Vandermonde.DroppedDiffers` | src/fec.cc:557-563 | with more than two points, the first two of them not zero, a coefficient other than the constant one is wrong |
| `Vandermonde.DroppedClosed` | src/fec.cc:557-563 | what the loop computes, in closed form: z (z + p0 + p1) times every other factor |
| `Vandermonde.DroppedExact` | src/fec.cc:529-583 | for at least two different points the source's closed form is the inverse if and only if there are two points or one of the first two is 0 |
| `Vandermonde.DroppedFails` | src/fec.cc:557-578 | for the points 1, 2, 3 the closed form of the source is not the inverse |
| `VdmInversion.NextFactor` | src/fec.cc:558-562 | one turn of the in-place loop multiplies by one more factor, right-aligned |
| `VdmInversion.Coefficients` | src/fec.cc:542-563 | the loop leaves the coefficients that the exact condition speaks about |
| `VdmInversion.Divide` | src/fec.cc:569-575 | b is the quotient by x - xx, and t its value at xx |
| `VdmInversion.StoreColumn` | src/fec.cc:576-577 | one column of the result, scaled by the inverse of t |
| `VdmInversion.InvertVdm` | src/fec.cc:529-583 | the matrix in place becomes the closed form of its points; for k = 1 it is left alone |
| `Generator.PointsAreSuccessive` | src/fec.cc:653-662 | the points are 0, 1, 2 and so on, each from the second on twice the one before it in the field |
| `Generator.PointsDiffer` | src/fec.cc:653-662 | the 256 points, 0 first and then the powers of the generator, are different |
| `Generator.TopInverseInverts` | src/fec.cc:664-670 | because the first point is 0, the closed form does invert the top of the matrix built here |
| `Generator.GeneratorIsVandermonde` | src/fec.cc:665-677 | every row of the generator times the top gives back its Vandermonde row |
| `Generator.MaximumDistance` | src/fec.cc:664-677 | any k different rows of the generator form an invertible matrix |
| `Generator.InvertibleRowsDiffer` | src/fec.cc:756-786 | and only different rows do |
| `Generator.Interpolant` | src/fec.cc:664-677 | through any k values at the first k points goes one polynomial of degree below k and no other |
| `Generator.GeneratorEvaluates` | src/fec.cc:664-677 | row r of the generator takes the values at the first k points to the value at point r |
| `FecCode.FillVandermonde` | src/fec.cc:656-662 | row r holds the powers of point r, the special first row included |
| `FecCode.VandermondeWithTopInverted` | src/fec.cc:656-670 | the top k rows become the inverse of the Vandermonde top, the others stay |
| `FecCode.FillIdentity` | src/fec.cc:675-677 | the identity on top, the rest kept |
| `FecCode.FecNew` | src/fec.cc:631-685 | refuses exactly when k or n exceeds 256 or k exceeds n; otherwise the matrix is the systematic generator |
| `Sequences.RepeatsIsCount` | src/fec.cc:716-749 | an index occurs at two places exactly when its multiplicity is at least two |
| `Shuffle.SwapStep` | src/fec.cc:734-735 | a swap moves one more index to its place, and keeps the pairs of index and packet |
| `Shuffle.PlacedNoClash` | src/fec.cc:721-749 | when every native index is at its own place, none occurs twice |
| `Shuffle.ShufflePackets` | src/fec.cc:716-749 | ends; returns 1 if and only if an index below k occurs twice; otherwise every native index is in its place; the pairs are only rearranged |
| `FecCodec.CodedNative` | src/fec.cc:701-702 | the coded packet with a native index is the native packet |
| `FecCodec.CodedIsValue` | src/fec.cc:692-711 | each byte of the coded packet r is the value at point r of the polynomial of degree below k that takes the bytes of the native packets at the first k points |
| `FecCodec.CodedHasPolynomial` | src/fec.cc:692-711 | that polynomial exists for every place in the packets, and is the only one |
| `FecCodec.CodedSample` | src/fec.cc:656-707 | the native packets 1 and 0 give 3 as the first repair packet |
| `FecCodec.Combine` | src/fec.cc:704-707 | the linear combination of k packets, for every packet size |
| `FecCodec.FecEncode` | src/fec.cc:692-711 | writes the coded packet of the index; leaves the buffer alone for an index outside the code |
| `FecCodec.BuildDecodeMatrix` | src/fec.cc:756-786 | the inverse of the rows selected by the indices, or the rows are singular or an index is outside the code |
| `FecCodec.RecoveredRow` | src/fec.cc:819-826 | a row of the inverse times the received packets is the native packet of that row |
| `FecCodec.MatrixFailure` | src/fec.cc:770-783 | a failure of the matrix means a repeated index or one outside the code |
| `FecCodec.MatrixSuccess` | src/fec.cc:756-786 | a matrix means that the indices are different and inside the code |
| `FecCodec.DecodedData` | src/fec.cc:815-835 | packets kept and packets computed together are the native packets |
| `FecCodec.DecodeArranged` | src/fec.cc:811-838 | decoding after the shuffle: 0 exactly for different indices inside the code, and then the data; on failure no packet changes |
| `FecCodec.FecDecode` | src/fec.cc:799-839 | returns 0 if and only if the first k indices are different and below n; on coded packets the k buffers then hold the native ones, in order; the buffers are only rearranged; on failure no byte changes |
| `RoundTrip.EncodeThenDecode` | src/fec.cc:692-839 | for any k, n, packet size and requested indices, encoding and then decoding succeeds exactly when the indices are different, and gives back every native packet |
| `Batches.CodeInfo.constructor` | src/fec.cc:842-851 | an empty batch with its buffers, all of them different |
| `Batches.CodeInfo.ClearInfo` | src/fec.cc:865-872 | every counter, index, length and byte of the buffers is zero, so shorter packets are padded with zeros |
| `Batches.CodeInfo.SetCodeInfo` | src/fec.cc:874-878 | sets k, n and the first sequence number alone |
| `Batches.CodeInfo.CopyLens` | src/fec.h:109-112 | the first k lengths are those of the header |
| `Batches.CodeInfo.MoveToNextPkt` | src/fec.h:102 | steps over one packet |
| `Batches.CodeInfo.PushPkt` | src/fec.cc:880-907 | exactly when it refuses; otherwise the packet is in the next buffer with its index or length, the size is the maximum so far, nothing else changes |
| `Batches.CodeInfo.PopPkt` | src/fec.cc:909-924 | exactly when it refuses; otherwise the next buffer with its length |
| `Batches.CodeInfo.EncodeBatch` | src/fec.cc:926-935 | all n coded packets of the batch, with their indices |
| `Batches.CodeInfo.DecodeBatch` | src/fec.cc:937-945 | no error exactly for k different indices of the code; from coded packets the buffers hold the native batch; the first packet is the next to be popped |
| `Reassembly.PartialLog` | src/wspace_client_scout.cc:262-274 | before k different packets have come, exactly the native ones among them have been enqueued, as they came |
| `Reassembly.BelowAndRecovered` | src/wspace_client_scout.cc:280-290 | the packets enqueued early and those recovered are together each native packet once |
| `Reassembly.ExactlyOnce` | src/wspace_client_scout.cc:266-296 | with the k-th different packet every packet of the batch has been enqueued exactly once, with its bytes and length |
| `Reassembly.NativesArrived` | src/wspace_client_scout.cc:266-274 | before that, each call is for a packet that arrived, with its number start_seq + index and its bytes cut to its length, and each that arrived has one |
| `Reassembly.LogNumbers` | src/wspace_client_scout.cc:266-290 | with k different indices exactly start_seq .. start_seq + k - 1 have been enqueued, once each, every one with its own bytes cut to its own length |
| `Reassembly.StepSound` | src/wspace_client_scout.cc:222-258 | every packet from the air keeps the indices of a batch different, inside the code and at most k, and no batch is resumed |
| `Reassembly.RunSound` | src/wspace_client_scout.cc:194-297 | so it is after every stream |
| `Reassembly.RunNewest` | src/wspace_client_scout.cc:222-258 | after every stream, what is used of the newest batch is the first k different indices that arrived for it |
| `Reassembly.EveryBatchTold` | src/wspace_client_scout.cc:222-258 | after every stream, the batches worked on are exactly those that came while no newer one had, each with the first k different indices that arrived in that time |
| `Reassembly.StreamExactlyOnce` | src/wspace_client_scout.cc:194-297 | for every stream with duplicates, stale batches and any order: of the newest batch exactly start_seq .. start_seq + k - 1 are handed on, once each with their bytes, when k different packets have come, and only its received native packets before |
| `Receiver.IsIndExist` | src/wspace_client_scout.cc:173-177 | found if and only if among the first entries |
| `Receiver.NothingMissing` | src/wspace_client_scout.cc:276-293 | k early native packets are the whole batch, so skipping the decoder loses nothing |
| `Receiver.MaxStartIsHighest` | src/wspace_client_scout.cc:246-248 | the announced start is that of a batch worked on, and none of them begins later |
| `Receiver.BatchReceiver.constructor` | src/wspace_client_scout.cc:180-193 | no batch yet, nothing enqueued |
| `Receiver.BatchReceiver.StartBatch` | src/wspace_client_scout.cc:237-250 | forgets the old batch; the announced highest sequence number never goes back |
| `Receiver.BatchReceiver.PushCoded` | src/wspace_client_scout.cc:259 | the assertion on the push cannot fail |
| `Receiver.BatchReceiver.EnqueueNative` | src/wspace_client_scout.cc:266-274 | a native packet is enqueued at once as number start_seq + index with its own length, and remembered |
| `Receiver.BatchReceiver.DecodeFull` | src/wspace_client_scout.cc:279 | the decoder cannot fail, and its buffers then hold the batch |
| `Receiver.BatchReceiver.PopNative` | src/wspace_client_scout.cc:284 | the assertion on the pop cannot fail, and the popped packet is the native one of the loop index, with its own length |
| `Receiver.BatchReceiver.HandOn` | src/wspace_client_scout.cc:281-289 | a packet handed on early is skipped, any other is enqueued as number start_seq + i with its own length |
| `Receiver.BatchReceiver.RecoverBatch` | src/wspace_client_scout.cc:279-290 | enqueues exactly the packets that did not arrive themselves, in order |
| `Receiver.BatchReceiver.FinishBatch` | src/wspace_client_scout.cc:276-296 | decodes only if something is missing; the batch is marked as done |
| `Receiver.LoggedIsRun` | src/wspace_client_scout.cc:214 | a stream goes on with the run of the raw-loss tracker by good pushes only |
| `Receiver.BatchReceiver.Receive` | src/wspace_client_scout.cc:194-297 | one turn of the loop logs the raw number as good, keeps the invariant of the receiver, and makes the calls the specification prescribes for the packet |
| `Receiver.BatchReceiver.RxRcvAth` | src/wspace_client_scout.cc:179-302 | over any stream the calls are those of the specification, of which exactly-once is proved; the batch status names the newest batch, the number before the highest start, and whether k different packets have come; the tracker of the raw link has logged the stream |
| `EndToEnd.CallsOriginal` | src/wspace_client_scout.cc:266-290 | every packet a receiver hands on is the original one of its number |
| `EndToEnd.OriginalsInOrder` | src/wspace_asym_util.cc:116-267 | over every stream from the air and every interleaving behind it, without a jump onto an unread packet, the consumer takes original packets under their own numbers, in ascending order |
| `EndToEnd.OriginalsComplete` | src/wspace_asym_util.cc:116-267 | if moreover nothing is given up, it has taken precisely the originals 1, 2, 3 and so on up to the head |
| `Window.InitInv` | src/wspace_asym_util.h:103-123 | the empty window satisfies the invariant, for every ring size |
| `Window.SameIndex` | src/wspace_asym_util.h:683-685 | two numbers of one window never share a slot |
| `Window.WaitForRoomInv` | src/wspace_asym_util.cc:123-138 | giving up the slot the consumer waits for keeps the invariant |
| `Window.FullWindowYields` | src/wspace_asym_util.cc:123-138 | a producer that finds the window full gives up the due slot if the consumer is blocked on it and changes nothing else; then a waiting consumer goes on without a packet and there is room |
| `Window.StoreInv` | src/wspace_asym_util.cc:140-167 | filling a slot keeps it, also in a jump that does not land on an unread packet |
| `Window.WrapInv` | src/wspace_asym_util.cc:169-180 | clearing one slot after a jump keeps it |
| `Window.CleanInv` | src/wspace_asym_util.cc:181-192 | removing a read packet from a slot the window grows over keeps it, and so does moving the tail |
| `Window.TakeLeaves` | src/wspace_asym_util.cc:212-265 | the consumer goes on exactly when its slot holds an unread packet or was given up, and leaves it read or empty; otherwise it waits and leaves it blocked |
| `Window.TakeInv` | src/wspace_asym_util.cc:212-265 | what the consumer does with its slot keeps it |
| `Window.DueSlot` | src/wspace_asym_util.cc:204-218 | the slot of the consumer belongs to the number that is due, no other number of the window uses it, and it never holds a packet read before |
| `Window.WakeInv` | src/wspace_asym_util.cc:220-237 | after a blocked wait the index of the consumer is again the head modulo the ring size |
| `Window.MarkInv` | src/wspace_asym_util.cc:324-357 | whatever the acknowledging thread marks from a stale snapshot, the invariant stays |
| `Window.StepInv` | src/wspace_asym_util.cc:116-359 | every step of every thread keeps the invariant, short of a jump onto an unread packet |
| `Window.WindowInvariant` | src/wspace_asym_util.cc:116-359 | in every state reached without a jump onto an unread packet: head <= tail <= head + B, slots hold numbers of their own, unread packets belong to the window, no slot of the window is read |
| `Window.FaithfulTake` | src/wspace_asym_util.cc:240-251 | what is taken is the payload stored under head + 1 |
| `Window.InOrderDelivery` | src/wspace_asym_util.cc:116-267 | in every run and interleaving without such a jump, packets are delivered in strictly ascending order, so never twice, each with the bytes some producer brought for that number earlier |
| `Window.GaplessDelivery` | src/wspace_asym_util.cc:116-267 | as long as no step gives a packet up (a mark that takes effect, a full window with a slot blocked, a jump), what has been delivered is 1, 2, 3 and so on up to the head, without a gap |
| `Window.HeadMoves` | src/wspace_asym_util.cc:116-265 | the head moves only past a packet that is taken, past a slot that was given up, or by a jump |
| `Window.DropCause` | src/wspace_asym_util.cc:116-359 | in every run a slot that is given up was given up by an earlier step, a mark of one of its numbers or a full window, and has stayed so since |
| `Window.DropUnspent` | src/wspace_asym_util.cc:116-265 | one giving up costs one number: while a slot stays given up, the head passes no number of it but the one it is left for |
| `Window.EveryNumberPassed` | src/wspace_asym_util.cc:116-359 | in every run without a jump onto an unread packet, each number up to the head was passed by one step, which took that packet, or left its slot because an earlier step had given it up since when no other number of the slot was passed, or jumped over it |
| `Window.JumpExact` | src/wspace_asym_util.cc:153-171 | a jump keeps the invariant if and only if it does not land on an unread packet |
| `DataBuf.JumpDelivers` | src/wspace_asym_util.cc:153-180 | after any jump the next take, by a new call or after a blocked wait, gives the new number with the new packet, or with the old packet of the slot if that was unread |
| `DataBuf.JumpOntoPacketFails` | src/wspace_asym_util.cc:153-180 | for every ring of two slots or more and every number that jumps onto the slot of packet 1, a run in which the consumer is given packet 1 under that number |
| `DataBuf.JumpOntoPacketNeedsTwo` | src/wspace_asym_util.cc:123-138 | with one slot no jump lands on an unread packet, since the window is full while there is one |
| `DataBuf.EnqueueIsRun` | src/wspace_asym_util.cc:116-194 | an uninterrupted enqueue is one of the runs of the window |
| `DataBuf.FinishInv` | src/wspace_asym_util.cc:168-192 | the clearing loops keep the invariant to their end |
| `DataBuf.EnqueueInWindow` | src/wspace_asym_util.cc:140-193 | enqueueing in the window: the packet is stored unless an unread one is in its slot, exactly the read slots of the numbers the window grows over are cleared, every other slot stays, the tail is the maximum |
| `DataBuf.EnqueueStale` | src/wspace_asym_util.cc:143-144 | a packet not ahead of the window changes nothing |
| `DataBuf.EnqueueJump` | src/wspace_asym_util.cc:153-180 | after a jump the window is the new number alone, every other slot clear; the invariant holds if and only if the slot held no unread packet |
| `DataBuf.RxDataBuf.constructor` | src/wspace_asym_util.h:103-123 | the empty window |
| `DataBuf.RxDataBuf.EnqueuePkt` | src/wspace_asym_util.cc:116-194 | full: the due slot is given up if it is blocked, nothing else changes, and the caller must try again; otherwise the state is that of the steps of the window taken to their end; the early return at line 151 is dead |
| `DataBuf.RxDataBuf.TakeSlot` | src/wspace_asym_util.cc:212-265 | by what the slot held: an unread packet is given and the slot is read; a slot given up or read is emptied and nothing is given; any other is blocked and waited for |
| `DataBuf.RxDataBuf.DequeuePkt` | src/wspace_asym_util.cc:196-223 | from the call to the first wait or the return: on an empty queue it waits and nothing changes; otherwise the outcome and the slot are those of slot head modulo the ring size |
| `DataBuf.RxDataBuf.ResumeDequeue` | src/wspace_asym_util.cc:220-265 | from a wake-up to the next wait or the return |
| `Nacks.HolesExact` | src/wspace_asym_util.cc:324-341 | the scan lists exactly the holes, in ascending order |
| `Nacks.AheadExact` | src/wspace_asym_util.cc:342-346 | the rest of the batch is listed completely, in ascending order |
| `Nacks.MissingExact` | src/wspace_asym_util.cc:295-346 | the list is exactly the numbers of (head, min(end, tail)] whose slot is empty, or blocked and not expired, and all of (tail, end], strictly ascending |
| `Nacks.DropOverdueExact` | src/wspace_asym_util.cc:330-335 | exactly the waits that took too long are given up, under their own number |
| `Nacks.MarkAllExact` | src/wspace_asym_util.cc:347-357 | every listed number's slot is given up; no other slot changes |
| `Nacks.GiveUpLosesExact` | src/wspace_asym_util.cc:347-357 | a list found earlier is given up: a packet that has come and not been read by then is lost if and only if its own number is listed or another number of its slot is |
| `Nacks.UnreadSurvivesAtOnce` | src/wspace_asym_util.cc:324-357 | when nothing happens between the scan and the giving up, such a packet survives if and only if the list ends before the next number of its slot |
| `Nacks.DropOverdueInv` | src/wspace_asym_util.cc:324-341 | the scan keeps the invariant of the window |
| `Nacks.MarkAllInv` | src/wspace_asym_util.cc:347-357 | giving up a list keeps the invariant of the window |
| `Nacks.StaleClose` | src/wspace_asym_util.cc:293-346 | ascending numbers of the window of a snapshot, however they were scanned, and the rest of the batch after it span less than 2^16 if they are fewer than an acknowledgement holds |
| `Nacks.MissingClose` | src/wspace_asym_util.cc:343-358 | so does the list of an uninterrupted scan |
| `AckRuns.StepBounds` | src/wspace_asym_util.cc:116-267 | every step of the producers and the consumer keeps head <= tail <= head + B, even a jump onto an unread packet |
| `AckRuns.NextOk` | src/wspace_asym_util.cc:269-359 | every move of any thread keeps the list of the acknowledging thread ascending, inside the window of its snapshot and short enough |
| `AckRuns.EveryListLossless` | src/wspace_asym_util.cc:269-359 | in every interleaving, whatever the window does between the snapshot and the end of the scan, a list that is handed on is shorter than the maximum and comes back from compression unchanged |
| `AckRuns.WindowRuns` | src/wspace_asym_util.cc:269-359 | in these runs the window passes through the states of a run of its own, so the theorems on delivery hold of them |
| `AckRuns.ScanExact` | src/wspace_asym_util.cc:324-341 | in every interleaving a number is listed if and only if its slot was a hole, and not overdue, in a move that scanned it, and passed over if and only if it was not |
| `AckRuns.ScannedOnce` | src/wspace_asym_util.cc:324-341 | no number is scanned twice, so these are the same move |
| `AckRuns.AckLosesExact` | src/wspace_asym_util.cc:324-357 | in every interleaving, a move of the acknowledging thread changes an unread slot if and only if it gives up a number of that slot: the own number, or one at least a window away |
| `AckRuns.StoredBetween` | src/wspace_asym_util.cc:153-163 | in every run a packet that is there and was not before was stored by one of its moves |
| `AckRuns.OwnNumberCameLate` | src/wspace_asym_util.cc:290-357 | in every run, a packet that is unread when a round gives up its very number was stored in that round: after the snapshot if its number lay past the tail then, otherwise after the move that scanned its slot as a hole |
| `AckRuns.RoundAtOnce` | src/wspace_asym_util.cc:269-359 | without interruption the round of the thread is the search made in one step |
| `AckCases.LateArrivalLost` | src/wspace_asym_util.cc:341-350 | a run in which packet 2 comes after it has been listed, and is destroyed under its own number |
| `AckCases.EarlyArrivalLost` | src/wspace_asym_util.cc:290-350 | a run in which packet 2 comes after the snapshot but before it is listed, and is destroyed under its own number |
| `AckCases.FarNumberDestroys` | src/wspace_asym_util.cc:342-353 | a run in which number 3, beyond the window, is given up in the slot of the unread packet 1 |
| `AckCases.OldNumberDestroys` | src/wspace_asym_util.cc:347-353 | a run in which number 2 is given up in the slot of the unread packet 3 |
| `DataBuf.RxDataBuf.Scan` | src/wspace_asym_util.cc:324-341 | the loop lists the holes of the state it began with |
| `DataBuf.RxDataBuf.FindNackSeqNum` | src/wspace_asym_util.cc:269-359 | one formula for all returns: the exact list when it is below the maximum; otherwise an empty list and every listed slot given up; the assertion fails exactly when tail is 0 and there is something to report |
| `AckPacket.WireFormat` | src/wspace_asym_util.h:671-681 | on the wire is the distance from the first number modulo 2^16; read from it is the start plus the distance |
| `AckPacket.CompressionExact` | src/wspace_asym_util.h:671-681 | 16-bit distances give back the list if and only if every number lies less than 2^16 above the first |
| `AckPacket.AckPkt.constructor` | src/wspace_asym_util.h:559 | an empty packet, no acknowledgement sent yet |
| `AckPacket.AckPkt.Init` | src/wspace_asym_util.h:562-569 | empties the packet and counts it |
| `AckPacket.AckPkt.PushNack` | src/wspace_asym_util.h:671-681 | adds one number as long as there is room: the first is the start, with 0 on the wire; any other its distance from it modulo 2^16 |
| `AckPacket.AckPkt.ParseNack` | src/wspace_asym_util.cc:559-571 | returns what was pushed exactly when it can be |
| `AckThreads.SendDataAck` | src/wspace_client_scout.cc:334-339 | the packet holds the list, and the receiver of the packet reads the same list |
| `AckThreads.RxCreateDataAck` | src/wspace_client_scout.cc:330-342 | for a list found in any interleaving: never too long for the packet, and the receiver reads the same list |
| `AckThreads.RoundOnBuffer` | src/wspace_client_scout.cc:333-339 | a round on the buffer itself, not interrupted: the packet holds exactly what is missing, or nothing if that is too much |
| `AckThreads.RxCreateRawAck` | src/wspace_client_scout.cc:361-375 | with good packets only, the error of a full packet is unreachable and the receiver reads the list that was reported |
| `RawBuf.RxRawBuf.constructor` | src/wspace_asym_util.h:713-718 | nothing logged, every loss to be reported once |
| `RawBuf.RxRawBuf.PushPkts` | src/wspace_asym_util.cc:589-616 | accepts exactly newer numbers; the new state is that of the specification; the count never exceeds the buffer |
| `RawBuf.RxRawBuf.PopPktStatus` | src/wspace_asym_util.cc:618-639 | waits and changes nothing when too little is logged; otherwise reports all that is held, in order, and removes the entries reported often enough |
| `RawBuf.PushExact` | src/wspace_asym_util.cc:589-616 | what a push does, by ACK_WINDOW: an old number nothing; up to that many numbers since the last report, the whole gap is noted behind what is there; beyond, everything is forgotten but this packet |
| `RawBuf.NothingForgotten` | src/wspace_asym_util.cc:589-639 | in every run in which no stretch since a report is longer than ACK_WINDOW, nothing is skipped or cleared, and the losses are exactly the numbers up to the highest that did not arrive well |
| `RawBuf.ReportedOnce` | src/wspace_asym_util.cc:589-639 | in such a run every loss up to the last report has been reported exactly once, and nothing else ever, when losses are reported once |
| `RawBuf.LossesExact` | src/wspace_asym_util.cc:597-610 | the losses of an interval are exactly its numbers that did not arrive well, ascending, not reported yet |
| `RawBuf.RunAccurate` | src/wspace_asym_util.cc:589-639 | reporting once: in every run the deque holds exactly the losses of (end - count, end], after an overflow too |
| `RawBuf.ReportsTile` | src/wspace_asym_util.cc:597-607 | without overflow the intervals of the reports tile the sequence numbers: counts reported and pending add up to the newest number |
| `RawBuf.ReportFits` | src/wspace_asym_util.cc:618-639 | with good packets only, a report has fewer entries than an acknowledgement has room for |
| `RawBuf.PopRemovesExhausted` | src/wspace_asym_util.cc:630-635 | counts never rise along the deque, so removing the longest prefix at the maximum removes exactly the entries that reached it |
| `RawBuf.PushCounted` | src/wspace_asym_util.cc:589-616 | a push keeps the accounts of every number |
| `RawBuf.PopCounted` | src/wspace_asym_util.cc:618-639 | a report keeps the accounts of every number |
| `RawBuf.RunCounted` | src/wspace_asym_util.cc:589-639 | for any maximum, in every run each loss is reported exactly that often, unless it is still waiting or an overflow cleared it; nothing else is ever reported |
| `RawBuf.RunSettled` | src/wspace_asym_util.cc:589-616 | in every run the losses are exactly the numbers up to the newest that did not arrive well and were not skipped by an overflow, whatever the deque holds |
| `RawBuf.EveryNumber` | src/wspace_asym_util.cc:589-639 | every number is accounted for in every run: never reported if it arrived well, was skipped or has not been heard of; otherwise lost, and reported exactly the maximum number of times unless it waits or was cleared, and then fewer times |
| `LockOrder.StepInv` | src/wspace_asym_util.cc:116-359 | locks are with the threads whose place in the code says so, and only the owner gives one back |
| `LockOrder.AskingHolds` | src/wspace_asym_util.cc:116-359 | whoever asks for a lock while holding one holds the queue lock and asks for a slot |
| `LockOrder.WaitsEnd` | src/wspace_asym_util.cc:116-359 | a chain of threads waiting for each other ends after two links |
| `LockOrder.NoDeadlock` | src/wspace_asym_util.cc:116-359 | in every run of any number of threads no state has a cycle of lock waits, of any length |
| `LockOrder.SomebodyRuns` | src/wspace_asym_util.cc:116-359 | if anybody waits, a thread that holds a lock waits for nobody |
| `LockOrder.Exclusive` | src/wspace_asym_util.cc:116-359 | in every run two different threads are never at places that hold the same lock: the queue, and each slot, belong to one at a time |
| `LockOrder.Hierarchy` | src/wspace_asym_util.cc:116-359 | in every run nobody holds two slots, or asks for the queue lock with a lock in hand |

## Left out

- Batches.CodeInfo.DecodeBatch: prints an error and goes on in the source; here the error is also returned.
- LockOrder.StepInv: lets a thread leave a loop or wake up whenever it likes, so it covers more runs than the source has.
- Window.MarkInv: lets the acknowledging thread mark any slot at any time, which covers its stale snapshot and all its loops.
- DataBuf.RxDataBuf.FindNackSeqNum: makes the search in one step; the search that other threads interrupt is `AckRuns`.
- DataBuf.RxDataBuf.EnqueuePkt: runs without interruption between two waits; it is one run of `Window`, which has the interrupted ones.
- The wait of FindNackSeqNum for a new batch, without which it has more runs, and the static batch_id_prev, which several radios share.
- 32-bit wrap-around of sequence numbers, and 16-bit wrap-around of packet lengths and counts other than in AckPkt.
- The tables as global variables: they are computed once and passed on as a value.
- The sixteen unrolled statements of addmul1 are a loop of sixteen turns; its pointer limit is an offset.
- indxr and indxc of invert_mat are sequences that grow by one entry per column.
- GF_BITS other than 8, the diagnostic code, is_identity, malloc, free and the magic number of a code.
- Time: block timeouts are a set of expired slots, batch timeouts a flag; UpdateTimeLeft and SetBatchInfo's time estimate.
- Condition variables as such: lost wake-ups and fairness are not claimed.
- Sockets, the tunnel, GPS, rates, client and station ids, printing and the start of threads.
- TxSendBuf, AcquireHeadLock, AcquireTailLock and the receiver of acknowledgements, which this client does not use.
- Receiver.BatchReceiver.Receive: leaves out the estimate of the time left in a batch, which only feeds the timeout.
- FecCode.FecNew: is not called with k = 0 or a negative k, which pass the guard of the source and make it write to a matrix without cells.
- RxRcvCell, which only passes packets to EnqueuePkt: it is one of the producers `Window` allows.
- OriginalSeqContext and the header setters, which would add only easy members.
