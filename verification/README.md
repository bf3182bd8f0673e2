# Models of the QKD post-processing toolkit

Dafny models of the post-processing chain of a quantum key distribution toolkit, with proofs of what
the chain is for: that two parties end up with the same key.

* **Sifting** (`Sifting`, `SiftVerifier`, `SiftReceiver`, `SiftAgreement`, `SiftProtocol`, `SiftLog`,
  `SiftRuns`). Bob batches contiguous frames and sends his bases; Alice waits for the frames, answers
  and publishes; Bob publishes from the answers. The two objects are classes whose methods are proved
  against functions on their state. Both objects and the call between them form a transition system,
  with reports in any order and any number, aborted calls, calls and replies lost in transport, and calls
  that Bob has given up on and Alice handles later. Theorems hold in every reachable state.
* **Key pipeline** (`KeyPipeline`, `EndToEndKeys`): error correction (a pass-through), privacy
  amplification and re-chunking into keys of one size.
* **Asynchronous sifting** (`AsyncSift`, `AsyncAgreement`, `AlignmentResults`): in-place filtering by
  basis at the detector, by slot at the transmitter, and publication.
* **Parallel machinery** (`RangeSearch`, `Offsetting`, `WorkQueue`, `DriftPeaks`, `RingBuffer`): state
  machines over single critical sections, for any number of workers and every interleaving. A class
  beside each machine holds the shared variables; each of its methods is one critical section and is
  proved to be one step of the machine. The ring buffer is further proved to behave as a bounded queue.
* **Alignment arithmetic** (`Words`, `Rounding`, `Drift`, `Threshold`, `GatingWindow`, `Gating`, `GateResults`):
  circular histograms, peaks, windows and binary search. Doubles are exact reals.
* **CRC-32** (`Crc`): the lazily built table against polynomial division, and burst detection. Words are
  lists of bits, most significant first.
* **Codecs** (`UriCodec`, `UriText`, `Uri`, `UriSetters`, `UriObject`, `Nox`): percent-encoding, printing and parsing
  of URIs, and the records of a time tagger.

`dafny verify dfyconfig.toml` checks the whole project.

## What the proofs found

These are consequences of the code, each stated by a member of the table below.

* The receiver is documented to take sparse detections (`Receiver.h:24`, `SiftBase.h:29`), but Alice packs
  by emission index and Bob by detection position. The parties agree only if the detections are in order
  and none is missing (`SiftAgreement.SparseDetectionsAgreeIff`). The protocol theorems therefore assume that
  detection i carries index i.
* An aborted call costs Alice a block number but no bytes: the byte streams stay equal, the numbers do not
  (`SiftRuns.StreamsAgreeIff`, `SiftRuns.SequenceNumbersAgreeIff`).
* With a minimum above one frame, a late duplicate of a consumed frame stops Bob for good; a minimum of zero
  stops him from the start; in every other state he can get on (`SiftRuns.StuckIff`).
* In asynchronous sifting the detector indexes its qubits by slot, while the gate hands over one qubit per
  valid slot, and the transmitter is sent slots without the offset. Agreement for all emissions and detections
  needs an offset of zero and every slot to be present (`AsyncAgreement.AgreementIff`,
  `AsyncAgreement.CompactAgreementIff`).
* The peak of a drift histogram follows every delay only if all or none of the detections lie between the bins
  opposite to any two highest bins (`Drift.DelayMovesPeakIff`).
* Rounding division is not to the nearest for some negative numerators (`Rounding.NegativeIsNearestIff`).
* From the start of the frame on, the gate corrects drift in one direction only (`Gating.CorrectedIff`), and for a peak in
  bin 0 its upward walk may stop early (`GatingWindow.StopsEarlyOnlyAtZero`, `GateResults.ThreeBinsLoseThePeak`).
* Even if every marker was detected, the offset search is sure to find the true offset only if each other offset
  of the range hits no marker or hits one with a wrong value (`Offsetting.TrueOffsetFoundIff`).
* The generator of the offset search tests `< to`, yet `to` itself is compared (`RangeSearch.DoneMeansAll`).
* An encoded path never starts with a slash, so a URI with scheme, host and such a path does not survive
  printing and parsing (`UriSetters.EncodedPathFitsIff`, `UriSetters.BuiltSurvivesIff`); a new parameter is
  stored unencoded (`UriSetters.SetParameterReadsBackIff`).

## Model

| member | source | states |
|---|---|---|
| Qubits.BaseAndBitDetermineCode | src/Algorithms/Datatypes/Qubits.h:46-82 | basis and key bit, as the masks extract them, together identify each of the seven BB84 codes |
| Qubits.QubitDigits | src/Algorithms/Datatypes/Qubits.h:71-82 | the key bit is the last binary digit of a qubit, the basis the two digits before it |
| Qubits.CodesOfBases | src/Algorithms/Datatypes/Qubits.h:32-58 | which of the seven codes belong to each basis, and which of them carry a one |
| BitPacking.UnpackPack | src/Algorithms/Datatypes/Base.h:65-75 | reading the first NumBits() bits of a packed block, least significant first, gives back exactly the packed bits |
| BitPacking.PackBits | src/CQPToolkit/Sift/SiftBase.cpp:44-58 | bit i of the packed bytes is packed bit i, and every bit past the last one is zero |
| BitPacking.BitIsDigit | src/CQPToolkit/Sift/SiftBase.cpp:44-45 | bit k of a byte is its binary digit of weight 2^k |
| BitPacking.PackSize | src/Algorithms/Datatypes/Base.h:65-75 | how many bits and bytes a packed block has, and how full its last byte is: eight when complete, zero only for an empty block |
| BitPacking.PackInjective | src/CQPToolkit/Sift/SiftBase.cpp:44-58 | two blocks (bytes and fill of the last byte) are equal exactly if the packed bits are |
| BitPacking.JaggedDataBlock.AddBit | src/CQPToolkit/Sift/SiftBase.cpp:44-57 | one bit or-ed into the buffer; a full buffer moves into the block; block and buffer hold the bits so far plus this one |
| BitPacking.JaggedDataBlock.Flush | src/CQPToolkit/Sift/Verifier.cpp:146-152 | after storing a partly filled last byte the block is exactly the packing of all bits |
| Sifting.KeptIndexesExact | src/CQPToolkit/Sift/SiftBase.cpp:36-41 | the positions that survive are those whose basis matched and whose intensity is not discarded, in ascending order |
| Sifting.PackQubit | src/CQPToolkit/Sift/SiftBase.cpp:30-62 | a qubit is packed exactly if its position is kept; otherwise block, buffer and offset stay as they were |
| Sifting.PackFrames | src/CQPToolkit/Sift/Verifier.cpp:122-152 | walking the frames in ascending id order and each frame in position order yields the packing of all kept bits; unanswered frames add nothing |
| Sifting.SiftedBitsExact | src/CQPToolkit/Sift/Verifier.cpp:122-152 | the bits packed from any frames are the last binary digits of the qubits at exactly the positions answered with yes whose intensity is not discarded, by frame and by place in the frame |
| SiftVerifier.Verifier.OnEmitterReport | src/CQPToolkit/Sift/Verifier.cpp:171-191 | a report is stored under its frame id unless that frame is already there |
| SiftVerifier.Verifier.TakeRequested | src/CQPToolkit/Sift/Verifier.cpp:39-76 | all requested frames are moved out of the store, or none if one is missing or nothing is asked for |
| SiftVerifier.Verifier.CompareFrame | src/CQPToolkit/Sift/Verifier.cpp:87-97 | one answer per basis whose index names an emission, in order; other indexes are skipped without an answer |
| SiftVerifier.Verifier.AnswerAll | src/CQPToolkit/Sift/Verifier.cpp:78-109 | every taken frame is answered, with intensities only if some are discarded; no frame taken means the call aborts |
| SiftVerifier.Verifier.VerifyBases | src/CQPToolkit/Sift/Verifier.cpp:27-114 | the whole new state and reply of a call: frames consumed or untouched, one block published (empty on abort), number advanced either way |
| SiftVerifier.VerifyExact | src/CQPToolkit/Sift/Verifier.cpp:27-114 | a call is answered exactly if all frames it asks for are stored; then these are used up and each is answered, with intensities only if some are discarded; on abort nothing is used up and the block is empty; one block and one number either way |
| SiftVerifier.CompareBasesExact | src/CQPToolkit/Sift/Verifier.cpp:87-97 | whatever the indexes, the answer to a basis comes right after those to the usable ones before it and says whether its basis was emitted at its index |
| SiftVerifier.Verifier.PublishStates | src/CQPToolkit/Sift/Verifier.cpp:116-169 | appends one publication with the current number and the packed kept bits of the given frames, and advances the number |
| SiftVerifier.Verifier.Connect | src/CQPToolkit/Sift/Verifier.cpp:193-205 | forgets the stored frames and restarts the numbering |
| SiftReceiver.Receiver.OnPhotonReport | src/CQPToolkit/Sift/Receiver.cpp:61-81 | a report is stored under its frame id unless that frame is already there |
| SiftReceiver.Receiver.ValidateIncomming | src/CQPToolkit/Sift/Receiver.cpp:172-233 | true exactly if the minimum number of contiguous frames starting at the wanted one is stored and, for a minimum above one, no earlier frame is; a minimum of zero is never met |
| SiftReceiver.ReadyIff | src/CQPToolkit/Sift/Receiver.cpp:172-233 | the same in terms of the first missing frame: the run up to it is at least as long as the configured minimum |
| SiftReceiver.Receiver.TakeBatch | src/CQPToolkit/Sift/Receiver.cpp:102-125 | moves the longest contiguous run from the wanted frame out of the store and advances the wanted frame past it; the looked-up first frame always exists |
| SiftReceiver.Receiver.BuildRequest | src/CQPToolkit/Sift/Receiver.cpp:129-146 | the request lists, per frame and in detection order, each detection time as index with its basis |
| SiftReceiver.RequestExact | src/CQPToolkit/Sift/Receiver.cpp:129-146 | the index sent with each basis is the time of the detection, the basis the middle digits of its value |
| SiftReceiver.Receiver.PublishStates | src/CQPToolkit/Sift/Receiver.cpp:235-291 | appends one publication with the kept bits of the batch, packed by detection position, and advances the number |
| SiftReceiver.Receiver.Connect | src/CQPToolkit/Sift/Receiver.cpp:27-46 | forgets the stored frames, restarts the numbering, and the new worker wants frame 0 |
| SiftAgreement.FrameAgreement | src/CQPToolkit/Sift/Receiver.cpp:254-260 | if detection i carries index i, both parties keep the same positions of a frame, exactly the matching, not discarded ones |
| SiftAgreement.SparseDetectionsAgreeIff | src/CQPToolkit/Sift/Receiver.h:24 | the class comment promises sparse detections; in fact, for a given list of indexes, both parties agree for all emissions over a perfect channel exactly if the usable indexes are 0, 1, 2, ... and come first |
| SiftAgreement.MissedPhotonDisagrees | src/CQPToolkit/Sift/Verifier.cpp:134-138 | a concrete frame with one missed photon on which the two parties keep different bits |
| SiftProtocol.InvNext | src/CQPToolkit/Sift/Verifier.cpp:27-114 | every step keeps the system invariant: emitting, detecting, batching, verifying, delivering, losing, and handling late a call Bob has given up on |
| SiftProtocol.KeptExact | src/CQPToolkit/Sift/SiftBase.cpp:36-41 | over a batch the kept positions are exactly the slots seen by both in the same basis with an intensity that is kept |
| SiftProtocol.KeptInOrder | src/CQPToolkit/Sift/Verifier.cpp:122-152 | the kept positions of a batch come by frame and by slot |
| SiftProtocol.BatchBits | src/CQPToolkit/Sift/Receiver.cpp:246-266 | both parties sift one bit per kept position of a batch, and the lists differ exactly where the values at a kept position differ |
| SiftRuns.StreamsAgreeIff | src/CQPToolkit/Sift/Receiver.cpp:148-160 | in every reachable state over an error-free channel the published bytes are equal exactly if every answer of Alice’s that carried bits has reached Bob; while only the one on its way may be missing, Bob has a prefix |
| SiftRuns.NoisyStreamsAgreeIff | src/CQPToolkit/Sift/Verifier.cpp:111-165 | on any channel, if every call Alice handled was aborted or its answer delivered, the streams are equally long and equal exactly if no kept position of a delivered answer holds different values |
| SiftRuns.SequenceNumbersAgreeIff | src/CQPToolkit/Sift/Verifier.cpp:163-165 | Bob is never ahead of Alice in block numbers, and the numbers agree exactly if every call she handled was answered and the answer delivered |
| SiftRuns.AliceBlockExact | src/CQPToolkit/Sift/Verifier.cpp:116-165 | in every reachable state Alice’s block i is numbered i and holds, in order, the last binary digits of what she sent at the kept positions of the i-th request she handled, or nothing if that was aborted |
| SiftRuns.BobBlockExact | src/CQPToolkit/Sift/Receiver.cpp:235-291 | Bob’s blocks are numbered from zero, one for each answer that has reached him, and hold the last binary digits of what he saw at the kept positions |
| SiftRuns.AliceHandles | src/CQPToolkit/Sift/Verifier.cpp:27-114 | a request handled in time or late: with all frames at hand she publishes their kept bits and forgets the frames, otherwise an empty block |
| SiftRuns.EmittedStored | src/CQPToolkit/Sift/Verifier.cpp:171-191 | in any run Alice stores only what was emitted, and stores each emitted frame until an answered request has used it up |
| SiftRuns.CallGoesThrough | src/CQPToolkit/Sift/Receiver.cpp:92-166 | if a batch can be taken and Alice has its frames, then calling, answering and delivering adds to both sides exactly one block with the bits of these frames |
| SiftRuns.CallIsLeft | src/CQPToolkit/Sift/Receiver.cpp:148-160 | on an abort, a loss or when Bob gives up he publishes nothing and goes on with the frame after the call |
| SiftRuns.FramesConsumedInOrder | src/CQPToolkit/Sift/Receiver.cpp:92-123 | under any arrival order each settled frame is in exactly one call, calls follow each other without gap from frame 0, and each has the minimum size |
| SiftRuns.BatchIsMaximalRun | src/CQPToolkit/Sift/Receiver.cpp:110-121 | whenever a batch is taken in any run, it is the longest contiguous run, from the wanted frame on, of all frames detected so far, and has the minimum size |
| SiftRuns.BatchTakenIff | src/CQPToolkit/Sift/Receiver.cpp:172-233 | in any run a batch is taken exactly if the worker is idle, the minimum is not zero, that many frames from the wanted one on have been detected and, for a minimum above one, no consumed frame is stored again |
| SiftRuns.StuckIff | src/CQPToolkit/Sift/Receiver.cpp:172-233 | from any state the wanted frame never changes again, whatever happens, exactly if the minimum is zero, or it is above one and an already consumed frame is stored again; with a minimum of one that never happens |
| SiftRuns.StaleFrameStalls | src/CQPToolkit/Sift/Receiver.cpp:177-181 | in the latter case an idle worker also never makes another call |
| SiftRuns.RepeatedFrameIsStale | src/CQPToolkit/Sift/Receiver.cpp:70-73 | a repeated report of any consumed frame brings that state about |
| KeyPipeline.ChunksKeepBytes | src/CQPToolkit/KeyGen/KeyConverter.cpp:45-57 | cutting keys off and keeping the rest loses, repeats and reorders no byte |
| KeyPipeline.ConvertExact | src/CQPToolkit/KeyGen/KeyConverter.cpp:27-69 | for all calls and listener changes: emitted keys are the full chunks of what was received up to the last attended call, the rest of that and everything since is carried over |
| KeyPipeline.ConvertConserves | src/CQPToolkit/KeyGen/KeyConverter.cpp:27-69 | emitted keys then carry-over are all bytes received, every key has the configured size, and after an attended call less than a key is carried over |
| KeyPipeline.FragmentationIrrelevant | src/CQPToolkit/KeyGen/KeyConverter.cpp:37-41 | two attended histories with the same bytes have emitted the same keys, however the bytes were split |
| KeyPipeline.KeyConverter.OnKeyGeneration | src/CQPToolkit/KeyGen/KeyConverter.cpp:27-69 | the chunking loop computes that conversion step on carry-over and listener |
| KeyPipeline.PrivacyAmplify.OnCorrected | src/CQPToolkit/PrivacyAmp/PrivacyAmplify.cpp:20-56 | everything collected is handed on as one fragment and the collection is emptied |
| KeyPipeline.ErrorCorrection.OnSifted | src/CQPToolkit/ErrorCorrection/ErrorCorrection.cpp:44-57 | the bytes go through unchanged, behind what the next stage had collected, to one conversion step, with or without a listener for keys |
| KeyPipeline.PushBlocks | src/CQPToolkit/ErrorCorrection/ErrorCorrection.cpp:51-54 | pushing any blocks through the three objects leaves the keys and the carry-over of the specification |
| KeyPipeline.ChainKeysOfBytes | src/CQPToolkit/ErrorCorrection/ErrorCorrection.cpp:51-54 | the keys of a chain of blocks depend only on their concatenated bytes |
| EndToEndKeys.KeysAgree | src/CQPToolkit/KeyGen/KeyConverter.cpp:27-69 | end to end, in every reachable state, Bob’s keys are a prefix of Alice’s if he has heard all answers with bits but the one on its way, and equal if he has heard that too |
| EndToEndKeys.DriveChain | src/CQPToolkit/PrivacyAmp/PrivacyAmplify.cpp:20-56 | driving the objects with a party’s publications emits exactly those keys to the listener |
| EndToEndKeys.KeysConserveBytes | src/CQPToolkit/PrivacyAmp/PrivacyAmplify.cpp:29-41 | a party’s keys are its published bytes in order, all of one size, with less than one key left over |
| AsyncSift.SameBasisMeansEqual | src/CQPToolkit/Alignment/DetectionReciever.cpp:76-82 | a received basis equals a measured one exactly if both are the same valid basis |
| AsyncSift.SendAllBasis | src/CQPToolkit/Alignment/TransmissionHandler.cpp:74-93 | one basis per emission, in order |
| AsyncSift.RemoteOfCodes | src/CQPToolkit/Alignment/TransmissionHandler.cpp:78-92 | which basis each of the seven codes has on the wire |
| AsyncSift.SiftDetections | src/CQPToolkit/Alignment/DetectionReciever.cpp:84-131 | for slots in any order the in-place loop computes the fold over the slots, and refuses lists that are too short |
| AsyncSift.SiftAllIsSifted | src/CQPToolkit/Alignment/DetectionReciever.cpp:94-121 | for ascending slots, as the gate guarantees, exactly the matching slots and those outside the list are left, and the original qubits of the matching ones stand in front |
| AsyncSift.FilterDetections | src/Algorithms/Alignment/Gating.h:173-200 | for slots in any order the in-place compaction computes the fold over the slots, and reports whether there were slots and all existed |
| AsyncSift.CompactedIsSelected | src/Algorithms/Alignment/Gating.h:179-195 | for ascending slots the result is the original emissions of the slots that exist |
| AsyncAgreement.LoopsExchange | src/CQPToolkit/Alignment/TransmissionHandler.cpp:144-151 | run one after the other, the two loops compute the exchange the theorems below are about |
| AsyncAgreement.ExchangeKeepsMatching | src/CQPToolkit/Alignment/DetectionReciever.cpp:94-121 | with offset zero and all slots inside the list, a slot is kept exactly if it was asked for and measured in the emitted, valid basis |
| AsyncAgreement.ExchangeKeepsExactly | src/CQPToolkit/Alignment/DetectionReciever.cpp:94-121 | for any offset, the ascending slots left are those that the offset leads outside the list or to a detection in the valid basis emitted there |
| AsyncAgreement.ExchangeInStep | src/CQPToolkit/Alignment/TransmissionHandler.cpp:144-151 | entry i of the detector’s and of the transmitter’s list are the original qubits of the i-th kept slot |
| AsyncAgreement.SiftedBasesAgree | src/CQPToolkit/Alignment/TransmissionHandler.cpp:144-151 | afterwards both lists have equal length and pairwise equal bases |
| AsyncAgreement.AgreementIffInside | src/CQPToolkit/Alignment/DetectionReciever.cpp:99-121 | with offset zero and for given emissions, that outcome holds for all detector lists of n qubits in valid bases exactly if every slot is an index below n |
| AsyncAgreement.MissedSlotDisagrees | src/CQPToolkit/Alignment/DetectionReciever.cpp:98-121 | a concrete compact list: slot 0 missed, slot 1 measured in another basis and still kept |
| AsyncAgreement.CompactNeedsEverySlot | src/Algorithms/Alignment/Gating.cpp:141-162 | the gate delivers one qubit per valid slot; for such a list the condition holds exactly if the slots are 0, 1, 2, ... |
| AsyncAgreement.AgreementIff | src/CQPToolkit/Alignment/DetectionReciever.cpp:94-125 | the kept slots are sent back without the offset; for any slots and any offset, agreement for all emissions and detections in valid bases holds exactly if there are no slots, or the offset is zero and every slot lies inside the detector’s list |
| AsyncAgreement.CompactAgreementIff | src/CQPToolkit/Alignment/DetectionReciever.cpp:187-204 | for the gate’s list of one qubit per slot, agreement holds exactly if there are no slots, or the offset is zero and the slots are 0, 1, 2, ... |
| AsyncAgreement.OffsetOneDisagrees | src/CQPToolkit/Alignment/DetectionReciever.cpp:97 | a concrete complete list on which an offset of one leads to different bases |
| AlignmentResults.Alignment.SendResults | src/CQPToolkit/Alignment/Alignment.cpp:32-71 | with a listener, one publication with the packed key bits and the next number; without one, nothing |
| AlignmentResults.PackedDigits | src/CQPToolkit/Alignment/Alignment.cpp:36-67 | the packed bits are the last binary digits of the qubits, in order |
| AlignmentResults.TransmissionHandler.DiscardTransmissions | src/CQPToolkit/Alignment/TransmissionHandler.cpp:111-166 | the frame is used up and the packed bits of the kept slots are published |
| AlignmentResults.TransmissionHandler.OnEmitterReport | src/CQPToolkit/Alignment/TransmissionHandler.cpp:20-30 | a report replaces any earlier one of its frame |
| AlignmentResults.BlocksAgreeIff | src/CQPToolkit/Alignment/Alignment.cpp:36-67 | the two blocks published for a frame are equal exactly if every matching slot was measured with the emitted value |
| RangeSearch.SearchCorrect | src/Algorithms/Alignment/Offsetting.cpp:16-68 | under every interleaving of any number of workers a finished search returns the maximum of zero and all defined confidences, attained at the returned offset if positive |
| RangeSearch.DoneMeansAll | src/Algorithms/Util/RangeProcessing.h:146-170 | when the caller wakes, every offset from `from` to `to` inclusive has been compared exactly once and no worker holds one |
| RangeSearch.ScheduleIndependentIff | src/Algorithms/Alignment/Offsetting.cpp:35-45 | the value never depends on the schedule; the offset does not either exactly if no two offsets share a positive maximum |
| RangeSearch.Searcher.DrawNext | src/Algorithms/Util/RangeProcessing.h:142-164 | one draw under the mutex: next offset, counter and the more-values flag |
| RangeSearch.Searcher.Report | src/Algorithms/Alignment/Offsetting.cpp:31-48 | one result under the mutex: count and, if strictly higher, value and offset |
| RangeSearch.HighestValue | src/Algorithms/Alignment/Offsetting.cpp:16-68 | running any schedule on the shared object returns the maximum and an attaining offset once the caller’s condition holds |
| Offsetting.LowerBound | src/Algorithms/Alignment/Offsetting.cpp:176 | on sorted slots the binary search finds the first slot not less than the value |
| Offsetting.CompareValues | src/Algorithms/Alignment/Offsetting.cpp:161-201 | matching over correct markers among those considered; all are considered without a sample limit, otherwise the walk ends one match past it |
| Offsetting.ScoreIsProportion | src/Algorithms/Alignment/Offsetting.cpp:198 | a defined confidence lies in [0, 1] and is 1 exactly if every basis-matched marker among those looked at agrees in value |
| Offsetting.ScoreIsShareOfHits | src/Algorithms/Alignment/Offsetting.cpp:170-198 | the confidence is the share of hits with the marker’s value among all hits, a hit being a marker whose slot lies the offset past a detected slot of the same basis |
| Offsetting.FullConfidenceIff | src/Algorithms/Alignment/Offsetting.cpp:170-198 | the confidence is 1 exactly if something is hit and every hit has its marker’s value |
| Offsetting.AlignmentFound | src/Algorithms/Alignment/Offsetting.cpp:57-67 | with or without a sample limit and for any hash order, searching the offsets finds one with the confidence reported, which no other offset of the range is given more than |
| Offsetting.TrueOffsetFoundIff | src/Algorithms/Alignment/Offsetting.cpp:16-68 | if every marker was detected k slots early, every schedule finds exactly k if and only if each other offset of the range hits nothing or hits a wrong value |
| WorkQueue.QueueCorrect | src/Algorithms/Util/ProcessingQueue.h:74-141 | under every interleaving tasks are taken in enqueue order, each once, futures hold their own action’s result and are set once; an idle empty queue has set them all |
| WorkQueue.ResultsIndependentOfSchedule | src/Algorithms/Util/ProcessingQueue.h:136-139 | two finished schedules of the same actions give the same futures |
| WorkQueue.CanFinish | src/Algorithms/Util/ProcessingQueue.h:112-140 | from every reachable state the workers can go on until no task is pending and every future holds its own action’s result |
| WorkQueue.ProcessingQueue.Enqueue | src/Algorithms/Util/ProcessingQueue.h:92-108 | one critical section of adding a task: last in the queue, with the next ticket |
| WorkQueue.ProcessingQueue.TakeTask | src/Algorithms/Util/ProcessingQueue.h:119-134 | one critical section of an idle worker: it holds the oldest task, which is no longer pending |
| WorkQueue.ProcessingQueue.Fulfil | src/Algorithms/Util/ProcessingQueue.h:136-139 | a busy worker sets its own task’s future to its own action’s result |
| RingBuffer.FifoUnderInterleaving | src/Algorithms/Datatypes/RingBuffer.h:38-114 | for every interleaving of checks, stores and fetches the count stays in [0, Max], head is tail plus count around the ring, and popped values are a prefix of pushed ones |
| RingBuffer.RingIsQueue | src/Algorithms/Datatypes/RingBuffer.h:38-114 | under every interleaving the ring is step by step a bounded queue: a value stored waits behind the others until it is fetched |
| RingBuffer.StepKeeps | src/Algorithms/Datatypes/RingBuffer.h:51-64 | no step breaks the ring invariant although a check and its change are separate critical sections |
| RingBuffer.RingBuffer.PushStore | src/Algorithms/Datatypes/RingBuffer.h:52-65 | a store after a successful check adds its value behind the stored ones and counts it |
| RingBuffer.RingBuffer.PopFetch | src/Algorithms/Datatypes/RingBuffer.h:98-109 | a fetch after a successful check returns the oldest unpopped value |
| Rounding.DivNearestIsNearest | src/Algorithms/Util/Maths.h:14-25 | for a numerator that is not negative the quotient is within half a denominator of the exact one |
| Rounding.NegativeIsNearestIff | src/Algorithms/Util/Maths.h:18-19 | for a negative numerator it is exactly unless the denominator is odd and the numerator just past the middle |
| Rounding.NegativeRounds | src/Algorithms/Util/Maths.h:18-19 | what a negative numerator is rounded to |
| Drift.Histogram | src/Algorithms/Alignment/Drift.cpp:32-49 | the counting loop yields, for each bin, the number of detections whose rounded place in the window is that bin |
| Drift.BinIsNearest | src/Algorithms/Alignment/Drift.cpp:42-47 | a detection is counted in the bin nearest to its place in the window, the later of two equally near, and around the end in bin 0 |
| Drift.CountsTotal | src/Algorithms/Alignment/Drift.cpp:42-47 | every detection is counted in exactly one bin |
| Drift.FindPeak | src/Algorithms/Alignment/Drift.cpp:73-119 | the two loops compute the rolled weighted mean, and the result lies in [0, driftBins) |
| Drift.PeakIsMeanDistance | src/Algorithms/Alignment/Drift.cpp:92-115 | the position found is the highest bin moved by the mean distance of all detections from it, each counted the shorter way round |
| Drift.PeakOfOneBin | src/Algorithms/Alignment/Drift.cpp:73-119 | if all detections are in one bin, the peak is that bin |
| Drift.MomentsRoll | src/Algorithms/Alignment/Drift.cpp:95-108 | rolling the histogram together with its peak rolls the weighted counts: the roll to the middle cancels |
| Drift.DelayedCounts | src/Algorithms/Alignment/Drift.cpp:42-47 | delaying all detections by k bin widths rolls the histogram by k |
| Drift.PeakFollowsIff | src/Algorithms/Alignment/Drift.cpp:89-115 | the peak follows every roll of a histogram exactly if all bins that hold the greatest count give the same position |
| Drift.DelayMovesPeakIff | src/Algorithms/Alignment/Drift.cpp:73-119 | if the slot is a whole number of bins, delays by any number of bin widths move the peak by exactly that many bins modulo driftBins, if and only if there is only one bin, or there are detections and all or none of them lie between the bins opposite to any two highest bins |
| Drift.HighestAgreeIff | src/Algorithms/Alignment/Drift.cpp:92-115 | whether all highest bins give the same position is decided by the counts between their opposite bins |
| Drift.UniqueMaximumAgrees | src/Algorithms/Alignment/Drift.cpp:90 | a single highest bin is enough |
| Drift.TwoHighestBinsDoNotMove | src/Algorithms/Alignment/Drift.cpp:90 | with two equally high bins a concrete delay leaves the peak where it was |
| Threshold.FindThreshold | src/Algorithms/Alignment/Filter.h:216-255 | what the binary search returns on any data: an edge, or, if the last element does not satisfy the condition, an index that depends on the element past the end |
| Threshold.EdgeIsLinearScan | src/Algorithms/Alignment/Filter.h:227-252 | on data with one edge the edge is the linear scan’s from index 1 |
| Threshold.FindSingleEdge | src/Algorithms/Alignment/Filter.h:216-255 | on such data the search reads past the end exactly if nothing from index 1 satisfies the condition, and otherwise equals the linear scan |
| DriftPeaks.SplitWindows | src/Algorithms/Alignment/Drift.cpp:193-225 | the sample windows follow each other from the first detection, each ends at the first detection past its cut-off, and at most a last, shorter sample is left out |
| DriftPeaks.CollectPeaks | src/Algorithms/Alignment/Drift.cpp:227-241 | peaks come in window order and the maximum is the first greatest |
| DriftPeaks.GetPeaks | src/Algorithms/Alignment/Drift.cpp:173-241 | splitting, one task per window on the queue with workers taking any turns in between, and collecting: once all futures are ready, and so once the queue is idle, peak i is that of window i, the windows tile the detections and are cut at the sample times, and the maximum is the first greatest |
| DriftPeaks.PeaksIndependentOfSchedule | src/Algorithms/Alignment/Drift.cpp:211-234 | whatever the schedule, a future that is ready holds the peak of its own window |
| Gating.CountDetections | src/Algorithms/Alignment/Gating.cpp:35-74 | the loop leaves in every bin and slot exactly the values placed there, in order of arrival, and in every bin their number |
| Gating.AtInOrder | src/Algorithms/Alignment/Gating.cpp:70 | the values of a bin and slot stand in the order their detections arrived |
| Gating.PlacedByTime | src/Algorithms/Alignment/Gating.cpp:50-71 | the time a detection is placed by, from its raw time, the drift rounded to picoseconds and the correction of its channel, in 64 bits; its slot is the nearest, its bin the one that holds its place in the slot |
| Gating.DriftIsTakenOff | src/Algorithms/Alignment/Gating.cpp:52-61 | without wrapping and past the offset that time is within half a picosecond of the raw time with correction and without drift |
| Gating.RoundIsNearest | src/Algorithms/Alignment/Gating.cpp:53 | the drift is rounded to the nearest picosecond, halves away from zero |
| Gating.CorrectedIff | src/Algorithms/Alignment/Gating.cpp:56-61 | the comment promises a correction in both directions; because negative offsets are compared as unsigned numbers, a time is corrected exactly if the offset is not negative and less than the time, or the time lies before the frame’s start by less than a negative offset |
| Gating.NearestSlotIsNearest | src/Algorithms/Alignment/Gating.cpp:64 | a time lies within half a slot of its slot’s middle, unless adding half a slot wraps in 64 bits: then the slot is 0 |
| Gating.CountsConserveDetections | src/Algorithms/Alignment/Gating.cpp:50-71 | the bin counts add up to the number of detections |
| Gating.CountIsEntries | src/Algorithms/Alignment/Gating.cpp:70-71 | a bin’s count is the number of values stored under it over all slots |
| GatingWindow.SomethingAbove | src/Algorithms/Alignment/Gating.cpp:81-83 | the cutoff leaves the peak above it exactly if the counts differ and the ratio is below one |
| GatingWindow.CutoffIsShare | src/Algorithms/Alignment/Gating.cpp:83 | the cutoff is the given share of the way from the least to the greatest count, without its fraction |
| GatingWindow.FindUpper | src/Algorithms/Alignment/Gating.cpp:98-101 | the upward walk ends at the first bin not above the cutoff or at the stop bin, whichever comes first |
| GatingWindow.FindLower | src/Algorithms/Alignment/Gating.cpp:90-95 | the downward walk ends on the last bin above the cutoff, at the latest two above the peak |
| GatingWindow.WindowIsRun | src/Algorithms/Alignment/Gating.cpp:84-110 | the accepted bins are exactly the maximal circular run above the cutoff that contains the peak if and only if the upward walk does not stop early |
| GatingWindow.StopsEarlyOnlyAtZero | src/Algorithms/Alignment/Gating.cpp:98 | stopping early means: peak in bin 0, 2^64-1 not congruent to -1 modulo the bin count, and all bins up to that remainder above the cutoff |
| GateResults.ThreeBinsLoseThePeak | src/Algorithms/Alignment/Gating.cpp:98 | three concrete bins for which the walk stops at once and even the peak is rejected |
| GateResults.Gate | src/Algorithms/Alignment/Gating.cpp:76-166 | valid slots ascend strictly and are exactly those with an accepted value, each with one of its values; the width is the share of accepted bins |
| GateResults.AcceptedAreDetected | src/Algorithms/Alignment/Gating.cpp:110-129 | a slot’s accepted values are exactly those of the detections in accepted bins, moved on a slot for bins left of a wrapped window’s end |
| GateResults.MovedOnIff | src/Algorithms/Alignment/Gating.cpp:110-124 | values are moved on to the next slot exactly for the bins the walk reaches after the last one |
| GateResults.ExtractQubits | src/Algorithms/Alignment/Gating.cpp:168-191 | from raw detections: ascending slots, one detected value each, no contributing detection’s slot missing, and the exact condition for the window |
| Crc.ChecksumIsRemainder | src/Algorithms/Util/Hash.cpp:40-54 | the checksum is the complemented, byte-swapped remainder of prefix, message and 32 zeros divided by the generator polynomial of section 3.2.9 of IEEE Std 802.3, for one fixed 32-bit prefix |
| Crc.FeedIsRemainder | src/Algorithms/Util/Hash.cpp:16-19 | the shift register stays 32 shifts ahead of schoolbook polynomial division |
| Crc.RemainderRemains | src/Algorithms/Util/Hash.cpp:16-19 | that division divides: every message is a multiple of the generator plus the remainder |
| Crc.GeneratorTerms | src/Algorithms/Util/Hash.h:9 | the exponents of the generator polynomial |
| Crc.FlatAt | src/Algorithms/Util/Hash.cpp:41-44 | bytes are fed in order, each from its most significant bit |
| Crc.TableStepIsFeed | src/Algorithms/Util/Hash.cpp:43 | one table lookup equals feeding the eight bits of the byte one at a time |
| Crc.CrcTable.ComputeFddiTable | src/Algorithms/Util/Hash.cpp:9-22 | afterwards every entry is the shifted byte it stands for |
| Crc.CrcTable.CRCFddi | src/Algorithms/Util/Hash.cpp:30-55 | from an empty or complete table the call leaves a complete one and returns the bit-by-bit checksum |
| Crc.EntryOneNotZero | src/Algorithms/Util/Hash.cpp:35 | a complete table is never mistaken for an empty one |
| Crc.ShiftBijective | src/Algorithms/Util/Hash.cpp:18 | each shift step is a bijection on 32-bit states |
| Crc.BurstDetected | src/Algorithms/Util/Hash.cpp:30-55 | buffers that differ at most in 32 consecutive bits, at any bit position, have the same checksum exactly if they are equal |
| Nox.RecordLayout | src/Algorithms/Util/DataFile.h:54-59 | the fields lie side by side in the record, most significant byte first: type, coarse counter, blank bits, channel counted from one, fine counter |
| Nox.DecodeEncode | src/Algorithms/Util/DataFile.h:54-59 | loading an encoded tag gives the tag back exactly for channels below 15 and for 255, which the blank channel wraps to |
| Nox.EncodeDecode | src/Algorithms/Util/DataFile.cpp:278-295 | encoding a loaded record gives the record back exactly if its type byte says detection and its blank bits are zero |
| Nox.NoxReport.LoadRaw | src/Algorithms/Util/DataFile.cpp:278-307 | detections set the tag, configuration records leave it alone, anything else is invalid and reported as failure |
| Nox.TimesOrderTags | src/Algorithms/Util/DataFile.cpp:261-276 | over all records times are ordered exactly as (coarse, fine) and equal only for equal counters |
| Nox.NoOverflow | src/Algorithms/Util/DataFile.h:105-109 | the 64-bit conversion at 3125/1664 picoseconds a tick never wraps for 36 and 12 bits |
| Nox.NoxReport.GetTime | src/Algorithms/Util/DataFile.cpp:261-276 | the time of a detection, and zero for anything else |
| UriCodec.DecodeEncode | src/Algorithms/Datatypes/URI.cpp:476-535 | decoding undoes encoding exactly for text of seven-bit characters; any other text comes back longer |
| UriCodec.EncodedHasNoDelimiters | src/Algorithms/Datatypes/URI.cpp:459-501 | encoded text consists of unreserved characters (section 2.3 of RFC 3986), escapes and plus signs |
| UriCodec.UnreservedExact | src/Algorithms/Datatypes/URI.cpp:459-474 | the unreserved characters one by one |
| UriCodec.EncodedUnchangedIff | src/Algorithms/Datatypes/URI.cpp:484-498 | text is encoded as itself exactly if all of it is unreserved |
| UriCodec.ReservedIsEscaped | src/Algorithms/Datatypes/URI.cpp:490-496 | a space becomes a plus sign, any other reserved seven-bit character an escape of two upper-case digits |
| UriCodec.EscapesAreRead | src/Algorithms/Util/Strings.h:165-235 | an escape is read in either case, and a plus sign as a space |
| UriCodec.DecodeEncodedChar | src/Algorithms/Util/Strings.h:156-235 | what one encoded character decodes to in front of any text: itself, or seven characters for a negative one |
| UriCodec.Encode | src/Algorithms/Datatypes/URI.cpp:476-501 | the loop encodes character by character |
| UriCodec.Decode | src/Algorithms/Datatypes/URI.cpp:503-535 | the loop decodes escapes, plus signs and plain characters; an escape cut short is kept as it is |
| Uri.ParseRestoresIff | src/Algorithms/Datatypes/URI.cpp:52-199 | for all fields: parsing the printed URI succeeds and restores every field exactly if the fields are well formed (four shapes of head, delimiter-free parameters, no empty last parameter, no null in the fragment) |
| Uri.FullExample | src/Algorithms/Datatypes/URI.cpp:52-199 | one URI with all fields, printed and parsed |
| Uri.LargePortThrows | src/Algorithms/Datatypes/URI.cpp:137-145 | a number after a host alone that does not fit 64 bits is thrown; any other is cut to 16 bits |
| Uri.PortTextIsRead | src/Algorithms/Datatypes/URI.cpp:155-176 | after scheme and host, text without a readable number makes parsing fail, and a number is cut to 16 bits |
| Uri.MatchHeadAndTail | src/Algorithms/Datatypes/URI.cpp:26-28 | the expression of Appendix B of RFC 3986 finds query and fragment of a printed URI again and matches the rest as if it stood alone |
| Uri.DistinctHeadReads | src/Algorithms/Datatypes/URI.cpp:131-180 | each of the four shapes of scheme, host, port and path is read back as itself |
| Uri.OnlyDistinctHeadReads | src/Algorithms/Datatypes/URI.cpp:131-180 | nothing but those four shapes is read back as itself |
| Uri.ParsedIsFree | src/Algorithms/Datatypes/URI.cpp:117-199 | whatever is parsed, no field holds a delimiter that would end it |
| UriText.JoinRoundTrip | src/Algorithms/Datatypes/URI.cpp:182-193 | delimiter-free parameters are read back from their joined text exactly if the last one is not empty |
| UriText.StoulDecimal | src/Algorithms/Datatypes/URI.cpp:144-170 | reading a printed number gives the number |
| UriText.StoulReads | src/Algorithms/Datatypes/URI.cpp:144-170 | spaces and a sign may precede the digits and anything may follow; too large a number is out of range and a negative one wraps |
| UriObject.URI.Parse | src/Algorithms/Datatypes/URI.cpp:117-199 | the object’s fields, the result and the escaping exception are those of the specification, for every input |
| UriObject.URI.ToString | src/Algorithms/Datatypes/URI.cpp:52-101 | the loop prints the text of the fields |
| UriSetters.BuiltSurvivesIff | src/Algorithms/Datatypes/URI.cpp:373-446 | after any calls of setters the URI survives printing and parsing exactly if its path fits its other fields, no value was stored with a delimiter, and the last parameter is not empty |
| UriSetters.EncodedPathFitsIff | src/Algorithms/Datatypes/URI.cpp:393-396 | an encoded path fits a URI with scheme and host only if it is empty |
| UriSetters.SetParameterReadsBackIff | src/Algorithms/Datatypes/URI.cpp:423-441 | the value set reads back exactly if it is seven-bit text, for a key already there, or holds no escape, for a new one, whose value is stored unencoded |
| UriSetters.WithParameterExact | src/Algorithms/Datatypes/URI.cpp:423-441 | only the first parameter with the key changes; without one, the key is added encoded and the value raw |
| UriSetters.PathIsJoined | src/Algorithms/Datatypes/URI.cpp:398-421 | the path is the elements, encoded or not, with the separator between them |
| UriObject.URI.SetParameter | src/Algorithms/Datatypes/URI.cpp:423-441 | only the parameters change: the first with the key is replaced, otherwise one is added |
| UriObject.URI.SetPathElements | src/Algorithms/Datatypes/URI.cpp:398-421 | the loop joins the elements, encoded or not, with the separator between them |
| UriObject.URI.GetFirstParameter | src/Algorithms/Datatypes/URI.cpp:546-575 | the case-sensitive lookup finds the decoded value of the first parameter with the key |

## Left out

- Transport, credentials and statistics: only the contents of messages are modelled; a time-out is an abort or a call that is lost, and only safety is claimed.
- Sequence numbers, counters and slot ids are unbounded numbers; the source's wrap at 64 bits, which only the placement of detections, the stop bin of the gate, time tags and port numbers model because it matters there.
- Calls on one object are atomic where the source holds its mutex for the whole call; a listener that changes in the middle of `KeyConverter::OnKeyGeneration`, and two threads filling the CRC table at once, are not modelled.
- The publish order of blocks of one party is the order of its calls; listeners other than the next stage are left out.
- KeyPipeline.KeyConverter.OnKeyGeneration: requires a positive key size, because with size zero the source's loop does not end.
- SiftVerifier.Verifier.VerifyBases: requires that each stored intensity list is empty or as long as the emissions; the source reads past a shorter one.
- AsyncSift.SiftDetections: requires a basis for every slot inside the qubit list; the source reads past a shorter list of bases.
- AsyncSift.FilterDetections: requires that no slot equals the number of emissions and that no more slots exist than emissions; the source reads or writes past the end otherwise. The same holds for `DiscardTransmissions`.
- AlignmentResults.TransmissionHandler.DiscardTransmissions: starts once the frame has arrived, because the source waits for it without limit.
- Threshold.FindThreshold: requires that a single element does not satisfy the condition, because the source's loop does not end then; the value just past the end is a parameter.
- Offsetting.CompareValues: requires sorted slots, as the source’s binary search does; the overload for a full list of truth qubits is left out, because it reads before the start for a negative slot and does not advance when the sample count exceeds the list.
- Gating.CountDetections: a drift offset outside 64 bits, undefined in the source, is not modelled; the random choice among several values of a slot is any choice.
- Drift: the multi-channel histogram, which lacks the last reduction, `ChannelFindPeak` and the slope in `Calculate` are left out, as are `Filter::Isolate` and the Gaussian windows.
- Drift.FindPeak: doubles are exact reals, so rounding is not modelled; the same holds for the gate's cutoff and for confidences.
- Rounding.DivNearest: the form for unsigned numerators, which all callers pass; `Rounding.DivNearestSigned` is the form for signed ones.
- UriCodec.Decode: the source reads outside its table for an escape followed by a character above 127; the model treats such a character as zero.
- UriObject.URI.GetFirstParameter: only the case-sensitive lookup; lookups ignoring case, typed lookups and `RemoveParameter` are left out.
- UriObject.URI.GetHost: stands for the getters of scheme, host, path and fragment, which all decode; resolving addresses is left out.
- Nox: the shifted fields of a record are added instead of or-ed, which is the same because they share no bits; reading files of records and mapping channels to qubits are left out.
- SiftBase is not a class of its own: its packing is shared by the two parties as `Sifting.PackFrames`.
- The worker loops `DoWork` and `Processor` are modelled by the body of one turn; session control, the stub loops of error correction and privacy amplification, and key verification are left out.
