# Verified model of the sense temperature pipeline

This project models the data path of the sense system in Dafny and proves what it keeps.

- **Node** (`Sampler.dfy`, `SamplerSpec.dfy`, `Rounding.dfy`, `CStrings.dfy`): the sampling loop with its
  five-slot window, its 128-byte C string and the hand-over of ten means at a time. A sensor read is an input
  event: a sample or a failure.
- **Wire** (`Text.dfy`, `Wire.dfy`, `Parity.dfy`): decimal printing and parsing, the `value,parity,` text, its two
  encoders and the odd-parity code.
- **Server** (`Decoder.dfy`): parsing, the parity gate and interpolation, with Python's exceptions as results.
- **Pipeline** (`Pipeline.dfy`): all of these joined, over runs of any length.
- **Blockwise transfer** (`Slicer.dfy`, `Block2Server.dfy`, `Block2Client.dfy`, `Transfer.dfy`, `Diversion.dfy`, `Block1Hash.dfy`): the
  Block2 client handler against the piecewise server handler, and the Block1 hash resource (RFC 7959);
  `Diversion.dfy` adds other requests and proxy commands in between and a remote end that answers by address.
- **Message log** (`MessageLog.dfy`): the bounded list of the TCP test server.

Code that works on static variables and arrays is modelled as classes and methods over arrays, each proved against
a function; the main results are lemmas about those functions over all inputs and all runs.

## What the code does not do

Some promises hold only under a condition. The code is modelled as written, and the exact condition is proved.

- A negative mean never leaves the parity loop, because the right shift of a negative int is arithmetic on the
  compilers in use. The model records this as a hung loop; it happens if and only if five consecutive
  samples sum to less than -2 (`SamplerSpec.HangsIff`).
- `docs/SENSOR.md` says that a damaged reading is averaged out. The decoder divides accepted values by 100 and
  interpolated ones not (`Decoder.InterpolationScaleIff`), uses neighbours without rechecking them
  (`Decoder.FaultLocalityIff`) and drops damaged readings at the two ends of a batch (`Pipeline.BitFlips`).
  The recovery bounds are therefore stated in raw hundredths.
- The response handler continues after a truncated block, so a completed transfer may have gaps
  (`Transfer.TransferFaithfulIff`, `Transfer.TruncationExample`).
- The hash handler looks at no offset but zero, and a last block leaves its context without an init. A repeated
  later block changes the bytes hashed, and a last block that arrives again after a longer transfer is answered with a
  digest of an uninitialised context (`Block1Hash.RepeatedBlockIff`, and `Block1Hash.CarriesHashIff` for any stream).
- With a proxy set, a path-table request still goes out by path while its follow-ups name that bare path in Proxy-Uri
  (`Block2Client.AddressKeptIff`, `Diversion.ProxiedTableTransfer`).
- A request started during a transfer diverts its follow-ups (`Block2Client.FollowUpAimedIff`,
  `Diversion.GotBodyIff`, `Diversion.DivertedExample`), and one whose path was too long leaves them without a path
  (`Block2Client.FollowUpWithoutPath`).
- A comment at `src/csc_test_server/simple_tcp_server.py:31` speaks of the first 10 messages; the code deletes 50. The
  message numbers restart at each trim and repeat from the 152nd message on (`MessageLog.NumbersDistinctIff`).

## Model

| member | source | states |
|---|---|---|
| SamplerSpec.RunMeetsExpected | src/sensor/sensor-connected/main.c:154-208 | For every sequence of read outcomes, with no precondition, the loop's whole state (window, counter, buffer text, batches handed over, whether it hangs) is the one the moving averages of the successful reads determine |
| SamplerSpec.Conservation | src/sensor/sensor-connected/main.c:154-208 | While the run does not hang, n successful reads have handed over exactly max(0, n-4) / 10 batches; batch k is means 10k to 10k+9 in order and the buffer holds the rest, so nothing is lost, repeated or reordered |
| SamplerSpec.AverageOfSamples | src/sensor/sensor-connected/main.c:164-179 | Average i misses a fifth of the samples i to i + 4 by at most two fifths |
| SamplerSpec.SamplesSnoc | src/sensor/sensor-connected/main.c:157-163 | A successful read adds its sample, whatever it is, and a failed one adds nothing |
| SamplerSpec.HangsIff | src/sensor/sensor-connected/main.c:123-126 | The run hangs, that is, enters a shift loop that no number of rounds ends, if and only if some five consecutive samples sum to less than -2; it is then stuck on a mean whose every shift is non-zero |
| SamplerSpec.HangExample | src/sensor/sensor-connected/main.c:123-126 | A concrete run that hangs: five samples of -1 |
| SamplerSpec.SilentRun | src/sensor/sensor-m3-temperature/main.c:133-186 | The node without a network goes through the same windows, counters, texts and hangs in every run, and hands over nothing |
| SamplerSpec.RunInvariant | src/sensor/sensor-connected/main.c:154-208 | At every loop head the window is the latest four samples oldest first, at most nine means wait, a pair costs at most eight characters, and no text handed over passes 80 of the 128 characters |
| SamplerSpec.FailedReadIsSilent | src/sensor/sensor-connected/main.c:157-206 | In every reachable state a failed read changes nothing |
| SamplerSpec.PostedGrows | src/sensor/sensor-connected/main.c:200-206 | Batches handed over are never taken back or changed by later passes |
| Sampler.Node.Iterate | src/sensor/sensor-connected/main.c:154-208 | One pass over the real buffer and window array is one step of the specification, and keeps the bounds that make every copy fit |
| Sampler.Node.AppendMean | src/sensor/sensor-connected/main.c:181-191 | The two sprintf/strcat pairs append `mean,parity,`; the ten- and four-character temporaries and the buffer do not overflow for any int16 mean; a negative mean leaves only its own text behind and never returns |
| Sampler.Node.ShiftWindow | src/sensor/sensor-connected/main.c:193-196 | The in-place shift drops the oldest sample and keeps the other four in order |
| Sampler.Node.MeanOfWindow | src/sensor/sensor-connected/main.c:164-179 | The indexed sum, divided and rounded, is the mean of the window |
| Sampler.RunNode | src/sensor/sensor-connected/main.c:142-211 | The program from its zeroed start through any read outcomes is in the state of the specification's run |
| CStrings.Strcat | src/sensor/sensor-connected/main.c:186-191 | In-place append on a NUL-terminated array: the new C string is the old one and then the text |
| Rounding.MeanIsNearest | src/sensor/sensor-connected/main.c:176-179 | The emitted mean misses sum/5 by at most 2/5 and is strictly nearer than any other integer |
| Rounding.RoundFifth | src/sensor/sensor-connected/main.c:176-179 | C's round of a fifth never meets a tie and equals the floor of (sum + 2) / 5, also for negative sums |
| Rounding.SumOfFive | src/sensor/sensor-connected/main.c:164-175 | The sum of a window is that of its five samples |
| Rounding.MeanBetween | src/sensor/sensor-connected/main.c:164-179 | The mean lies between any bounds on the window, so the int16 cast is lossless |
| Rounding.MeanSlides | src/sensor/sensor-connected/main.c:164-196 | Consecutive means satisfy 5 times their distance is at most the distance of the entering and leaving samples plus 4 |
| Parity.CalculateOddParity | src/sensor/sensor-connected/main.c:118-132 | The shift loop returns the odd-parity bit; its number of rounds is the first shift that leaves zero, at most 15 for an int16 |
| Parity.ShiftLoopEndsIff | src/sensor/sensor-connected/main.c:122-126 | The shift loop ends if and only if its argument is not negative |
| Parity.BinOnes | src/server/decoder.py:18-19 | Counting `1` characters in `bin(v)` counts the set bits of the absolute value |
| Parity.OnesCountsBits | src/sensor/sensor-connected/main.c:122-126 | The count is the number of bit positions that are set |
| Parity.BitIsDigit | src/sensor/sensor-connected/main.c:122-126 | Bit k is the parity of the number over two to the power k |
| Parity.CheckIsOnes | src/server/decoder.py:18-20 | For any value and any parity token the check asks whether the set bits of the absolute value and the token add up to an odd number |
| Parity.AcceptsOnlyNodeParity | src/server/decoder.py:18-20 | Of the bits 0 and 1, `parityCheck` accepts the one the node computes and no other |
| Parity.Detection | src/server/decoder.py:18-20 | Flipping the bits of a mask leaves the verdict on a value unchanged if and only if the mask has an even number of set bits |
| Parity.XorBits | src/server/decoder.py:18-20 | The flipped value differs from the original in exactly the mask's bits |
| Parity.SingleBitErrorsCaught | src/server/decoder.py:18-20 | Every single-bit error in any position of the value, and an error in the parity bit, turns an accepted pair into a rejected one |
| Text.ParsePrint | src/server/decoder.py:5 | Parsing the printed form of any integer gives it back |
| Text.PrintNatDigitAt | src/sensor/sensor-connected/main.c:184-189 | Position k from the right of a printed natural is its k-th decimal digit, and only zero starts with a zero |
| Text.ParsePadded | src/server/decoder.py:5 | `int` accepts blanks around a number and a plus sign before it |
| Text.ParseRefuses | src/server/decoder.py:5 | A text with any character other than digits, signs and blanks is no integer |
| Text.JoinThenSplit | src/server/decoder.py:5 | Splitting undoes joining when no part holds the separator |
| Text.SplitThenJoin | src/server/decoder.py:5 | Joining undoes splitting, for every text |
| Wire.EncodeIsJoin | src/sensor/sensor-connected/main.c:184-191 | The text the node appends piece by piece is the comma-joined token list and a trailing comma |
| Wire.TokensOfEncode | src/server/decoder.py:5 | Dropping the last character, splitting and parsing a printed batch recovers exactly its integers |
| Wire.TokensPadded | src/server/decoder.py:5 | Blanks around the list and the choice of the last character make no difference to the integers read |
| Wire.EncodeExample | src/sensor/sensor-connected/main.c:184-191 | Two pairs, character by character: `12,1,7,0,` |
| Wire.EncodeInjective | src/sensor/sensor-connected/main.c:184-191 | Different batches have different texts |
| Wire.EncodersAgree | src/server/coap_client.py:17-18 | The simulator's joined payload equals the node's accumulated text for the same non-negative means, for any non-zero number of them |
| Wire.SimulatorText | src/server/coap_client.py:17-18 | For any integers, negative ones too, the simulator writes the text of the pairs of each value and the odd-parity bit of its absolute value |
| Wire.SetParityIsPair | src/server/coap_client.py:29-34 | `setParity` of any integer writes it and the odd-parity bit of its absolute value, which for the node's values is the pair the node writes |
| Decoder.DecodeTemperature | src/server/decoder.py:3-15 | The token loop raises ValueError or IndexError exactly where Python does, never indexes out of range otherwise, and puts out, token by token, the accepted values over 100 and, for rejected interior ones, the half sum of the raw neighbours, rounded down |
| Decoder.InterpolatedReading | src/server/decoder.py:11-14 | At a rejected interior pair with raw neighbours a and b the reading is an integer x with 2x <= a + b <= 2x + 1 |
| Decoder.FloorMeanLaw | src/server/decoder.py:13 | Python's `//` by two: 2x <= a + b <= 2x + 1, also below zero |
| Decoder.OutputLaw | src/server/decoder.py:6-15 | Number, order and value of all outputs of an even list of tokens, told from the tokens and the parity check alone |
| Decoder.OddRaises | src/server/decoder.py:6-7 | Any odd number of integers raises IndexError |
| Decoder.AlienRaises | src/server/decoder.py:5 | A message without a number, or with any character that is not a digit, sign, blank or comma before its last, raises ValueError |
| Decoder.DecodeOfEncode | src/server/decoder.py:3-15 | A printed batch, damaged or not, decodes to the readings of its pairs |
| Decoder.OutputCount | src/server/decoder.py:6-15 | The output is as long as the batch, less one for a failing first pair and one for a failing last pair that is not also the first |
| Decoder.ReadingAt | src/server/decoder.py:6-15 | Every accepted or interior pair has its reading at its own index, less one if the first pair was dropped |
| Decoder.AllAccepted | src/server/decoder.py:8-9 | With every pair accepted the output is the values over 100, all and in order |
| Decoder.FaultLocality | src/server/decoder.py:11-14 | Breaking an interior pair with insulated neighbours changes only its own reading, to the floor mean of its raw neighbours |
| Decoder.FaultLocalityIff | src/server/decoder.py:11-14 | Damage stays local for every broken pair if and only if neither neighbour is itself a damaged interior pair |
| Decoder.LeakExample | src/server/decoder.py:11-14 | A concrete batch in which damage to one pair changes the reading of its damaged neighbour |
| Decoder.FloorMeanBetween | src/server/decoder.py:13 | The interpolated value lies between its neighbours |
| Decoder.InterpolationScaleIff | src/server/decoder.py:9-14 | At a rejected interior pair with accepted neighbours a and b, the output lies between the outputs on both sides if and only if the distance of a and b is at least that of 99 (a + b) from 100 times the parity of a + b; the interpolated value is not divided by 100 |
| Decoder.NodeScaleIff | src/server/decoder.py:9-14 | For the non-negative values the node prints, that condition is a + b at most 1 |
| Decoder.InterpolationScaleExample | src/server/decoder.py:9-14 | A concrete batch whose damaged 0.18 degrees comes out as 18.0 |
| Pipeline.EndToEnd | src/sensor/sensor-connected/main.c:154-208 | Sampler, printer, parser and decoder together: over every run the server receives exactly the moving averages over 100, in order, up to the last full batch |
| Pipeline.RaisesAddsNothing | src/server/decoder.py:5-7 | A batch the decoder raises on adds nothing to the readings received |
| Pipeline.PostedBatchDecodes | src/server/decoder.py:3-15 | Every batch any run hands over decodes to its ten means over 100 |
| Pipeline.CleanBatch | src/server/decoder.py:3-15 | An undamaged batch of any length decodes to its means over 100 |
| Pipeline.OneDamagedPair | src/server/decoder.py:6-15 | What the server makes of a batch with one pair replaced by anything, wherever it is |
| Pipeline.BitFlips | src/server/decoder.py:6-20 | For every batch, position and mask: an even number of flips goes through unseen, an odd one is interpolated inside and dropped at the ends, all other readings exact |
| Pipeline.NeighbouringMeans | src/sensor/sensor-connected/main.c:164-196 | Neighbouring means of a run differ by at most (hi - lo + 4) / 5 |
| Pipeline.RecoveryBound | src/server/decoder.py:11-14 | For any samples and any batch of their consecutive means, of any length and damaged anywhere, a rejected interior pair with intact neighbour values is replaced within (hi - lo + 4) / 5 raw hundredths of the lost mean, lo and hi bounding just the seven samples involved |
| Pipeline.SparseDamage | src/server/decoder.py:6-15 | Under any pattern of noticed damage without two rejected neighbours, every intact mean arrives exactly and every rejected interior one within the recovery bound |
| Pipeline.DamagedRun | src/server/decoder.py:6-15 | Over any run whose batches all arrive with noticed damage and no two rejected neighbours, the server receives every intact mean over 100 and every rejected interior one within the recovery bound, each at its place in one sequence less the ends dropped before it |
| Pipeline.FlippedValueRecovered | src/server/decoder.py:6-20 | One interior value of a handed-over batch with an odd number of flipped bits is recovered within the bound and leaves the other nine readings exact |
| Slicer.SlicedIsWindow | src/network/nanocoap_server/coap_handler.c:68-81 | Piecewise slicing equals slicing the whole, for any pieces and any window |
| Slicer.WindowBytes | src/network/nanocoap_server/coap_handler.c:68-81 | A window is the bytes from its start to its end, as far as the body reaches, and nothing past the body |
| Slicer.BlockSlicer.PutBytes | src/network/nanocoap_server/coap_handler.c:69-75 | Contract of the slicer call: the buffer holds the window of everything offered so far, and the cursor passes the whole piece |
| Slicer.BlockSlicer.PutChar | src/network/nanocoap_server/coap_handler.c:71-81 | The same contract for a single character |
| Block2Server.RiotBlock2Handler | src/network/nanocoap_server/coap_handler.c:55-86 | The twelve writes leave the requested block of the version text, and nothing else, in a buffer of one block, with the M bit of section 2.2 of RFC 7959; `Block2Server.ServeIs` and `Block2Server.VersionBodyIs` say which bytes these are |
| Block2Server.BlockSizeIs | src/network/nanocoap_server/coap_handler.c:59 | A size exponent stands for 16 times two to its power (section 2.2 of RFC 7959) |
| Block2Server.ServeIs | src/network/nanocoap_server/coap_handler.c:58-85 | For any requested and server exponents the reply has the request's number, the smaller exponent, the body's bytes from number times that size on, and M exactly when the body goes on after them |
| Block2Server.VersionBodyIs | src/network/nanocoap_server/coap_handler.c:68-81 | The text is `This is RIOT (Version: ` version `) running on a ` board ` board with a ` mcu ` MCU.`, for any three names |
| Block2Server.BytesAre | src/network/nanocoap_server/coap_handler.c:21-23 | ASCII texts are sent as their character codes |
| Block2Client.GcoapClient.Send | src/network/gcoap_test/client.c:447-499 | For any request the retained path is the whole path up to a length of 63 and empty from 64 on, for lengths with or without the terminator; a proxy makes a command-line request a Proxy-Uri one and leaves a path-table request a Uri-Path one |
| Block2Client.PathBoundary | src/network/gcoap_test/client.c:487-490 | A path of 63 characters typed at the shell is retained and its first block continued; one of 64 is not retained and the first block is given up |
| Block2Client.RequestThenBlock | src/network/gcoap_test/client.c:142-177 | One request and one answered block in full, for any path, proxy setting and block number: path kept, bytes printed, and both requests sent, option by option |
| Block2Client.GcoapClient.SetProxy | src/network/gcoap_test/client.c:381-404 | The proxy commands change the setting alone; the retained path stays |
| Block2Client.GcoapClient.RespHandler | src/network/gcoap_test/client.c:92-178 | The response handler on its static state: prints arrived payloads, and asks for the next block of the retained path exactly when M is set, unless it is the first block and no path was retained |
| Block2Client.ClientRun | src/network/gcoap_test/client.c:45-56 | The client's whole state after any interleaving of requests of any method and origin, proxy commands and responses: every follow-up is a GET addressed by the path of the latest request and the latest proxy setting at its own time, payloads are printed in order of arrival, and req_count counts user requests only, modulo 65536 |
| Block2Client.EventSnoc | src/network/gcoap_test/client.c:487-499 | What one more event does to the state of any run, in literal terms |
| Block2Client.ResponseSnoc | src/network/gcoap_test/client.c:142-177 | In any run a response is followed up exactly when it is usable, has M set, and is not a first block without a path; by a GET for the next number and the same size |
| Block2Client.FollowUpAimedIff | src/network/gcoap_test/client.c:142-171 | After a request and any further events, a response with more to come makes the client ask for the next block under that request's own address if and only if the latest request retained the same path and a proxy is set exactly when the request itself went by Proxy-Uri |
| Block2Client.AddressKeptIff | src/network/gcoap_test/client.c:151-168 | With only responses in between, every follow-up keeps the address of the request it continues if and only if that was not a path-table request sent with a proxy set |
| Block2Client.CoreUnderProxyExample | src/network/gcoap_test/client.c:242 | A concrete change of address: the table's request for the core list, with a proxy set, goes on in Proxy-Uri |
| Block2Client.FollowUpWithoutPath | src/network/gcoap_test/client.c:142-158 | When the latest path was too long, a first block is given up and a later one is followed by a request with an empty path |
| Transfer.TransferMeetsExpected | src/network/gcoap_test/client.c:142-177 | Whole-run law of the two parties under any deliveries (whole, truncated, timed out, failed), for any body, block size, path, computed path length, and confirmable or not |
| Transfer.TransferStops | src/network/gcoap_test/client.c:142-177 | After any deliveries: the transfer waits if and only if nothing has failed and blocks remain, so it takes exactly its number of blocks; it has asked for 0, 1, 2 and so on once each (section 2.4 of RFC 7959) |
| Transfer.AskedInOrder | src/network/gcoap_test/client.c:142-177 | Request k of any run in full: address, no option or block k, same size and type as the first |
| Transfer.NothingAfterLoss | src/network/gcoap_test/client.c:97-111 | After a timeout or an error nothing more is printed or asked for, whatever comes later |
| Transfer.CutKeepsFront | src/network/gcoap_test/client.c:101-107 | A truncated response keeps the first bytes of its payload |
| Transfer.Blocks | src/network/nanocoap_server/coap_handler.c:55-86 | The number of exchanges is the body's length over the block size, rounded up, and one for an empty body |
| Transfer.AnswerTo | src/network/nanocoap_server/coap_handler.c:58-85 | Request n is answered with block n, with M set if and only if a block remains |
| Transfer.PrefixSafety | src/network/gcoap_test/client.c:123-177 | Without truncation, whatever is lost and whenever, the printed bytes are a prefix of the body cut at a block boundary |
| Transfer.TransferFaithfulIff | src/network/gcoap_test/client.c:101-107 | For any deliveries, the printed bytes are the whole body if and only if the blocks before the first failure reach its end and no truncated one lost a byte |
| Transfer.FinishedTransferIff | src/network/gcoap_test/client.c:142-158 | A transfer that ran to its end printed the whole body if and only if the path was retained or one block was enough, and no truncated response lost a byte |
| Transfer.TruncationExample | src/network/gcoap_test/client.c:101-107 | A concrete transfer of 17 bytes that completes with 4 printed |
| Diversion.RunAsNamed | src/network/gcoap_test/client.c:142-177 | Whole-run law of a transfer among any requests, proxy commands, foreign responses and losses, against a remote end that answers by address: what it has served, got and still waits for is told from what happened alone |
| Diversion.OthersSnoc | src/network/gcoap_test/client.c:45-56 | In any run other events go to the client alone, a loss ends the transfer and changes nothing else, and an answer after its end is ignored |
| Diversion.HasLossIff | src/network/gcoap_test/client.c:97-100 | A loss is a response of the transfer that does not arrive, anywhere in the run |
| Diversion.PieceBytes | src/network/nanocoap_server/coap_handler.c:58-85 | What an address has at block k: the body's bytes there, or nothing |
| Diversion.GotBodyIff | src/network/gcoap_test/client.c:49-51 | At any moment of such a run the answers have printed a given body if and only if each address reached (the latest path and proxy setting when each answer came) had that body's block there and those blocks reach its end |
| Diversion.DivertedExample | src/network/gcoap_test/main.c:61-64 | A concrete diverted transfer: the core list and then the board are asked for, the list goes on as the board, and 16 of its 17 bytes are printed |
| Diversion.UndisturbedTransfer | src/network/gcoap_test/client.c:49-51 | If no request that starts meanwhile retains another path and the proxy setting stays, a transfer whose address is kept has printed as many whole blocks as answers arrived before a loss, up to the body's end, and waits exactly until then |
| Diversion.ProxiedTableTransfer | src/network/gcoap_test/client.c:151-168 | A path-table transfer with a proxy set, whose remote end resolves no bare path as a Proxy-Uri, prints the body if and only if one block was enough |
| Diversion.VersionFetched | src/network/nanocoap_server/coap_handler.c:55-86 | Fetching the version text under `/riot/ver`, or under a full URI through a proxy that resolves it, prints it once as many answers have arrived as it has blocks, for any version, board and MCU names and any block size |
| Block1Hash.Sha256Resource.Handle | src/network/nanocoap_server/coap_handler.c:123-175 | The handler on its static context: code, echoed option and digest, also when the context was not initialised, and the context it leaves |
| Block1Hash.Sha256Resource.HandleAll | src/network/nanocoap_server/coap_handler.c:123-175 | Over any packet stream the context holds the payloads since the latest offset zero, or, if a last block came since, the payloads after that without an init; each reply follows from the stream before its packet, and a packet without the option is answered 2.04 with the hash of its payload wherever it stands |
| Block1Hash.PlainRequest | src/network/nanocoap_server/coap_handler.c:134-158 | After any stream a request without Block1 is answered 2.04 with the hash of its own payload, and leaves a spent, empty context |
| Block1Hash.BlockReply | src/network/nanocoap_server/coap_handler.c:134-175 | After any stream a packet with the option: Continue without a digest while M is set, else 2.04 with one; the option echoed; number 0 starts over and any other adds to what there is |
| Block1Hash.HeldSnoc | src/network/nanocoap_server/coap_handler.c:142-158 | That closed form is kept by every packet |
| Block1Hash.CarriesHashIff | src/network/nanocoap_server/coap_handler.c:142-158 | For any stream, with blocks repeated, skipped or foreign: whatever the hash, a reply carries the hash of a body if and only if its packet is a last block, an opening came after the last block before it, and the payloads from the latest opening on are that body |
| Block1Hash.SerialUploads | src/network/nanocoap_server/coap_handler.c:130-158 | In any series of serial transfers, some abandoned, Continue answers every block with M set and the last block of a complete transfer gets the hash of exactly its payloads (section 2.5 of RFC 7959) |
| Block1Hash.DuringUpload | src/network/nanocoap_server/coap_handler.c:142-147 | Inside a transfer the context holds exactly its blocks so far, whatever came before |
| Block1Hash.RepeatedBlockIff | src/network/nanocoap_server/coap_handler.c:142-158 | A block handled twice in a row, in any complete transfer after any stream: the final reply carries the transfer's hash if and only if the block is the first, or is empty and not the last |
| Block1Hash.RepetitionExample | src/network/nanocoap_server/coap_handler.c:142-158 | Concrete repetitions: a middle block handled twice hashes four bytes for three, and a last block that arrives again is answered from an uninitialised context |
| MessageLog.Server.Accept | src/csc_test_server/simple_tcp_server.py:48-59 | One connection stores `#`, the next number, `: ` and the message, drops the fifty oldest and restarts the number if it was the 101st in the list, or changes nothing |
| MessageLog.NewestKept | src/csc_test_server/simple_tcp_server.py:28-32 | After every stored message the list holds 1 to 100 messages with the newest last, and storing it dropped nothing or the fifty oldest |
| MessageLog.Retention | src/csc_test_server/simple_tcp_server.py:28-32 | After n stored messages the list is exactly the last r(n) of them in order, r(n) = n up to 100 and 51 + (n - 101) mod 50 beyond |
| MessageLog.LengthAfterTrim | src/csc_test_server/simple_tcp_server.py:28-32 | After the first trim the counter is (n - 101) mod 50 and the length is always 51 plus the counter |
| MessageLog.NumberInList | src/csc_test_server/simple_tcp_server.py:55-59 | Each entry of the list is its message, counted from the newest, under its own number |
| MessageLog.EntryReads | src/csc_test_server/simple_tcp_server.py:55-59 | Entry i of the list read back: with j the index of its message among all n stored, the number is j + 1 up to j = 100 and (j - 101) mod 50 + 1 after, and the text after the number and `: ` is message j |
| MessageLog.LabelReads | src/csc_test_server/simple_tcp_server.py:57 | Number and text can be read off a label; the message hi under number 1 is `#1: hi` |
| MessageLog.LabelNumber | src/csc_test_server/simple_tcp_server.py:57 | Equal labels have equal numbers and equal texts |
| MessageLog.EarlyEntries | src/csc_test_server/simple_tcp_server.py:55-59 | Up to a hundred messages are all there, under the numbers 1, 2, 3 and so on |
| MessageLog.NumbersDistinctIff | src/csc_test_server/simple_tcp_server.py:55-59 | No two entries of the list carry the same number if and only if at most 151 messages were ever stored |

## Left out

- Sensor registers, reset, sleeps, threads and shell mains: hardware and RTOS calls.
- The result of `gcoap_post`, which the loop ignores: conservation is about batches handed over, not delivered.
- The debug print of each reading in `src/sensor/sensor-m3-temperature/main.c`.
- Floating-point rounding: `round` and the division are over exact rationals, which agree for sums of five int16 values.
- Python's `int` and `strip` beyond ASCII, and underscores between digits: `Text.ParseInt` reads optional blanks, a sign and ASCII digits.
- CoAP encoding, sockets, message types other than the ACK rule, DTLS, retransmission and Observe: inside RIOT and aiocoap, which are not part of this model.
- Slicer.BlockSlicer.PutBytes: the library's body is not part of this model; the contract is the window of section 2.4 of RFC 7959.
- The library's error reply to a request past the end of the body: `Block2Server.Serve` answers it with an empty block; no run of the modelled client asks for one.
- Block numbers beyond the 20 bits of a Block option: numbers are unbounded.
- A truncated response is modelled as losing payload bytes only; its options are taken to be complete.
- Proxy commands and proxied requests whose address does not resolve: they change nothing.
- `Transfer` answers with one body whatever address a request names; `Diversion` answers by address.
- The payload of a user's POST or PUT: no property of the retained path or the follow-ups depends on it.
- SHA-256 and hex formatting: one function of the bytes absorbed since an init, another for a context without one, which a final leaves zeroed as static storage starts. Concurrent Block1 clients, which the handler's own comment excludes, are covered as far as their packets are handled one after the other.
- `src/network/gcoap/client.c` and `src/sensor/sensor-connected/client.c`: near-copies of the modelled handler.
- `/riot/value`, `/echo/`, `/cli/stats`, InfluxDB, JSON, Flask and the shell scripts: thin handlers around library calls, and plumbing.
