# A verified model of the MTProto client

This project models the stateful and arithmetic engines of the MTProto 2.0 client in Dafny
and proves what they guarantee. `dafny verify dfyconfig.toml` checks everything.

The source's objects are classes with the source's fields, its loops are loops with
invariants, and every method is proved against a function on values; the theorems are about
those functions and so about the methods.

| files | subject |
|---|---|
| `UpdateState`, `UpdateSequencing`, `UpdateHandler`, `UpdateTheorems`, `HandlerSteps`, `DeliveryOrder`, `DifferenceTheorems` | the pts/qts/seq state machine: reorder buffer, drain loop, gap timer, differences |
| `NumberTheory`, `DiffieHellman`, `QuadraticResidues`, `Factoring`, `AuthKey`, `KeyExchange` | modular exponentiation, Miller-Rabin, the residue checks on generators, gcd, Pollard's rho, number/byte conversions, the DH attempt loop |
| `Crc32`, `Framing`, `FramingTheorems`, `Transports`, `Obfuscation` | the table-driven CRC (section 3.2.9 of IEEE 802.3), the four TCP framings, the obfuscation wrapper |
| `Bytes`, `Buffers`, `TlCodec`, `TlBuffers`, `InlineStrings`, `WireFormats` | integers in buffers, the layouts of all the wire formats, the TL encoding, the growing writer and the reader, the two hand-written string parsers |
| `AesIge`, `Encryption`, `EndToEnd` | IGE chaining, message layout, padding and the receiver's checks; encrypted messages over the transports |
| `Containers`, `Dispatch`, `ReplayWindow` | msg_container, msgs_ack, nested dispatch, the ack queue, replay protection |
| `Sessions`, `RpcCalls`, `RpcHandler`, `RpcTheorems` | message ids, sequence numbers, pending calls and their timers |
| `FileParts`, `UploadPool`, `Downloads` | file splitting, the concurrent upload workers, the download loop |

## Conventions

- A thrown exception is `None` or a constructor of a result type; where the source has
  written part of its output before it throws, the contract says what is left.
- Randomness, clocks, the peer's answers and the order of asynchronous completions are
  inputs: parameters of a method, or steps of a run over which the theorems quantify.
- AES is an abstract block permutation with an inverse (a keystream for CTR, section 6.5 of
  NIST SP 800-38A); SHA-1 and SHA-256 are abstract functions with 20 and 32 bytes of output.
- Timers are explicit: `armed` holds what setTimeout has started and nothing has cleared, and a
  firing is a step. Event listeners do not call back into the object that emits.
- The field `seq` is called `seqNo`, because `seq` is a Dafny keyword. The words of the CRC are
  naturals with an exclusive-or on naturals, and the proofs bound them below 2^32.

## What the proofs brought out

Where the code differs from its documentation, the model follows the code.

- `obfuscation.ts:19-50`: the banned first words spell HEAD, POST, GET, OPTI and a TLS record
  when stored least significant byte first, but the draw is read most significant first. Of
  the prefixes the list names only 0xdddddddd and 0xeeeeeeee are rejected
  (`OnlyPalindromesAreBanned`).
- `update-state.ts:57-105`: a counter of 0 accepts anything, so from an uninitialized state the
  order of delivery matters and updates are lost (`UninitializedCounterLosesUpdates`), and the
  same happens from a negative counter when it passes 0. Delivery order is free exactly from
  positive counters (`OrderIsFreeFromPositive`).
- `update-handler.ts:84-103`: a wrapper behind a seq gap is buffered without its seq, so wrappers
  bring the seq to their end exactly when they arrive in order (`WrappersNeedTheirOrder`); two
  swapped ones leave the third a gap (`SwappedWrappersStall`).
- `update-handler.ts:144-163`: after a difference no timer is armed, so updates that stay
  buffered wait for the next gap with no difference asked for
  (`DifferenceLeavesTheBufferUnwatched`). For updates taken from chains nothing stays buffered
  exactly when those ahead of the new counters form chains from them
  (`DifferenceEmptiesTheBuffer`).
- `session.ts:57-63`: a reset starts message ids from zero, so an id can come twice; the second
  registration replaces the first, the old timer deletes the new entry and the new call is
  never settled (`ResetLosesACall`). Two calls invoked around a reset clash before either waits
  (`ResetBetweenTwoSends`). Calls stay consistent exactly when no id is registered while it is
  still waiting (`SafeUnlessAnIdClashes`).
- `padded.ts:59-118`: the padding is never taken off. A sealed message is always 8 bytes past a
  multiple of 16, so over the padded transport every one is padded by 8 bytes and refused as not
  being whole blocks; over the other transports every one opens (`SealedFrameOpens`,
  `EveryMessageArrives`).
- `file-manager.ts:120-129`: an upload with fewer than one worker succeeds and sends nothing
  (`UploadCompletes`).
- `abridged.ts:55-72`: the header counts words, so a payload survives exactly when its length is
  a multiple of four, up to 16 MiB (`AbridgedDecodes`).
- `full.ts:108-129`: a frame with a wrong CRC is skipped without counting it, so after one damaged
  frame the receiver waits for its number for ever and skips everything that follows
  (`DamageStopsDelivery`).
- `update-handler.ts:101-109`: a wrapper without updates behind a gap arms the gap timer over an
  empty buffer (`EmptyWrapperArmsATimer`); in runs without such wrappers a timer runs only while
  updates wait (`EmptyBufferHasNoTimer`).
- All four decoders discard the buffer on a bad length, so how the stream is cut matters from
  there on; a cut is harmless for every continuation exactly when nothing was discarded before
  it (`CutIsHarmless`).
- `writer.ts:22-36`: a writer made with capacity 0 never grows and its first write does not
  return (`DoublingReaches`). `writer.ts:50-59`: the range of a long is checked after 2^64 is
  subtracted, so values from 2^64 to 2^64 + 2^63 - 1 are written as if they were 2^64 smaller.
  The writer accepts byte strings that the reader refuses (`BlobRoundTrip`).
- `pq.ts:54-72`: the comment promises primes p < q. The code returns them for a product of two
  primes (and p = q for a square); for other numbers it returns two ordered factors, and for 2
  the pair (1, 2). An odd prime is the one case that no draws ever factor: it throws for 3,
  where the range to draw from is empty, and retries for ever on the others
  (`AllButOddPrimesFactor`).
- `dh.ts:70-73`: a negative number's bit length counts its sign. `dh.ts:136-145`: exactly the two
  bounds on g_a that the protocol text excludes are accepted (`BoundsAreAccepted`).
- `dh.ts:98-126`: the residue conditions are exactly right. Modulo a safe prime above 7 a
  generator fits exactly when it lies in the subgroup of prime order (`ResidueFitsExactly`).
- `encryption.ts:68-130`: decryption ignores the key id in front and accepts 12 to 1024 bytes of
  padding where encryption writes 12 to 27 (`OpensExactlyTheSealed`).
- `container.ts:100-107`: a negative body length passes the bounds check and moves the offset
  back, and there are containers that unpack with one (`NegativeLengthUnpacks`); the input
  starts with the packing of what was unpacked exactly when no length is negative
  (`PackUndoesUnpack`).
- `files.ts:160-189`: the comment allows 4000 parts, the code aims at 3000 (`ComputePartSize`).

## Model

| member | source | states |
|---|---|---|
| UpdateState.UpdateState.ApplyPts | packages/mtproto/src/update-state.ts:57-79 | The verdict on a received pts and count: accepted at an uninitialized counter or where it starts at the counter, otherwise a duplicate or a gap; only an accepted one moves pts, and nothing else. |
| UpdateState.UpdateState.ApplyQts | packages/mtproto/src/update-state.ts:89-105 | The same for qts with a count of one. |
| UpdateState.UpdateState.ApplySeq | packages/mtproto/src/update-state.ts:115-136 | The verdict on a seq: 0 is accepted and changes nothing, the next one is accepted and taken, any other is a duplicate or a gap. |
| UpdateHandler.UpdateHandler.ProcessUpdate | packages/mtproto/src/update-handler.ts:53-70 | The whole new handler (state, buffer, timer, events, discarded updates) after one update; PtsUpdate and QtsUpdate say what that is. |
| UpdateHandler.UpdateHandler.HandleApplyResult | packages/mtproto/src/update-handler.ts:292-320 | Emit and drain on acceptance and silence the timer of an emptied buffer, record a duplicate, buffer and arm the timer on a gap. |
| UpdateHandler.UpdateHandler.ProcessUpdates | packages/mtproto/src/update-handler.ts:84-127 | The whole new handler after a wrapper of updates with seq, seqStart and date; WrapperCaseByCase says what that is. |
| UpdateHandler.UpdateHandler.ApplyDifference | packages/mtproto/src/update-handler.ts:144-163 | The whole new handler after a difference: new state, timer cleared, its updates emitted, the buffer drained. |
| UpdateHandler.UpdateHandler.DrainBuffer | packages/mtproto/src/update-handler.ts:207-256 | The multi-pass loop terminates and does what repeating a pass until it emits nothing does. |
| UpdateHandler.UpdateHandler.StartGapTimer | packages/mtproto/src/update-handler.ts:262-269 | A second start changes nothing; otherwise exactly one new timer is armed. |
| UpdateHandler.UpdateHandler.TimerExpires | packages/mtproto/src/update-handler.ts:262-277 | A firing timer is no longer armed, is forgotten and asks for the difference. |
| UpdateHandler.UpdateHandler.ClearGapTimer | packages/mtproto/src/update-handler.ts:282-287 | The remembered timer is disarmed and forgotten. |
| UpdateTheorems.NothingIsLost | packages/mtproto/src/update-handler.ts:53-127 | Over every run of updates, wrappers, timer firings and differences, what was handed in is, as a multiset, exactly what was emitted, discarded or is still buffered. |
| UpdateTheorems.DrainPartitions | packages/mtproto/src/update-handler.ts:207-256 | A drain splits its input into emitted, discarded and still waiting updates, none twice. |
| UpdateTheorems.SortIsStable | packages/mtproto/src/update-handler.ts:210-215 | The drain order is sorted by pts, and updates with the same key keep their order. |
| UpdateTheorems.DrainReachesFixpoint | packages/mtproto/src/update-handler.ts:207-256 | When a drain stops, the state it reached judges every update still waiting as a gap, although qts updates are not sorted by qts. |
| UpdateTheorems.EmissionsTile | packages/mtproto/src/update-handler.ts:53-127 | Without a difference, from a positive pts (or qts) and counts that are not negative, the emitted updates abut exactly from the initial counter to the current one, over every run. |
| UpdateTheorems.WrapperRangesAbut | packages/mtproto/src/update-handler.ts:84-127 | Without a difference, from a positive seq the accepted wrappers' ranges abut from the initial seq to the current one. |
| UpdateTheorems.AnyOrderEmitsTheChain | packages/mtproto/src/update-handler.ts:53-70 | Any delivery order of a chain, with repeats and with the other line's updates in between, emits exactly the chain, in order, each update once, and leaves none of it buffered. |
| UpdateTheorems.AnyInterleavingEmitsBothChains | packages/mtproto/src/update-handler.ts:207-256 | A pts chain and a qts chain interleaved in any order with repeats are both emitted in order, and the buffer ends empty. |
| UpdateTheorems.UninitializedCounterLosesUpdates | packages/mtproto/src/update-state.ts:57-105 | From a counter of 0 a chain of two delivered backwards loses its first update. |
| UpdateTheorems.AtMostOneTimer | packages/mtproto/src/update-handler.ts:262-287 | Over every run the armed timers are exactly the one the handler remembers, if any. |
| UpdateTheorems.WaitingBufferIsWatched | packages/mtproto/src/update-handler.ts:292-320 | Over every run a buffer that is not empty has its timer armed, or, since it was last empty, an armed timer fired and its firing emitted need-difference, or a difference was applied. |
| HandlerSteps.PtsUpdate | packages/mtproto/src/update-handler.ts:53-70 | For an update with pts and count: at a zero counter or where it starts at the counter it is emitted, the buffer drained from its end, and a buffer so emptied has no timer left; one that ends behind is only discarded; any other waits, its gap reported and a timer running. |
| HandlerSteps.QtsUpdate | packages/mtproto/src/update-handler.ts:53-70 | The same for an update with qts only. |
| HandlerSteps.WrapperCaseByCase | packages/mtproto/src/update-handler.ts:84-127 | For every wrapper: without a seq, at an uninitialized seq or with the next seq it does what its updates do one by one, takes its last seq and its date and reports the state; one that is not ahead is only discarded; any other only waits. |
| HandlerSteps.WrapperWithoutSeq | packages/mtproto/src/update-state.ts:115-119 | A wrapper with seq 0 has the emissions, buffer, discarded updates and seq of delivering its updates one by one. |
| HandlerSteps.DifferenceTakesOver | packages/mtproto/src/update-handler.ts:144-163 | A difference takes over the position, its seq and date unchanged by the drain, stops the timer, and emits its updates, then those it frees, then the new state. |
| HandlerSteps.PassKeepsOrder | packages/mtproto/src/update-handler.ts:220-250 | What a pass emits, discards and leaves each keeps the order of the buffer. |
| HandlerSteps.EveryFiringAsks | packages/mtproto/src/update-handler.ts:274-277 | Over every run need-difference is emitted exactly as often as an armed timer fires. |
| HandlerSteps.EmptyBufferHasNoTimer | packages/mtproto/src/update-handler.ts:304-307 | Over every run whose wrappers carry updates, an empty buffer has no timer armed. |
| HandlerSteps.EmptyWrapperArmsATimer | packages/mtproto/src/update-handler.ts:101-109 | A wrapper without updates behind a gap is the exception, from every position. |
| UpdateTheorems.DifferenceIsAccountedFor | packages/mtproto/src/update-handler.ts:144-163 | A difference loses nothing, emits its updates before the ones it frees, leaves only gaps buffered, and leaves no timer armed. |
| DifferenceTheorems.DifferenceLeavesTheBufferUnwatched | packages/mtproto/src/update-handler.ts:144-163 | For every state and every update that is a gap in it: the update and then a difference that does not fill the gap leave it buffered, with no timer and no need-difference. |
| DifferenceTheorems.DifferenceClearsALine | packages/mtproto/src/update-handler.ts:144-163 | Of buffered updates taken from a chain a difference leaves none exactly when those ahead of the new counter form a chain from it. |
| DifferenceTheorems.DifferenceEmptiesTheBuffer | packages/mtproto/src/update-handler.ts:144-163 | The buffer is empty after a difference exactly when that holds for pts and for qts. |
| DeliveryOrder.OrderIsFreeFromPositive | packages/mtproto/src/update-state.ts:57-105 | Every chain is emitted in order for every order of delivery exactly when the counter starts positive. |
| DeliveryOrder.WrappersNeedTheirOrder | packages/mtproto/src/update-handler.ts:84-127 | Wrappers whose ranges abut bring the seq to their end exactly when they arrive in order, whatever is repeated. |
| DeliveryOrder.SwappedWrappersStall | packages/mtproto/src/update-handler.ts:84-103 | After two swapped wrappers the seq stands at the first one's end, and the third is buffered as a gap. |
| DiffieHellman.ModPow | packages/crypto/src/dh.ts:5-20 | base^exp mod m for every signed base, exp >= 0 and m >= 1; 1 mod m for a negative exponent. |
| NumberTheory.Fermat | packages/crypto/src/dh.ts:39-65 | a^(p-1) is 1 modulo a prime p that does not divide a: what the test rests on. |
| NumberTheory.SquareRootsOfOne | packages/crypto/src/dh.ts:49-62 | Modulo a prime only 1 and -1 square to 1: what the squaring loop rests on. |
| DiffieHellman.MillerRabin | packages/crypto/src/dh.ts:26-68 | The loops accept exactly the numbers for which every base tried passes. |
| DiffieHellman.PassesMeans | packages/crypto/src/dh.ts:31-62 | A base passes exactly when, with n - 1 split into odd d and 2^r, its d-th power is 1 or one of the r powers d, 2d, 4d, ... is -1 modulo n. |
| DiffieHellman.ProbablePrimeMeans | packages/crypto/src/dh.ts:39-47 | The bases tried are the first primes up to 37, as many as rounds, those below n. |
| DiffieHellman.PrimesAreAccepted | packages/crypto/src/dh.ts:26-68 | No prime is ever rejected. |
| DiffieHellman.SmallFactorIsRejected | packages/crypto/src/dh.ts:26-68 | A composite with a prime factor up to 37 is always rejected when all twelve bases are tried. |
| DiffieHellman.ExactBelow1681 | packages/crypto/src/dh.ts:26-68 | Below 41 squared the test accepts exactly the primes. |
| DiffieHellman.BitLengthMeans | packages/crypto/src/dh.ts:70-73 | The length of the binary text is k exactly for numbers from 2^(k-1) to 2^k - 1. |
| DiffieHellman.IsGoodPrime | packages/crypto/src/dh.ts:82-129 | Accepted exactly: 2048 bits, the residue that fits g, and the test with twenty rounds passed by the number and its half; so every such safe prime is accepted. |
| QuadraticResidues.Gauss | packages/crypto/src/dh.ts:98-126 | a^((p-1)/2) is 1 or -1 as the multiples of a in the upper half are even or odd in number: what the residue conditions rest on. |
| QuadraticResidues.Reciprocity | packages/crypto/src/dh.ts:98-126 | That value depends on p modulo 4a only, and on how. |
| QuadraticResidues.ResidueFitsExactly | packages/crypto/src/dh.ts:98-126 | Modulo a safe prime above 7 the residue condition on each generator from 2 to 7 holds exactly when its ((p-1)/2)-th power is one. |
| QuadraticResidues.GeneratorHasPrimeOrder | packages/crypto/src/dh.ts:75-129 | So an accepted generator of a safe prime has order exactly (p-1)/2, a prime. |
| DiffieHellman.GeneratedSubgroupIsLarge | packages/crypto/src/dh.ts:75-129 | For a safe prime p and 1 < g < p - 1 no power of g below (p-1)/2 is 1, so g generates a large subgroup. |
| Factoring.Gcd | packages/crypto/src/pq.ts:3-12 | The result has exactly the common divisors of both arguments as divisors, for signed arguments. |
| Factoring.GcdIsUnique | packages/crypto/src/pq.ts:3-12 | That property determines the result. |
| Factoring.TortoiseMeetsHare | packages/crypto/src/pq.ts:39-47 | Some i from 1 to n has x_i = x_2i, by counting values. |
| Factoring.TortoiseAndHare | packages/crypto/src/pq.ts:36-49 | The inner loop ends within n rounds, with the gcd of the first round in which it is not 1. |
| Factoring.PollardRho | packages/crypto/src/pq.ts:28-53 | For odd n the gcd of the first draw whose gcd is not n, a proper divisor, and no result exactly when every draw's gcd is n; 2 for even n; the range to draw from is empty exactly for 3. |
| Factoring.FactorizePQ | packages/crypto/src/pq.ts:60-72 | The ordered pair of that divisor and its cofactor: proper from 4 on, and the pair of primes for a product of two primes; which inputs throw. |
| Factoring.AllButOddPrimesFactor | packages/crypto/src/pq.ts:28-72 | For pq > 1, some draws yield a pair exactly when pq is not an odd prime, and then one certain draw does so wherever it turns up. |
| AuthKey.MinimalRoundTrip | packages/mtproto/src/auth-key-exchange.ts:70-83 | The minimal big-endian form decodes back and starts with no zero byte. |
| AuthKey.FixedRoundTrip | packages/mtproto/src/auth-key-exchange.ts:80-91 | The fixed form has its length and decodes back exactly when the number fits. |
| AuthKey.BigEndian | packages/mtproto/src/auth-key-exchange.ts:80-83 | The most significant byte comes first. |
| AuthKey.AuthKeysAgree | packages/mtproto/src/auth-key-exchange.ts:322-331 | Client and server compute the same 256 bytes, the encoding of g^(ab) mod p. |
| KeyExchange.AgreeOnKey | packages/mtproto/src/auth-key-exchange.ts:301-425 | The attempts made are the longest run that the checks and the answers allow, at most ten, each with its g_b and the retry id from the previous key; there is one exactly when the prime, g_a and the first g_b pass. A key comes out exactly of a last answer dh_gen_ok whose hash is the SHA-1 of new nonce, 1 and the key's hash, and is that attempt's key; every earlier answer is a dh_gen_retry with the hash under 2. |
| KeyExchange.BoundsAreAccepted | packages/crypto/src/dh.ts:136-145 | For a 2048-bit prime the check accepts the strict interval and exactly its two bounds. |
| KeyExchange.Exchange.ServerAgrees | packages/mtproto/src/auth-key-exchange.ts:322-331 | The key of every attempt has 256 bytes and is what the server computes from that attempt's g_b. |
| Crc32.BuildTable | packages/transport/src/crc32.ts:6-19 | Entry i of the table is eight division steps of i. |
| Crc32.ComputeCrc | packages/transport/src/crc32.ts:25-31 | The table-driven loop equals the bit-by-bit polynomial division on every buffer. |
| Crc32.PolynomialOfTheStandard | packages/transport/src/crc32.ts:8-19 | The constant has the coefficients of the generator of IEEE 802.3, reflected. |
| Crc32.KnownValues | packages/transport/src/crc32.ts:25-31 | The CRC of four bytes 0xff is 0xffffffff and that of ff ff ff 7f is 0x12477cdf. |
| Crc32.RegisterIsBitwise | packages/transport/src/crc32.ts:25-31 | Feeding whole bytes into the register is feeding their bits one by one. |
| Crc32.TableStep | packages/transport/src/crc32.ts:26-29 | The step with the shifted register and the table entry is eight division steps. |
| Crc32.FixedResidue | packages/transport/src/tcp/full.ts:105-118 | A frame ends with its own CRC exactly when the whole frame leaves one fixed register. |
| Crc32.BurstIsDetected | packages/transport/src/tcp/full.ts:105-118 | A change confined to four consecutive bytes of a frame, across payload and CRC too, makes the CRC wrong. |
| FramingTheorems.ChunksDoNotMatter | packages/transport/src/tcp/full.ts:78-142 | For each framing, feeding a stream in any chunks gives the frames, errors, leftover bytes and sequence of feeding it whole, when no length error discards the buffer. |
| FramingTheorems.CutIsHarmless | packages/transport/src/tcp/abridged.ts:74-122 | Exactly when decoding the first part discards nothing may the stream be cut there, whatever follows. |
| FramingTheorems.SplitDecode | packages/transport/src/tcp/intermediate.ts:62-91 | What one call does on two parts together, discards included. |
| FramingTheorems.AbridgedDecodes | packages/transport/src/tcp/abridged.ts:55-122 | A frame at the front of the buffer is delivered as sent exactly for whole words up to 16 MiB. |
| FramingTheorems.FullDecodes | packages/transport/src/tcp/full.ts:62-142 | A Full frame with the expected sequence number is delivered, or discarded as too large, by its length alone. |
| FramingTheorems.FrameDecodes | packages/transport/src/tcp/padded.ts:59-118 | For each framing a frame that could be written is delivered as sent exactly when its payload is legal (padded: with its padding). |
| FramingTheorems.StreamDecodes | packages/transport/src/tcp/padded.ts:59-118 | The frames of any list of legal packets decode to exactly that list and leave nothing. |
| FramingTheorems.StreamRoundTrip | packages/transport/src/tcp/full.ts:62-142 | The same however the stream is cut. |
| FramingTheorems.DamagedFrameIsSkipped | packages/transport/src/tcp/full.ts:78-142 | A Full frame changed within four consecutive bytes behind its length field is skipped as a whole. |
| WireFormats.FullFrameLayout | packages/transport/src/tcp/full.ts:62-76 | Total length, sequence number, payload and the CRC by bitwise division of all before, in this order and each in four bytes. |
| WireFormats.AbridgedFrameLayout | packages/transport/src/tcp/abridged.ts:55-72 | One byte counts the words below 508 bytes, otherwise 0x7f and three bytes do; the payload follows. |
| WireFormats.PrefixedFrameLayout | packages/transport/src/tcp/padded.ts:59-70 | Four bytes of length and the data, which the padding fills up to whole blocks of 16. |
| WireFormats.RefusedLengths | packages/transport/src/tcp/abridged.ts:96-107 | For each framing exactly which announced lengths are refused, and whether one byte or the whole buffer goes. |
| WireFormats.FullDeliversItsFrames | packages/transport/src/tcp/full.ts:85-138 | A Full receiver delivers a payload exactly when the buffer starts with the frame that carries it under the number it waits for. |
| WireFormats.OtherFramesAreSkipped | packages/transport/src/tcp/full.ts:120-129 | A frame under any other number is skipped as a sequence mismatch. |
| WireFormats.DamageStopsDelivery | packages/transport/src/tcp/full.ts:104-129 | After one frame damaged by a four-byte burst none of the frames sent behind it is ever delivered: each is a sequence mismatch. |
| Transports.AbridgedTransport.EncodePacket | packages/transport/src/tcp/abridged.ts:55-72 | The buffer written in place is the frame, one-byte and four-byte header alike. |
| Transports.AbridgedTransport.DecodePacket | packages/transport/src/tcp/abridged.ts:74-122 | The loop consumes the buffer and returns, reports and keeps exactly what the specification of the framing says. |
| Transports.IntermediateTransport.EncodePacket | packages/transport/src/tcp/intermediate.ts:55-60 | The buffer written in place is the frame; lengths from 2^32 throw. |
| Transports.IntermediateTransport.DecodePacket | packages/transport/src/tcp/intermediate.ts:62-91 | As for Abridged. |
| Transports.PaddedIntermediateTransport.EncodePacket | packages/transport/src/tcp/padded.ts:59-70 | The frame of the payload with its alignment padding. |
| Transports.PaddedIntermediateTransport.DecodePacket | packages/transport/src/tcp/padded.ts:72-118 | As for Abridged. |
| Transports.FullTransport.EncodePacket | packages/transport/src/tcp/full.ts:62-76 | The frame under the current sequence number with its CRC, and the number moves on by one. |
| Transports.FullTransport.DecodePacket | packages/transport/src/tcp/full.ts:78-142 | As for Abridged, with the receive sequence; a bad CRC or sequence skips the frame and leaves the sequence. |
| Obfuscation.OnlyPalindromesAreBanned | packages/transport/src/tcp/obfuscation.ts:19-50 | Of the words listed as banned prefixes, those that the retry loop rejects. |
| Obfuscation.RejectedMeans | packages/transport/src/tcp/obfuscation.ts:42-57 | A draw is rejected exactly when it starts with 0xef, starts with one of the seven words byte for byte as written, or has four zero bytes from byte 4. |
| Obfuscation.GenerateObfuscatedInit | packages/transport/src/tcp/obfuscation.ts:36-93 | The retry loop ends with the first acceptable draw, all before it being rejected; the encryptor is keyed from bytes 8..40 and 40..56 of what is sent, the decryptor from bytes 24..56 and 8..24 reversed, and the magic is at byte 56 under the keystream. |
| Obfuscation.PeerRecoversMagic | packages/transport/src/tcp/obfuscation.ts:59-92 | A peer keyed from bytes 8 to 55 of the init finds the magic at byte 56. |
| Obfuscation.AesCtr.Encrypt | packages/transport/src/tcp/obfuscation.ts:160-164 | Each byte of the data xor the keystream byte at the cipher's position, which moves on by the length. |
| Obfuscation.CiphertextIsXored | packages/transport/src/tcp/obfuscation.ts:160-164 | Frames encrypted one after another are the whole stream encrypted at once. |
| Obfuscation.ObfuscatedRoundTrip | packages/transport/src/tcp/obfuscation.ts:160-170 | Obfuscated frames of legal packets, cut anywhere, decode to exactly the packets. |
| Obfuscation.ObfuscatedTransport.EncodePacket | packages/transport/src/tcp/obfuscation.ts:160-164 | The inner frame under the keystream, for each inner transport. |
| Obfuscation.ObfuscatedTransport.DecodePacket | packages/transport/src/tcp/obfuscation.ts:166-170 | The inner decoder on the decrypted bytes. |
| AesIge.AesIgeEncrypt | packages/crypto/src/aes-ige.ts:31-62 | For every block i, byte by byte: C_i is the cipher of P_i xor C_(i-1), xor P_(i-1), with the halves of the IV before the first; exactly bad lengths throw. |
| AesIge.AesIgeDecrypt | packages/crypto/src/aes-ige.ts:70-101 | For every block i, byte by byte: P_i is the inverse cipher of C_i xor P_(i-1), xor C_(i-1); exactly bad lengths throw. |
| AesIge.DecryptUndoesEncrypt | packages/crypto/src/aes-ige.ts:31-101 | For any block permutation and any number of blocks. |
| AesIge.EncryptUndoesDecrypt | packages/crypto/src/aes-ige.ts:31-101 | And the other way round. |
| AesIge.OnlyOneCipher | packages/crypto/src/aes-ige.ts:46-59 | Those equations leave one ciphertext. |
| Encryption.EncryptMessage | packages/mtproto/src/encryption.ts:20-60 | For a 256-byte auth key: the last 8 bytes of its SHA-1, then a message key and IGE ciphertext whose hashes and whose key and IV are given byte range by byte range, of a plaintext with each field in its place, the data and the padding; exactly fields that do not fit throw. |
| Encryption.PaddingIsLeast | packages/mtproto/src/encryption.ts:40-46 | The padding is 12 to 27 bytes, and the shortest from 12 on that fills the last block. |
| Encryption.DecryptMessage | packages/mtproto/src/encryption.ts:68-130 | For a 256-byte auth key a message comes out exactly when the input is, by the same byte ranges (eight further for server messages), one that carries it with 12 to 1024 bytes of padding. |
| Encryption.HashesDecideTheKeys | packages/crypto/src/key-derivation.ts:13-41 | Which bytes of which two hashes make the AES key and the IV, for both directions. |
| Encryption.ParseUndoesLayout | packages/mtproto/src/encryption.ts:106-130 | A laid-out plaintext parses back exactly with 12 to 1024 bytes of padding. |
| Encryption.DecryptUndoesEncrypt | packages/mtproto/src/encryption.ts:20-130 | What a client encrypts is decrypted to every field, and no check refuses it. |
| Encryption.OpensExactlyTheSealed | packages/mtproto/src/encryption.ts:68-130 | Decryption succeeds exactly on the sealed plaintexts of a message, whatever key id is in front. |
| EndToEnd.SealedFrameOpens | packages/transport/src/tcp/padded.ts:59-118 | The delivered frame of a sealed message opens to the message exactly when the transport is not the padded one. |
| EndToEnd.EveryMessageArrives | packages/mtproto/src/connection.ts:318-337 | Sealed messages framed, obfuscated and cut anywhere arrive one frame each, and every frame opens to its message exactly over the transports that do not pad. |
| TlBuffers.TLWriter.EnsureCapacity | packages/binary/src/writer.ts:22-36 | Growing keeps the contents and makes room; it throws exactly above 50 MB. |
| TlBuffers.TLWriter.WriteInt32 | packages/binary/src/writer.ts:38-42 | Appends four bytes, exactly for values that fit and within 50 MB. |
| TlBuffers.TLWriter.WriteInt64 | packages/binary/src/writer.ts:50-59 | Appends eight bytes; exactly which values throw. |
| TlBuffers.TLWriter.WriteBytes | packages/binary/src/writer.ts:85-122 | Appends header, data and zero padding. |
| TlBuffers.TLWriter.WriteValue | packages/binary/src/writer.ts:85-138 | Appends the encoding of a whole nested value, exactly when it fits within 50 MB, and otherwise stops inside it. |
| TlBuffers.TLWriter.WriteVector | packages/binary/src/writer.ts:132-138 | The vector header and the items, likewise. |
| TlBuffers.DoublingReaches | packages/binary/src/writer.ts:22-36 | The growth loop gets to a required size exactly from a positive capacity. |
| TlBuffers.TLReader.ReadInt32 | packages/binary/src/reader.ts:32-37 | Takes four bytes off the front, or throws and leaves the offset. |
| Bytes.FourValues | packages/binary/src/reader.ts:39-44 | Four bytes are read least significant first. |
| Bytes.EightValues | packages/binary/src/reader.ts:46-51 | Eight bytes are the low four and then the high four. |
| Bytes.FitsMeans | packages/binary/src/writer.ts:38-59 | The signed ranges of four and of eight bytes. |
| TlBuffers.TLReader.ReadBytes | packages/binary/src/reader.ts:76-109 | Takes a byte string off the front; exactly what is refused, and that the offset then stays. |
| TlBuffers.TLReader.ReadBool | packages/binary/src/reader.ts:115-120 | Takes the four bytes of true or of false off the front; on any other it throws. |
| TlBuffers.TLReader.ReadVector | packages/binary/src/reader.ts:124-140 | The loop reads what the vector decoder says, for any item reader. |
| TlBuffers.TLReader.ReadValue | packages/binary/src/reader.ts:76-140 | The calls for a nested shape read what the decoder says and stop where it stops. |
| TlCodec.DecodeUndoesEncode | packages/binary/src/reader.ts:76-140 | Any nested value within the limits is read back, with the bytes behind it untouched. |
| TlCodec.EncodingIsAligned | packages/binary/src/writer.ts:85-138 | Every encoding is a multiple of four bytes. |
| TlCodec.BlobRoundTrip | packages/binary/src/reader.ts:76-109 | A byte string is read back exactly up to 10 MB. |
| TlCodec.VectorHeader | packages/binary/src/reader.ts:124-134 | A vector header is taken exactly with a count from 0 to a million. |
| WireFormats.BlobLayout | packages/binary/src/writer.ts:85-122 | One byte of length below 254, otherwise 0xfe and three bytes; the data; as few zeros as fill the last word. |
| WireFormats.BlobIsRead | packages/binary/src/reader.ts:76-109 | The reader takes exactly a length header (any first byte from 254 on), up to 10 MB of data and up to three bytes of any padding that fill the last word. |
| WireFormats.BoolBytes | packages/binary/src/writer.ts:128-130 | The four bytes of each bool. |
| WireFormats.VectorLayout | packages/binary/src/writer.ts:132-138 | The four bytes of the constructor id, the count, then the items. |
| WireFormats.EncodedInOrder | packages/binary/src/writer.ts:135-137 | Values are written in their order. |
| InlineStrings.AgreeWithReader | packages/mtproto/src/connection.ts:458-477 | Both hand-written parsers agree with the reader on every input that it accepts. |
| InlineStrings.TruncatedTexts | packages/mtproto/src/connection.ts:458-541 | On inputs shorter than announced the gzip body is what there is and the error text is given up. |
| InlineStrings.RecoverWhatIsWritten | packages/mtproto/src/connection.ts:521-541 | On the writer's output both recover the string exactly when its length is below 2^24. |
| Containers.PackContainer | packages/mtproto/src/container.ts:27-62 | The buffer filled in place is the container; exactly fields that do not fit throw. |
| Containers.UnpackContainer | packages/mtproto/src/container.ts:67-117 | The loop's result on every input, negative lengths and errors included. |
| Containers.UnpackUndoesPack | packages/mtproto/src/container.ts:27-117 | Unpacking gives back what was packed, whatever follows, exactly up to 1024 messages. |
| WireFormats.PackLayout | packages/mtproto/src/container.ts:27-62 | The constructor id, the count, and each message's id, number, length and body at the sum of the sizes before it. |
| Containers.PackUndoesUnpack | packages/mtproto/src/container.ts:67-117 | An unpacked container starts with the packing of its messages exactly when it announces no negative length. |
| Containers.NegativeLengthUnpacks | packages/mtproto/src/container.ts:100-112 | A container of one message with length -16 unpacks, and does not start with the packing of the result. |
| Containers.BodiesShrink | packages/mtproto/src/container.ts:92-114 | Every body is shorter than its container, so nesting ends. |
| Containers.CreateMsgsAck | packages/mtproto/src/ack.ts:19-39 | The buffer filled in place is the msgs_ack. |
| Containers.ParseMsgsAck | packages/mtproto/src/ack.ts:44-83 | The loop's result on every input; a negative count gives no ids. |
| Containers.ParseUndoesCreate | packages/mtproto/src/ack.ts:19-83 | The ids are read back, whatever follows. |
| WireFormats.MsgsAckLayout | packages/mtproto/src/ack.ts:19-39 | Both constructor ids, the count, and id i at byte 12 + 8 i. |
| Dispatch.Connection.ProcessMessage | packages/mtproto/src/connection.ts:372-437 | Which messages are handed on and which ids are queued, in order, with the batches flushed on the way. |
| Dispatch.Connection.HandleContainer | packages/mtproto/src/connection.ts:442-451 | The same for the messages of a container, from first to last; a bad one is reported and queues nothing. |
| Dispatch.MessageCaseByCase | packages/mtproto/src/connection.ts:372-451 | A message under four bytes is only reported; any other is queued; a container that does not unpack is reported, one that does has its messages processed behind its own id, and the rest is handed on. |
| Dispatch.Connection.Queue | packages/mtproto/src/connection.ts:680-685 | One more id is queued and a full batch is flushed. |
| Dispatch.Connection.FlushAcks | packages/mtproto/src/connection.ts:690-715 | The whole queue is taken as one batch and sent, when session and transport are set. |
| Dispatch.TreeIsProcessed | packages/mtproto/src/connection.ts:372-451 | A tree of containers is handed on leaf by leaf from left to right, and all its ids are queued in preorder. |
| Dispatch.LeavesInOrder | packages/mtproto/src/connection.ts:445-447 | Both orders go from the first message of a container to the last. |
| Dispatch.AcksAreConserved | packages/mtproto/src/connection.ts:680-715 | Batches followed by the queue are the ids in order; while connected the queue stays below 16 and every batch has 16 ids, otherwise nothing is taken. |
| Dispatch.BatchesArrive | packages/mtproto/src/ack.ts:19-83 | While sends succeed, parsing each msgs_ack sent gives its batch. |
| Dispatch.OnlyBatchesGoOut | packages/mtproto/src/connection.ts:690-715 | Every body sent is the msgs_ack of a batch that was taken, accepted by the transport. |
| ReplayWindow.ReplayGuard.Accept | packages/mtproto/src/connection.ts:353-361 | Exactly ids not in the set pass, and the set drops its oldest beyond 1000. |
| ReplayWindow.WindowIsTheLastAccepted | packages/mtproto/src/connection.ts:353-361 | Over every run the set is the last 1000 accepted ids in order of acceptance. |
| ReplayWindow.RepeatsAreFarApart | packages/mtproto/src/connection.ts:353-361 | Two acceptances of one id have at least 1000 others between them. |
| Sessions.MsgIdGenerator.Generate | packages/mtproto/src/msg-id.ts:23-37 | The id for the clock, scaled and rounded in any way, and the previous id. |
| Sessions.NextIdIsLeast | packages/mtproto/src/msg-id.ts:23-37 | It is the least multiple of four above the previous id that is less than four below the clock. |
| Sessions.IdsIncrease | packages/mtproto/src/msg-id.ts:23-37 | For any readings of the clock the ids are strictly increasing multiples of four. |
| Sessions.SeqNoMeaning | packages/mtproto/src/seq-no.ts:17-23 | Each number is twice the content-related messages before it, plus one for such a message. |
| Sessions.Session.NextMsgId | packages/mtproto/src/session.ts:68-70 | The next id under the session's own time offset. |
| Sessions.Session.Reset | packages/mtproto/src/session.ts:57-63 | A new session id, and both counters at zero. |
| Sessions.Session.UpdateTimeOffset | packages/mtproto/src/session.ts:90-93 | The offset reaches the generator, and the last id stays. |
| RpcHandler.RpcHandler.Register | packages/mtproto/src/rpc.ts:41-57 | A new entry under the id, replacing one that is there, and a new timer. |
| RpcHandler.RpcHandler.HandleResult | packages/mtproto/src/rpc.ts:63-71 | The entry is settled and removed and its timer cleared, or nothing happens. |
| RpcHandler.RpcHandler.HandleError | packages/mtproto/src/rpc.ts:77-85 | The same for an error. |
| RpcHandler.RpcHandler.OnTimeout | packages/mtproto/src/rpc.ts:43-47 | What the timer's callback removes and whom it rejects. |
| RpcHandler.RpcHandler.CancelAll | packages/mtproto/src/rpc.ts:90-96 | Every waiting call is rejected in insertion order and its timer cleared. |
| RpcTheorems.EveryRunIsSafe | packages/mtproto/src/rpc.ts:33-96 | Within one session, for any clock and any order of events, no registration overwrites another, each call settles at most once, and exactly the waiting calls have entry and timer. |
| RpcTheorems.Accounting | packages/mtproto/src/rpc.ts:33-103 | registered = resolved + rejected + pending, and the timers armed are those of the pending calls. |
| RpcTheorems.RegisterKeeps | packages/mtproto/src/rpc.ts:41-57 | A registration keeps the table consistent exactly when its id is not waiting. |
| RpcTheorems.SetKeepsPlaces | packages/mtproto/src/rpc.ts:49-56 | An id that is there keeps its place and holds the new call; another goes to the end. |
| RpcTheorems.SettleKeeps | packages/mtproto/src/rpc.ts:63-85 | A result or error settles the call that waits under its id, and nothing else. |
| RpcTheorems.FireKeeps | packages/mtproto/src/rpc.ts:43-47 | A timer that fires settles its own call. |
| RpcTheorems.CancelAllKeeps | packages/mtproto/src/rpc.ts:90-96 | Cancelling rejects every waiting call with the reason, in insertion order, and leaves no entry and no timer. |
| RpcTheorems.SafeUnlessAnIdClashes | packages/mtproto/src/session.ts:57-70 | Over runs with session resets the calls stay consistent exactly when no id is registered while it is still waiting. |
| RpcTheorems.ResetLosesACall | packages/mtproto/src/session.ts:57-63 | For any clock reading, a reset and a second call at that reading leave a call that is never settled. |
| RpcTheorems.ResetBetweenTwoSends | packages/mtproto/src/connection.ts:258-296 | For any clock reading, two calls invoked around a reset clash although neither waited when the other was sent. |
| FileParts.SplitFile | packages/client/src/files.ts:136-157 | The loop gives the parts; exactly part sizes outside 1024..524288 or not divisible by 1024 throw. |
| FileParts.PartsMakeTheFile | packages/client/src/files.ts:136-157 | The parts put together are the file, all but the last have the full size, and only an empty file has an empty part. |
| FileParts.ComputePartSize | packages/client/src/files.ts:168-189 | The smallest power of two times 1024 that needs at most 3000 parts, or 524288. |
| UploadPool.Upload.constructor | packages/client/src/file-manager.ts:122-129 | The workers started, each with a part of its own. |
| UploadPool.Upload.OnCompleted | packages/client/src/file-manager.ts:91-119 | A worker counts its part and claims the next or ends. |
| UploadPool.Upload.OnFailed | packages/client/src/file-manager.ts:91-130 | A worker whose request fails ends and loses its part. |
| UploadPool.EveryRunIsConsistent | packages/client/src/file-manager.ts:86-130 | For any interleaving the claimed parts are exactly the first ones, each sent once, and each is completed, in flight or lost with one worker. |
| UploadPool.UploadCompletes | packages/client/src/file-manager.ts:71-137 | The bytes counted never exceed the file; when all workers have finished every part is completed and the count is the file's length, exactly when there was a worker. |
| Downloads.Download | packages/client/src/file-manager.ts:148-204 | Against a server that holds the file, the loop returns the file from the offset on exactly after len/limit + 1 answers, refuses exactly a chunk above 10 MB, and waits for ever at a limit of zero or less. |

## Left out

- Downloads.Download: CDN redirects throw in the source and are not modelled, and downloadStream runs the same loop.
- Dispatch.Connection.ProcessMessage: what the handlers of single message kinds do is not modelled here (results and errors are in `RpcTheorems`), nor is the inflated content of gzip_packed, whose nesting has no size bound.
- Dispatch.Connection.FlushAcks: a batch whose encryption or send fails is lost in the source too; `accepts` says which ones fail.
- UpdateTheorems.EmissionsTile: runs that apply a difference are not part of it, because a difference sets the counters itself; nor are setState and reset.
- DifferenceTheorems.DifferenceClearsALine: what a difference leaves of buffered updates that overlap without being equal, or that meet a counter of zero or less, is not stated.
- FramingTheorems.ChunksDoNotMatter: nothing is said about resynchronising after a discarded buffer; `CutIsHarmless` shows that the result then depends on the cut.
- ReplayWindow.ReplayGuard.Accept: the checks of session id and clock drift that come before it are left out; they only drop messages.
- UpdateHandler.UpdateHandler.ApplyDifference: setState, reset and handleUpdatesTooLong beside it are left out; each is one assignment or one event.
- KeyExchange.AgreeOnKey: the nonce comparisons, the encryption of the inner data and the transport are left out; the answers come with their nonces already compared.
- UploadPool.UploadCompletes: the serialization of a part and the speed reported with the progress are left out; a failure to serialize counts as a failed request.
- TlBuffers.TLWriter.WriteValue: doubles, int128, int256 and strings are not values of their own; the last three are raw bytes or byte strings.
- Sockets, event emitters, promises and setTimeout as such, and listeners that call back into the object that emits.
- The internals of AES, SHA and the random generator. Nothing is stated about secrecy or timing.
- The request helpers of the client package, the kerain package, the schema parser and the code generators: straight-line serializers, glue and text templates.
- SaltManager, EntityCache, ReconnectStrategy, DCManager and the session string formats, which would add only easy members.
