# BlindNet in Dafny

BlindNet is firmware for ESP32 nodes called Guardians. Guardians relay signed commands, the Action
Pills, to each other over BLE. A Guardian checks and decrypts a pill, filters the command by the
template of the addressed device and publishes it to a local MQTT broker. Beside that it runs a zone
firewall and a DNS filter for its Wi-Fi zone.

This project models the parts of the firmware that decide, and proves what they promise:

* **Link and pipeline**: `Frames`, `Reassembly`, `Rings`, `Pills`, `Commands`, `Decimal`, `CStrings`,
  `Stomachs`, `History`, `Guardians` (one Guardian as a state machine over received fragments),
  `GuardianNode` (the same Guardian on arrays and rings updated in place), `Deliveries`, and
  `Network`, `Floods` and `Reach` (any number of Guardians and a bag of packets in flight).
* **Membrane**: `Membranes` (edits of the device and template tables), `MembraneTables` (the arrays),
  `Checksums`, `Blobs` and `Stores` (persistence).
* **Zone firewall**: `Slots` (bounded slot tables), `Flows`, `FlowTables`, `Quarantines`,
  `QuarantineCollections`, `Policies`, `RateWindows`, `RateLimits`, `RateCollections`, `RateRuns`,
  `Firewalls`, `ZoneFirewalls`.
* **Codecs**: `Mqtt`, `DnsNames`, `DnsFilters`, `DnsReplies`, on top of `Bytes` and `Bits`.

Where the firmware updates state in place, a class with the same fields and loops is proved equal,
step by step, to a function on values; the theorems about whole runs are about those functions.

## What the proofs found

* The 16-entry capsule cache is redundant in any run without a cache clear: the 32-entry ring of the
  link already keeps 16 other dispatches between two of one id (`Guardians.CapsuleCacheNeverFires`).
* Collecting idle buckets weakens the rate limit once a window is longer than the idle limit by more
  than the thresholds that `RateRuns.KeyPassesAtMostTwiceIff`, `RateRuns.KeyWindowsStartApartIff`,
  `RateRuns.KeyRefusalsLastIff` and `RateCollections.InvisibleForAllIff` give.
* The verdict chosen for a failing policy evaluation is overwritten later in the same function, so
  default-deny does not take effect there (`Firewalls.DefaultDenyLetsThrough`).
* The start-up sequence never initialises the quarantine. Until something does, no source can be
  confined (`Firewalls.UnusedQuarantineHoldsNobody`); the theorems about confinement name the
  initialised quarantine as a condition.
* A synthetic DNS reply copies the authority and additional counts of the query, so it decodes only
  when both are zero (`DnsReplies.ReplyDecodes`).
* A name is read exactly only when its dotted form fits in the output (`DnsNames.GatherIsExact`);
  a longer one is cut or refused by what its remaining bytes look like as label lengths
  (`DnsNames.OverlongNameIsCutOrRefused`).
* Collecting expired quarantine entries is invisible to checks (`Quarantines.ExpiryIsInvisible`), but
  not once an add comes between: it can make room for a subject a full table would refuse, spare an
  entry a full table would evict, and reset the hit count and creation time of a subject added again.
  `QuarantineCollections.CollectionIsNoticedIff` says exactly when; `FullTableRefuses`,
  `FullTableDisplaces` and `CollectionForgetsHits` beside it are the examples.

## Assumptions

* Clocks are millisecond counters that do not decrease and do not wrap; counters do not wrap.
* SHA-256, signature verification and decryption are arbitrary functions, passed as values. No
  injectivity is assumed: a theorem that needs it offers a collision as the alternative.
* What the radio, the broker and the clock answer is an input of each step.
* Padding bytes of stored structures are zero. Pointers are not null.
* The membrane tables do not change while pills are processed.

## Model

| member | source | states |
|---|---|---|
| Frames.DecodeEncode | firmware/components/cortex/src/logic/g2g.rs:149-204 | every in-bounds fragment header and payload survives encoding and decoding |
| Frames.DecodedInBounds | firmware/components/cortex/src/logic/g2g.rs:149-204 | whatever the receiver accepts has a payload that lies inside the announced message, a consistent offset, index and count |
| Frames.AcceptedIff | firmware/components/cortex/src/logic/g2g.rs:149-204 | a frame is accepted exactly when its length is 1 to 768, its count 1 to 32, its index below the count, its payload at most 174 bytes and inside the message |
| Frames.FrameLayout | firmware/components/cortex/src/logic/g2g.rs:165-176 | where each field of a frame lies |
| Bytes.LittleEndian | firmware/components/cortex/src/logic/g2g.rs:402-416 | words are written least significant byte first |
| Frames.DecodeRefuses | firmware/components/cortex/src/logic/g2g.rs:149-172 | bytes are refused for their version exactly when they are long enough for a header that starts otherwise than 1, 1, 0, 0, and for their size otherwise |
| Frames.FragmentsCover | firmware/components/cortex/src/logic/g2g.rs:116-147 | laid end to end the payloads of the fragments are the message |
| Frames.FragmentsAreNumbered | firmware/components/cortex/src/logic/g2g.rs:116-147 | the fragments are numbered in order, agree on id, length and count, each starts where the one before ends, none is empty and all but the last are 220 bytes |
| Frames.SendFragments | firmware/components/cortex/src/logic/g2g.rs:116-147 | the sender hands the radio the fragments of the message in order, stops at the first refusal and reports its error, and succeeds exactly when all were accepted; empty and oversized messages are refused |
| Frames.BuildFragments | tools/action_pill/action_pill_tools.py:397-419 | the Python tool produces byte for byte the fragments the firmware sends, for every message of 1 to 768 bytes |
| Reassembly.AcceptKeepsPoolOk | firmware/components/cortex/src/logic/g2g.rs:216-264 | every accepted fragment keeps in-use slots at distinct ids with a non-empty, incomplete mask, and free slots empty |
| Reassembly.AcceptIsPrivate | firmware/components/cortex/src/logic/g2g.rs:216-264 | a frame whose id has a slot, or finds a free one, does to its own slot what it would do alone and touches no other |
| Reassembly.MismatchForgets | firmware/components/cortex/src/logic/g2g.rs:221-230 | a frame that contradicts the length or count held of its message is refused, and everything held of that message is forgotten |
| Reassembly.DuplicateIsRefused | firmware/components/cortex/src/logic/g2g.rs:232-241 | a frame already held is refused and changes nothing |
| Reassembly.PoolRefinesPrivate | firmware/components/cortex/src/logic/g2g.rs:216-264 | for any in-bounds frames, whatever they carry, the four-slot pool answers and holds what a table with a slot for every id would, as long as no frame finds four other ids busy |
| Reassembly.ReassemblyIsExact | firmware/components/cortex/src/logic/g2g.rs:216-264 | among arbitrary in-bounds frames of other ids, in any order and with duplicates, each frame of a genuine message is answered as the indices received so far say: stored, duplicate, or the exact original bytes on the last missing one |
| Reassembly.PermutationDelivers | firmware/components/cortex/src/logic/g2g.rs:116-264 | fragments of a message delivered once each in any order, among any other frames, are all stored, and the last one yields exactly the original message |
| Reassembly.InOrderDelivers | firmware/components/cortex/src/logic/g2g.rs:116-264 | sent in order to an idle receiver, every message of 1 to 768 bytes arrives with its last fragment |
| Reassembly.FifthMessageDisplacesFirst | firmware/components/cortex/src/logic/g2g.rs:333-354 | with all four slots taken, a fragment of a fifth message wipes the first and leaves the others |
| Rings.PushIsLastN | firmware/components/stomach/stomach_cp_cache.c:45-65 | pushing into a bounded window keeps exactly the last entries of the history |
| Rings.DigestRing.Contains | firmware/components/stomach/stomach_cp_cache.c:28-43 | the scan finds an id exactly when it is among the remembered ones; unused zero entries never match |
| Rings.DigestRing.Add | firmware/components/cortex/src/logic/g2g.rs:377-385 | the overwrite at the ring index is a push on the window, whether or not the id is already there |
| Rings.DigestRing.SeenOrAdd | firmware/components/stomach/stomach_cp_cache.c:45-65 | a remembered digest is reported and changes nothing; any other is pushed |
| Rings.DigestRing.Clear | firmware/components/stomach/stomach_cp_cache.c:18-26 | clearing forgets every entry |
| Rings.CacheIsFifoOfMisses | firmware/components/stomach/stomach_cp_cache.c:28-65 | after any queries the cache holds the last 16 digests that missed, pairwise distinct, and two misses of one digest are more than 16 misses apart |
| Rings.SpacedQueriesAlwaysMiss | firmware/components/stomach/stomach_cp_cache.c:45-65 | queries that repeat a digest only after as many others as the cache holds never hit it |
| Pills.PillImage | firmware/components/cortex/src/logic/g2g.rs:266-296 | the byte image of a pill determines every field |
| Pills.ImageOfRead | firmware/components/cortex/src/logic/g2g.rs:266-296 | every image of the right size is the image of the pill read from it, so relaying sends the received bytes |
| Pills.PillLayout | firmware/components/cortex/src/logic/g2g.rs:266-296 | where each field of a pill lies in its 480-byte image |
| Pills.SignedInjective | firmware/components/action_pill/capsule_pill/capsule_pill.c:42-62 | two capsules with the same signing pre-image agree on every signed field |
| Pills.DigestInjective | firmware/components/action_pill/capsule_pill/capsule_pill.c:281-307 | two pills with the same digest pre-image agree on the signed fields and the signature, for signature lengths up to 96 |
| Pills.ActiveInjective | firmware/components/action_pill/active_substance/active_substance.c:188-221 | two active substances with the same hash pre-image agree on version, cipher, nonce, tag and used ciphertext |
| Pills.AuthorizedIffVouched | firmware/components/cortex/src/logic/stomach.rs:351-379 | a pill is authorised exactly when both parts are of a known version and kind with clean reserved fields, it is in its validity period, carries the expected issuer, hashes to its active hash and has a signature the key verifies |
| Pills.RefusedFor | firmware/components/cortex/src/logic/stomach.rs:351-379 | a well-made pill that is not vouched for is refused for having run out, another issuer, a ciphertext that is not the one hashed, or its signature, in that order |
| Pills.MalformedFor | firmware/components/action_pill/capsule_pill/capsule_pill.c:209-248 | a badly made pill is refused for the version, cipher or size of its substance, then for the version, content, algorithm or signature length of its capsule |
| Pills.SameIdSamePill | firmware/components/action_pill/capsule_pill/capsule_pill.c:250-307 | two authorised pills with one message id agree on signed fields, signature and used ciphertext, or exhibit a hash collision |
| CStrings.FieldValid | firmware/components/action_pill/active_substance/active_substance.c:36-54 | a field is accepted exactly when it is non-empty, terminated and zero after its terminator |
| CStrings.CanonicalIff | firmware/components/action_pill/active_substance/active_substance.c:36-54 | that form is text without NUL, at least one byte, followed by NULs to the end of the field, at least one |
| CStrings.FieldCuts | firmware/components/membrane/ribosome_table/ribosome_table.c:41-57 | a text too long for its field is cut to leave room for one NUL |
| CStrings.CStrEqual | firmware/components/cortex/src/logic/broker.rs:137-156 | two fields compare equal exactly when their text before the first NUL agrees and one of them is terminated |
| Commands.AminoFind | firmware/components/membrane/rna_membrane/amino_acids/amino_acids.c:106-115 | the look-up returns the table entry with the id, and nothing exactly when there is none |
| Commands.PayloadFits | firmware/components/membrane/rna_membrane/amino_acids/amino_acids.c:122-149 | a value is refused for an unknown amino, and for being there or missing against what the amino takes |
| Commands.ValidateCommand | firmware/components/action_pill/active_substance/active_substance.c:62-90 | the checks on a command and the error each failure gives |
| Commands.ValidIff | firmware/components/action_pill/active_substance/active_substance.c:62-90 | a command is valid exactly when both names are canonical, the reserved bytes zero, the amino 1 to 12 and the value type an integer for 5, 6, 11 and 12 and none for the others |
| Commands.CommandLayout | firmware/components/action_pill/active_substance/active_substance.c:92-112 | where each field of the 76-byte command lies |
| Commands.ParsesIff | firmware/components/action_pill/active_substance/active_substance.c:92-112 | a plaintext parses to a command exactly when it is the image of that command and the command is valid; the size error is for every other length |
| Commands.ParseCommand | firmware/components/action_pill/active_substance/active_substance.c:92-112 | a plaintext parses to the command it images exactly when that command is valid; an invalid one leaves the command zero, one of the wrong size leaves it as it was |
| Commands.SenderParsesBack | tools/action_pill/action_pill_tools.py:128-156 | every plaintext the Python tool builds from NUL-free strings parses to the same device, topic, amino, type and value |
| Commands.SenderBuildsIff | tools/action_pill/action_pill_tools.py:128-156 | the Python tool builds a plaintext exactly for names of 1 to 31 bytes and a 32-bit value just where the amino takes one |
| Commands.EncodePayload | firmware/components/cortex/src/logic/broker.rs:74-96 | the payload is empty or the decimal form, as the value type of the amino fixes |
| Commands.PayloadIs | firmware/components/cortex/src/logic/broker.rs:74-96 | the payload is the decimal form of the value, or empty for an amino without one; other truth values than 0 and 1 are refused |
| Decimal.AsciiRoundTrip | firmware/components/cortex/src/logic/broker.rs:98-135 | reading the decimal form gives back every 32-bit integer, the minimum included |
| Decimal.Digits | firmware/components/cortex/src/logic/broker.rs:98-135 | the magnitude is written in decimal digits only, without a leading zero |
| Decimal.AsciiLength | firmware/components/cortex/src/logic/broker.rs:98-135 | the decimal form of every 32-bit integer takes at most 11 bytes |
| Decimal.EncodeI32 | firmware/components/cortex/src/logic/broker.rs:98-135 | the digit loops write exactly the decimal form, or fail when the buffer is too small for it |
| Stomachs.SearchIsFirstHit | firmware/components/cortex/src/logic/stomach.rs:116-199 | entries without a secret or with a wrong key are passed over; the first other one is found if its secret opens the substance to a valid command, and ends the search with its error if it fails for another reason or opens something else |
| Stomachs.SearchEnds | firmware/components/cortex/src/logic/stomach.rs:116-199 | every search ends in one of those ways, or with not-found when all entries are passed over |
| Stomachs.DigestedIff | firmware/components/cortex/src/logic/stomach.rs:116-199 | digestion yields a command and a device exactly when the table has at most 20 entries, the envelope is well formed and that device is the first not passed over and opens the substance to that command |
| Stomachs.DigestActive | firmware/components/cortex/src/logic/stomach.rs:116-199 | the loop over the table computes that search; on every error the command and the device are zero, because the result is cleared first |
| Stomachs.PublishDigested | firmware/components/cortex/src/logic/broker.rs:24-62 | a command is published exactly when it is valid, names its device and is within its template; the topic, client and payload come from it |
| Stomachs.PublishedIff | firmware/components/cortex/src/logic/broker.rs:24-96 | a command is published exactly when it is valid, names the device that opened it, the membrane is initialised and the template of the device lists its amino; the error is otherwise that of the command or invalid-state, and the payload the decimal value or nothing |
| Guardians.StepHolds | firmware/components/cortex/src/logic/g2g.rs:149-321 | one received fragment pushes the message id once, and once more when relayed, only if it is dispatched, and the id was not remembered |
| Guardians.DispatchesAreSpaced | firmware/components/cortex/src/logic/g2g.rs:356-385 | in every run two dispatches of one id have at least 16 dispatches of others between them, although relayed pills use two of the 32 ring entries |
| Guardians.CapsuleCacheNeverFires | firmware/components/cortex/src/conscience/main.rs:132-147 | in every run without a cache clear the 16-entry capsule cache never rejects a pill the link let through |
| Guardians.ReplayWindowIsExact | firmware/components/cortex/src/logic/g2g.rs:356-385 | after its last dispatch an id is still refused if and only if fewer than 32 ring writes followed |
| Guardians.EveryPublishIsLicensed | firmware/components/cortex/src/conscience/main.rs:132-163 | every publication in every run comes from a pill not in the capsule cache that passed every authorisation check, was opened by the first matching device secret, names that device, and is within its template and payload type |
| Guardians.PublishedIffLicensed | firmware/components/cortex/src/conscience/main.rs:132-163 | whenever a pill is dispatched in a run it is published as p if and only if it is vouched for at that moment and p is what the first device not passed over and its template license for it |
| Guardians.DispatchedIff | firmware/components/cortex/src/logic/g2g.rs:149-296 | a fragment leads to a dispatch exactly when it completes a message of 480 bytes whose digest is the id it travelled under; other complete messages are refused for size or digest |
| Guardians.NotCompleted | firmware/components/cortex/src/logic/g2g.rs:149-250 | every other fragment is stored, or refused with the reason, and leaves both windows as they were |
| Guardians.DispatchAnswers | firmware/components/cortex/src/conscience/main.rs:538-563 | a dispatch sends the fragments of the pill in order until the radio refuses, counts as relayed when all three went out, and answers with the local result, or with that of the relay when no device here is meant |
| Guardians.LocalResult | firmware/components/cortex/src/conscience/main.rs:132-163 | the local result is that of the first check that fails, or the answer of the broker to what is published |
| Guardians.RepublishIsLateAndIdentical | firmware/components/cortex/src/conscience/main.rs:132-163 | two publications under one digest are more than 16 dispatches apart and repeat the same signed content unless the hash collides |
| Deliveries.SlotsAreThePool | firmware/components/cortex/src/logic/g2g.rs:149-264 | whatever a Guardian hears, its slots are those of the pool over the frames that were readable and not remembered |
| Deliveries.LastFragmentDispatches | firmware/components/cortex/src/logic/g2g.rs:149-321 | whatever else a Guardian has heard, the last missing fragment of a genuine message hands the reassembled pill to the handler, and every other one is buffered or refused as a duplicate |
| Deliveries.PillArrivesInOrder | firmware/components/cortex/src/logic/g2g.rs:266-321 | a pill sent under its own digest to a Guardian just started is dispatched by its last fragment, byte for byte |
| Network.AtMostOnce | firmware/components/cortex/src/logic/g2g.rs:206-214 | a Guardian that dispatches fewer than 16 other ids after m dispatches m at most once |
| Network.RelaysBoundedByNodes | firmware/components/cortex/src/conscience/main.rs:538-563 | in every run in which no Guardian dispatches 16 other ids after m, the dispatches of m in the whole network are at most the number of Guardians |
| Network.StepConfined | firmware/components/cortex/src/logic/g2g.rs:298-317 | every step of the network keeps all carried messages within the ids it started with |
| Network.FloodTerminates | firmware/components/cortex/src/conscience/main.rs:538-563 | in any topology, with any losses and order of delivery, when at most 16 ids are about, no Guardian dispatches an id twice and the length of every run is bounded by a decreasing measure |
| Floods.NodeAnswersInKind | firmware/components/cortex/src/logic/g2g.rs:298-317 | only a frame of m makes a Guardian dispatch m or send frames of m, and then at most three |
| Floods.ActionReleases | firmware/components/cortex/src/conscience/main.rs:538-563 | delivering or losing a frame of m lowers the measure of its flood; other frames leave it unchanged |
| Floods.FloodOfOneTerminates | firmware/components/cortex/src/conscience/main.rs:538-563 | among any other traffic and with frames injected at any time, if no Guardian dispatches 16 other ids after m, then each dispatches m at most once and the frames of m ever handled are at most those present, those injected, and three to each peer for every Guardian |
| Reach.HearingAllDispatches | firmware/components/cortex/src/logic/g2g.rs:149-321 | a Guardian that has heard every fragment of a pill, in any order among any traffic that left it a slot, has dispatched it |
| Reach.MoveSpreads | firmware/components/cortex/src/conscience/main.rs:538-563 | in every step in which no frame of the pill is lost, refused or forged, whoever dispatches it owes every fragment to each peer until the peer has heard it |
| Reach.EveryoneIsReached | firmware/components/cortex/src/conscience/main.rs:538-563 | from power-on, once no frame of the pill is in the air, every Guardian on a path of peers from the first has dispatched it, in every run in which no frame of it is lost, refused by a radio or forged and no Guardian finds four other ids busy, whatever happens to frames of other ids |
| GuardianNode.Node.constructor | firmware/components/cortex/src/logic/g2g.rs:57-66 | a Guardian starts with empty slots and rings |
| GuardianNode.Node.RxSlotFor | firmware/components/cortex/src/logic/g2g.rs:333-354 | the scan picks the id's own slot, else the first free one, else clears slot 0, and claims it |
| GuardianNode.Node.AcceptFragment | firmware/components/cortex/src/logic/g2g.rs:216-264 | the in-place work on the slot computes the acceptance function and keeps the pool invariant |
| GuardianNode.Node.ProcessPill | firmware/components/cortex/src/conscience/main.rs:132-163 | the pipeline inserts into the capsule cache before authorising, and publishes as the specification says |
| GuardianNode.Node.OnActionPill | firmware/components/cortex/src/conscience/main.rs:538-563 | the relay comes first and writes the ring when it succeeds; a local not-found result is replaced by the relay result |
| GuardianNode.Node.OnMessageBytes | firmware/components/cortex/src/logic/g2g.rs:266-321 | a reassembled message is checked for size, digest and replay before it is dispatched |
| GuardianNode.Node.OnFragment | firmware/components/cortex/src/logic/g2g.rs:149-264 | receiving a fragment computes the step function of the Guardian on its arrays and rings |
| Membranes.ValidateTemplate | firmware/components/membrane/rna_membrane/rna_membrane.c:242-266 | a template is valid exactly when it has an id, a terminated name, 1 to 12 aminos, all known and pairwise distinct |
| Membranes.EditKeepsConsistency | firmware/components/cortex/src/logic/membrane.rs:105-222 | each edit keeps entries valid, ids distinct and every device pointing at an existing template |
| Membranes.EditsKeepConsistency | firmware/components/cortex/src/logic/membrane.rs:105-222 | so does every sequence of edits |
| Membranes.PermittedIff | firmware/components/cortex/src/logic/membrane.rs:105-222 | which edits succeed, and that a refused one changes nothing |
| Membranes.RefusalIs | firmware/components/cortex/src/logic/membrane.rs:105-222 | the error of every refused edit |
| Membranes.EditIsExact | firmware/components/cortex/src/logic/membrane.rs:105-222 | a permitted edit changes exactly the device or template it names: a new device carries the given id, template, epoch and secret, an assignment changes only the template of the named device, a replaced template becomes the sanitised copy, and all else stays |
| Membranes.TemplateValidIff | firmware/components/membrane/rna_membrane/rna_membrane.c:242-266 | a template is valid exactly when it has an id, a terminated name and as many different known aminos as it says, 1 to 12 |
| Membranes.AllowsIff | firmware/components/cortex/src/logic/membrane.rs:71-91 | a command passes the filter exactly when the membrane is initialised, the amino known, a value present just where the amino takes one, and the amino listed in the device's template |
| Membranes.RemoveUndoesAddDevice | firmware/components/membrane/ribosome_table/ribosome_table.c:139-226 | removing a device just added succeeds and restores the tables, whatever they held |
| Membranes.RemoveUndoesAddTemplate | firmware/components/cortex/src/logic/membrane.rs:168-222 | removing a template just added succeeds and restores the tables, when no device points at a missing template |
| MembraneTables.ShiftOut | firmware/components/membrane/ribosome_table/ribosome_table.c:216-221 | the shift loop removes one entry, keeps the order of the others and zeroes the freed place |
| MembraneTables.Membrane.AddDevice | firmware/components/cortex/src/logic/membrane.rs:105-114 | the array edit is the specified one, errors included; everything past the counts stays zero |
| MembraneTables.Membrane.RemoveDevice | firmware/components/membrane/ribosome_table/ribosome_table.c:197-226 | the same for removing a device: the survivors keep their order |
| MembraneTables.Membrane.AssignTemplate | firmware/components/cortex/src/logic/membrane.rs:124-144 | only the template of the named device changes, and only to an existing template |
| MembraneTables.Membrane.AddTemplate | firmware/components/membrane/rna_membrane/rna_membrane.c:283-305 | a valid template with a new id is appended in sanitised form |
| MembraneTables.Membrane.ReplaceTemplate | firmware/components/cortex/src/logic/membrane.rs:176-191 | the template with the same id is overwritten by the sanitised copy |
| MembraneTables.Membrane.RemoveTemplate | firmware/components/cortex/src/logic/membrane.rs:193-222 | a template in use is never removed; otherwise the survivors keep their order |
| MembraneTables.Membrane.Allows | firmware/components/cortex/src/logic/membrane.rs:71-91 | a command is allowed exactly when the payload fits the amino and the device's template contains it |
| Checksums.XorBits | firmware/components/membrane/ribosome_table/ribosome_store.c:22-32 | the digit-wise xor is the bitwise one |
| Checksums.MultipliedUndone | firmware/components/membrane/ribosome_table/ribosome_store.c:22-32 | multiplication by the FNV prime modulo 2^32 is undone by its inverse |
| Checksums.StepInjective | firmware/components/membrane/ribosome_table/ribosome_store.c:22-32 | one FNV-1a step is injective in the state and in the byte |
| Checksums.StepUndone | firmware/components/membrane/ribosome_table/ribosome_store.c:26-29 | one step takes the byte in by xor and then multiplies, so it is undone by the inverse factor and then xor |
| Checksums.HashOfA | firmware/components/membrane/ribosome_table/ribosome_store.c:22-32 | the checksum of the text "a" is the published FNV-1a value |
| Checksums.Update | firmware/components/membrane/rna_membrane/rna_membrane.c:105-118 | the accumulator loop computes the hash of the bytes |
| Checksums.OneByteChangesHash | firmware/components/membrane/ribosome_table/ribosome_store.c:22-44 | changing exactly one byte of any string always changes its checksum |
| Blobs.ChecksumByField | firmware/components/membrane/ribosome_table/ribosome_store.c:34-44 | hashing field by field is hashing the whole body |
| Blobs.OpenImage | firmware/components/membrane/ribosome_table/ribosome_store.c:46-117 | reading an image gives back exactly its entries, except an empty template table, which is refused |
| Blobs.OpenRefuses | firmware/components/membrane/ribosome_table/ribosome_store.c:83-98 | a blob is refused for its size, then for its header, then for its checksum |
| Blobs.OneByteCorruptionRefused | firmware/components/membrane/ribosome_table/ribosome_store.c:83-98 | a blob that differs from a stored one in exactly one byte is refused, wherever the byte is |
| Stores.DeviceRoundTrip | firmware/components/membrane/ribosome_table/ribosome_store.c:14-20 | the 72-byte entry determines the device |
| Stores.TemplateRoundTrip | firmware/components/membrane/rna_membrane/rna_membrane.c:15-21 | the 88-byte entry determines the template |
| Stores.EntryLayout | firmware/components/membrane/ribosome_table/ribosome_store.c:14-20 | where each field of a stored device and template lies |
| Stores.StoredSizes | firmware/components/membrane/ribosome_table/ribosome_store.c:10-20 | the magic numbers and sizes of the two blobs; an empty template table is not saved |
| Stores.AdmittedIff | firmware/components/membrane/ribosome_table/ribosome_table.c:139-167 | an entry is admitted exactly when it is valid, there is room and its client id is new; otherwise the error says which |
| Stores.TemplateAdmittedIff | firmware/components/membrane/rna_membrane/rna_membrane.c:283-305 | the same for a template |
| Stores.SavedIff | firmware/components/membrane/ribosome_table/ribosome_store.c:46-81 | a device table is saved exactly when it has at most 20 entries, all valid and with different client ids |
| Stores.LoadsIff | firmware/components/membrane/ribosome_table/ribosome_store.c:83-150 | a blob loads exactly when its size, header and checksum are right and its entries valid and different |
| Stores.SavedDevicesLoad | firmware/components/membrane/ribosome_table/ribosome_store.c:46-117 | what is saved loads to its sanitised entries; a consistent device table is always saved and comes back identical |
| Stores.SavedTemplatesLoad | firmware/components/membrane/rna_membrane/rna_membrane.c:167-233 | the same for the template table, which is never saved empty |
| Stores.LoadedTablesOk | firmware/components/membrane/ribosome_table/ribosome_store.c:83-117 | any blob that loads gives a table with valid, distinct entries, whatever wrote it |
| Stores.CorruptedDevicesRefused | firmware/components/membrane/ribosome_table/ribosome_store.c:83-117 | a saved device blob with exactly one byte changed never loads |
| Stores.CorruptedTemplatesRefused | firmware/components/membrane/rna_membrane/rna_membrane.c:199-233 | a saved template blob with exactly one byte changed never loads |
| Stores.AddDeviceEntry | firmware/components/membrane/ribosome_table/ribosome_table.c:139-167 | an entry is appended in sanitised form, or refused with the error of the first failing check |
| Stores.DevicesToBlob | firmware/components/membrane/ribosome_table/ribosome_store.c:46-81 | the loops build exactly the specified device blob |
| Stores.BlobToDevices | firmware/components/membrane/ribosome_table/ribosome_store.c:83-150 | the size, header, checksum and entry checks in order, then the loaded table |
| Stores.TemplatesToBlob | firmware/components/membrane/rna_membrane/rna_membrane.c:167-197 | the loop builds exactly the specified template blob |
| Stores.BlobToTemplates | firmware/components/membrane/rna_membrane/rna_membrane.c:199-233 | the checks in order, then the loaded template table |
| Slots.Best | firmware/components/policy_engine/policy_engine.c:295-324 | the winner is a match of maximal priority, ties going to the highest slot; none exactly when nothing matches |
| Slots.VictimIsOldest | firmware/components/flow_table/flow_table.c:77-91 | the evicted slot has a minimal timestamp among all entries |
| Slots.FindPlace | firmware/components/flow_table/flow_table.c:178-226 | the scans pick a free slot, else the least recently used one when eviction is on, else none |
| Slots.FindBest | firmware/components/policy_engine/policy_engine.c:295-324 | the scan loop computes the winner |
| Slots.ExpireAll | firmware/components/flow_table/flow_table.c:291-317 | the loop frees exactly the dead slots and counts them |
| FlowTables.TouchKeepsOk | firmware/components/flow_table/flow_table.c:178-226 | touching keeps one slot per key, active = created - evicted - expired, packets = created + updated |
| FlowTables.TouchRefinesMap | firmware/components/flow_table/flow_table.c:178-226 | a touch is an update, insert, insert with eviction of a least recently seen flow, or failure of the map from keys to flows |
| FlowTables.ExpireRefinesMap | firmware/components/flow_table/flow_table.c:291-317 | expiry removes exactly the idle flows of the map and keeps the counters balanced |
| FlowTables.ReachableTableOk | firmware/components/flow_table/flow_table.c:144-317 | every reachable table meets the invariant |
| FlowTables.EntriesSumUp | firmware/components/flow_table/flow_table.c:103-226 | in every reachable state the entry of a flow counts exactly the packets and bytes of that flow since the touch that opened it, and carries the times of that touch and of the last one |
| FlowTables.TouchesAreCounted | firmware/components/flow_table/flow_table.c:103-226 | every touch is counted once: as a flow created or updated with its packet and bytes, or as dropped |
| FlowTables.TouchFailsIff | firmware/components/flow_table/flow_table.c:178-226 | a touch fails exactly when its flow is new and there is neither a free slot nor one that may be evicted |
| FlowTables.FlowTable.Touch | firmware/components/flow_table/flow_table.c:178-226 | the in-place update computes the specified touch |
| FlowTables.FlowTable.ExpireOld | firmware/components/flow_table/flow_table.c:291-317 | the in-place scan computes the specified expiry |
| Quarantines.AddKeepsOk | firmware/components/quarantine_manager/quarantine_manager.c:240-319 | adding keeps one slot per subject, only valid subjects, and active = added - evicted - expired - removed |
| Quarantines.AddRefinesMap | firmware/components/quarantine_manager/quarantine_manager.c:240-319 | an accepted request is an insert or refresh of its subject in the map; others change only by the eviction of a least recently seen entry from a full table; a refused one changes nothing |
| Quarantines.CheckRefinesMap | firmware/components/quarantine_manager/quarantine_manager.c:368-409 | a check answers exactly when an unexpired entry exists and counts the hit; an expired one is removed |
| Quarantines.RemoveRefinesMap | firmware/components/quarantine_manager/quarantine_manager.c:344-360 | removal takes out exactly its subject and says whether it was there |
| Quarantines.ExpireRefinesMap | firmware/components/quarantine_manager/quarantine_manager.c:426-449 | expiry removes exactly the expired subjects |
| Quarantines.AcceptedIff | firmware/components/quarantine_manager/quarantine_manager.c:240-319 | a request is accepted exactly when the quarantine runs, the subject is valid and it has an entry, a free slot or a slot that can be evicted |
| Quarantines.SubjectValidIff | firmware/components/quarantine_manager/quarantine_manager.c:92-111 | the subjects that can be confined are all but nobody and the zero address, hardware address and device id |
| Quarantines.RequestHolds | firmware/components/quarantine_manager/quarantine_manager.c:240-409 | an accepted request is answered with its mode, source and risk, at most 100, from then until exactly its time to live, or the default one, is over |
| Quarantines.HistoryOfRequest | firmware/components/quarantine_manager/quarantine_manager.c:262-305 | a request for a known subject keeps its creation time, last hit and hit count; any other starts them |
| Quarantines.RequestsAreCounted | firmware/components/quarantine_manager/quarantine_manager.c:240-319 | every request is counted once: as invalid, refreshed or added, or refused for want of room |
| Quarantines.ChecksAreCounted | firmware/components/quarantine_manager/quarantine_manager.c:368-409 | every check is counted once: as invalid, a hit or a miss |
| Quarantines.ExpiryIsInvisible | firmware/components/quarantine_manager/quarantine_manager.c:426-449 | expiring at time t changes no answer of any series of checks at times from t on |
| QuarantineCollections.AddIsExact | firmware/components/quarantine_manager/quarantine_manager.c:240-319 | an add sets its subject exactly when there is room, and costs exactly the subject hit longest ago its entry when the table is full |
| QuarantineCollections.CollectionIsNoticedIff | firmware/components/quarantine_manager/quarantine_manager.c:240-449 | for every state, request, subject and times, collecting expired entries changes the answer of a check after the next add exactly when it makes room for the subject added, spares a good entry the add would evict, or makes the add start its subject's entry anew with another hit count or creation time |
| QuarantineCollections.EssenceIsNoticedIff | firmware/components/quarantine_manager/quarantine_manager.c:240-449 | mode, source, expiry or risk of that answer change exactly in the first two cases, which need a full table |
| QuarantineCollections.HitsAreNoticedIff | firmware/components/quarantine_manager/quarantine_manager.c:240-449 | with the hit count among them they change in the same cases, or when the add refreshes an expired entry that had been hit |
| QuarantineCollections.CollectionSparesVictim | firmware/components/quarantine_manager/quarantine_manager.c:240-449 | the good entry an add to a full table gives up keeps answering when an expired one is collected first |
| QuarantineCollections.FullTableRefuses | firmware/components/quarantine_manager/quarantine_manager.c:272-281 | a full table without eviction in which the next address is confined only if the expired entry is collected first |
| QuarantineCollections.FullTableDisplaces | firmware/components/quarantine_manager/quarantine_manager.c:272-286 | a full table with eviction in which an address confined for ever is set free unless the expired entry is collected first |
| QuarantineCollections.ExpiryKeepsEssence | firmware/components/quarantine_manager/quarantine_manager.c:426-449 | in every run of checks, adds and removals in which no add finds the table full, expiring changes no mode, source, expiry or risk of any answer |
| QuarantineCollections.EssencesTellIff | firmware/components/quarantine_manager/quarantine_manager.c:240-449 | expiring changes none of these in any later run if and only if nothing has expired; with eviction this takes a clock two milliseconds from its end and not behind the entries, because a refreshed entry keeps its old place in the order of eviction and a new one does not |
| QuarantineCollections.AnswersTellIff | firmware/components/quarantine_manager/quarantine_manager.c:240-449 | with or without eviction, expiring before the clock's last millisecond changes no answer of any later run if and only if nothing has expired |
| QuarantineCollections.CollectionForgetsHits | firmware/components/quarantine_manager/quarantine_manager.c:262-270 | an expired entry still in the table keeps its hit count when it is added again, a collected one starts anew |
| Quarantines.QuarantineManager.Init | firmware/components/quarantine_manager/quarantine_manager.c:207-229 | initialisation empties the table and replaces a zero time to live by 60 seconds |
| Quarantines.QuarantineManager.AddSubject | firmware/components/quarantine_manager/quarantine_manager.c:240-319 | the in-place code computes the specified add |
| Quarantines.QuarantineManager.CheckSubject | firmware/components/quarantine_manager/quarantine_manager.c:368-409 | the in-place code computes the specified check |
| Quarantines.QuarantineManager.RemoveSubject | firmware/components/quarantine_manager/quarantine_manager.c:344-360 | the in-place code computes the specified removal |
| Quarantines.QuarantineManager.ExpireOld | firmware/components/quarantine_manager/quarantine_manager.c:426-449 | the in-place scan computes the specified expiry |
| Policies.CidrMatchesPrefix | firmware/components/policy_engine/policy_engine.c:42-75 | matching under the mask of a prefix length holds exactly when the leading bits agree (section 3.1 of RFC 4632) |
| Policies.MaskMatchesBits | firmware/components/policy_engine/policy_engine.c:71-75 | under any mask an address matches exactly when it agrees with the rule in every bit of the mask |
| Policies.SingleFields | firmware/components/policy_engine/policy_engine.c:77-117 | a pattern with one field set matches exactly the flows whose own field agrees with it |
| Policies.MatchesByField | firmware/components/policy_engine/policy_engine.c:101-117 | a pattern matches exactly when each of its fields would match alone |
| Policies.InForceIff | firmware/components/policy_engine/policy_engine.c:94-109 | a rule is in force exactly while it is enabled and until the moment it expires, if it does |
| Policies.UnusedPolicyFails | firmware/components/policy_engine/policy_engine.c:278-294 | before initialisation there is no decision |
| Policies.EvaluateIsBestRule | firmware/components/policy_engine/policy_engine.c:278-329 | the decision carries action, id, priority, risk and log flag of the enabled, unexpired match of maximal priority, ties to the highest slot, and the configured default exactly when nothing matches |
| Policies.ExpireRulesIsInvisible | firmware/components/policy_engine/policy_engine.c:338-360 | dropping expired rules at time t changes no decision at any time from t on |
| Policies.ExpireRulesIs | firmware/components/policy_engine/policy_engine.c:338-360 | collecting drops exactly the rules that have expired and leaves every other one in its slot |
| Policies.PolicyEngine.Init | firmware/components/policy_engine/policy_engine.c:170-190 | initialisation empties the rules and takes the given defaults |
| Policies.PolicyEngine.EvaluateFlow | firmware/components/policy_engine/policy_engine.c:278-329 | the rule loop computes that decision, or the error before initialisation |
| Policies.PolicyEngine.ExpireOld | firmware/components/policy_engine/policy_engine.c:338-360 | the scan computes the specified expiry of rules |
| RateWindows.StartsApartIff | firmware/components/rate_limiter/rate_limiter.c:392-464 | windows of a key start at least window_ms apart in every run if and only if window_ms <= max_idle_ms + 1 |
| RateWindows.StickyIff | firmware/components/rate_limiter/rate_limiter.c:392-490 | in every run a refusal lasts to the end of its window if and only if window_ms <= max_idle_ms + 1 or no limit is set |
| RateWindows.WindowOkIff | firmware/components/rate_limiter/rate_limiter.c:392-490 | the windows that runs leave open are exactly those whose last packet lies inside them and whose single packet opened them |
| RateWindows.AtMostTwiceTheLimit | firmware/components/rate_limiter/rate_limiter.c:392-464 | any half-open interval of length window_ms contains at most 2 * max_packets allowed packets when collection is safe for the window |
| RateWindows.BoundIsExact | firmware/components/rate_limiter/rate_limiter.c:466-490 | that bound holds for all runs if and only if window_ms <= max_idle_ms + 2, or max_packets is 1 and window_ms <= 2 * max_idle_ms + 2 |
| RateLimits.CheckRefinesMap | firmware/components/rate_limiter/rate_limiter.c:392-464 | a check counts the packet in its key's bucket and answers by it; other buckets stay, or exactly the one least recently seen is given up by a full table; the counters stay balanced |
| RateLimits.ParamsAreThoseOfBestRule | firmware/components/rate_limiter/rate_limiter.c:130-152 | a key is held to the limits of the enabled matching rule of maximal priority, with its quarantine hint, and to the defaults exactly when none matches; a zero window means a second |
| RateLimits.ChecksAreCounted | firmware/components/rate_limiter/rate_limiter.c:392-464 | every check is counted once, by its verdict |
| RateLimits.UnusedLimiterFails | firmware/components/rate_limiter/rate_limiter.c:392-407 | before initialisation a check fails and keeps nothing |
| RateLimits.ExpireRefinesMap | firmware/components/rate_limiter/rate_limiter.c:466-490 | collection removes exactly the idle buckets |
| RateCollections.CollectionIsNoticedIff | firmware/components/rate_limiter/rate_limiter.c:466-490 | in every state and at any times, collecting changes the verdict of the next check of a key exactly when it makes room in a full table, or takes the key's own bucket inside its window as it was about to refuse a packet that fits a fresh one |
| RateCollections.CollectionIsInvisible | firmware/components/rate_limiter/rate_limiter.c:466-490 | collecting changes no next verdict when window_ms <= max_idle_ms + 1 and the key has a bucket or room for one |
| RateCollections.LongWindowsNoticeCollection | firmware/components/rate_limiter/rate_limiter.c:466-490 | for every longer window a state, reached by checks after initialisation, in which collecting turns the refusal of the next packet into a pass |
| RateCollections.InvisibleForAllIff | firmware/components/rate_limiter/rate_limiter.c:466-490 | collecting is invisible to every next check in every state if and only if window_ms <= max_idle_ms + 1 or no limit is set |
| RateRuns.KeyPassesAtMostTwice | firmware/components/rate_limiter/rate_limiter.c:392-490 | in every run of the whole limiter over any keys, collections and rule changes, from any state in which it has no bucket or one that counting leaves, a key with fixed parameters that is not evicted passes at most twice its limit per window length |
| RateRuns.KeyWindowsStartApart | firmware/components/rate_limiter/rate_limiter.c:392-490 | in those runs windows of the key start at least window_ms apart when window_ms <= max_idle_ms + 1 |
| RateRuns.KeyRefusalsLast | firmware/components/rate_limiter/rate_limiter.c:392-490 | in those runs a refusal of the key lasts to the end of its window when window_ms <= max_idle_ms + 1 |
| RateRuns.TicksAreRealised | firmware/components/rate_limiter/rate_limiter.c:392-490 | every run of the one-key automaton with 32-bit times and sizes is a run of the limiter |
| RateRuns.KeyPassesAtMostTwiceIff | firmware/components/rate_limiter/rate_limiter.c:392-490 | over all runs of the limiter the bound holds if and only if collecting is safe for the window, or window_ms <= 2 * max_idle_ms + 2 and the 32-bit clock ends before window_ms + max_idle_ms + 1 |
| RateRuns.KeyWindowsStartApartIff | firmware/components/rate_limiter/rate_limiter.c:392-490 | over all runs of the limiter windows of a key start window_ms apart if and only if window_ms <= max_idle_ms + 1 |
| RateRuns.KeyRefusalsLastIff | firmware/components/rate_limiter/rate_limiter.c:392-490 | over all runs of the limiter a refusal of a key lasts to the end of its window if and only if window_ms <= max_idle_ms + 1 or no limit is set |
| RateLimits.RateLimiter.Init | firmware/components/rate_limiter/rate_limiter.c:281-309 | initialisation empties the tables; zero window and idle times take the defaults 1000 and 60000 |
| RateLimits.RateLimiter.FindParams | firmware/components/rate_limiter/rate_limiter.c:130-152 | the best matching rule or the defaults give the parameters |
| RateLimits.RateLimiter.ObtainBucket | firmware/components/rate_limiter/rate_limiter.c:214-239 | the key's bucket, a free one, or the least recently seen one |
| RateLimits.RateLimiter.CheckPacket | firmware/components/rate_limiter/rate_limiter.c:392-464 | the in-place code computes the specified check |
| RateLimits.RateLimiter.ExpireOld | firmware/components/rate_limiter/rate_limiter.c:466-490 | the in-place scan computes the specified collection |
| Firewalls.EvaluateHolds | firmware/components/zone_firewall/zone_firewall.c:71-224 | one evaluation raises exactly the counter of its verdict, touches each table at most once and adds at most the flow's own source to the quarantine |
| Firewalls.VerdictIs | firmware/components/zone_firewall/zone_firewall.c:71-224 | in every state a flow is dropped exactly when its source is blocked, the policy denies or quarantines it, or it reaches the rate limit and exceeds it; else redirected, logged or allowed exactly as the policy says |
| Firewalls.DecisionIs | firmware/components/zone_firewall/zone_firewall.c:80-217 | the action, the flags and the risk of the decision: the policy's risk, or the quarantine's when no policy is asked, raised to 80 by an exceeded rate |
| Firewalls.DropsAreExplained | firmware/components/zone_firewall/zone_firewall.c:93-209 | each drop raises exactly one of the counters for quarantine, policy and rate, and only drops do |
| Firewalls.TablesAfter | firmware/components/zone_firewall/zone_firewall.c:114-209 | the limiter counts exactly the flows that reach it; the quarantine gains exactly the sources the policy quarantines, or that exceed their rate where that is configured and suggested, with full block, the configured time and the risk of the decision |
| Firewalls.PolicyFailureIsOverwritten | firmware/components/zone_firewall/zone_firewall.c:114-217 | the verdict chosen for a failing policy evaluation is overwritten: whatever the default, the flow is dropped exactly when its source is blocked or its rate exceeded |
| Firewalls.DefaultDenyLetsThrough | firmware/components/zone_firewall/zone_firewall.c:114-217 | a default-deny state with an uninitialised policy in which every flow is allowed |
| Firewalls.UnusedQuarantineHoldsNobody | firmware/components/cortex/src/conscience/main.rs:249-286 | until the quarantine is initialised no source is confined or held to be quarantined |
| Firewalls.RunKeepsOk | firmware/components/zone_firewall/zone_firewall.c:71-224 | in every run all four tables keep their invariants and evaluations = allowed + dropped + redirected |
| Firewalls.BlockedIsDropped | firmware/components/zone_firewall/zone_firewall.c:84-108 | a flow whose source has an unexpired full-block entry is dropped whatever the policy and rate rules are |
| Firewalls.QuarantineSticks | firmware/components/zone_firewall/zone_firewall.c:71-224 | once blocked until a time, a source is dropped at every flow before it, in every run without an eviction in which nothing removes the entry or replaces it by a weaker or shorter one, whatever the rules become |
| Firewalls.OnceQuarantinedAlwaysDropped | firmware/components/zone_firewall/zone_firewall.c:71-224 | when policy or rate limit quarantines a nonzero source and the quarantine has room, that flow is dropped and so is every later one from it before its time to live ends, in the same runs |
| ZoneFirewalls.ZoneFirewall.constructor | firmware/components/zone_firewall/zone_firewall.c:54-69 | a zero quarantine time becomes 60 seconds and the counters start balanced |
| ZoneFirewalls.ZoneFirewall.EvaluateFlow | firmware/components/zone_firewall/zone_firewall.c:71-224 | the code over the four stateful tables, filling in the decision step by step, computes the specified decision and next state, failing policy included |
| Mqtt.LengthRoundTrip | firmware/components/MQTT_broker/MQTT_broker.c:314-328 | decoding a remaining length (section 2.2.3 of MQTT 3.1.1) recovers it exactly when it is below 128 to the number of bytes allowed, and is malformed otherwise |
| Mqtt.EncodeRemainingLen | firmware/components/MQTT_broker/MQTT_broker.c:314-328 | the do-while loop writes those bytes, at most four |
| Mqtt.PublishFits | firmware/components/MQTT_broker/MQTT_broker.c:418-477 | a packet is built exactly for quality of service 0 and at most 355 bytes of topic and payload together |
| Mqtt.PublishRoundTrip | firmware/components/MQTT_broker/MQTT_broker.c:470-477 | a PUBLISH decoder (section 3.3 of MQTT 3.1.1) recovers retain flag, topic and payload from every packet built, with nothing left over |
| Mqtt.PacketBuffer.Append | firmware/components/MQTT_broker/MQTT_broker.c:341-359 | bytes are appended at the offset, or nothing is written when they do not fit |
| Mqtt.PacketBuffer.AppendU16 | firmware/components/MQTT_broker/MQTT_broker.c:330-339 | a big-endian word is appended, or nothing when it does not fit |
| Mqtt.BuildPublish | firmware/components/MQTT_broker/MQTT_broker.c:426-477 | the append calls build exactly the specified packet, or fail |
| DnsNames.NameEndIsExact | firmware/components/dns_filter/dns_filter.c:122-132 | the scan stops right after the encoded name |
| DnsNames.NameEndIsAfterName | firmware/components/dns_filter/dns_filter.c:122-132 | wherever the scan stops, an encoded name ends |
| DnsNames.FindQnameEnd | firmware/components/dns_filter/dns_filter.c:122-132 | the loop computes that position, or -1 |
| DnsNames.GatherIsExact | firmware/components/dns_filter/dns_filter.c:97-120 | the parser gathers the dotted name if and only if it fits in the output |
| DnsNames.GatherIff | firmware/components/dns_filter/dns_filter.c:97-120 | with room for all of it, the parser reads exactly the messages that hold labels up to a zero byte or their end, and yields them dotted |
| DnsNames.LowerIsAscii | firmware/components/dns_filter/dns_filter.c:72-79 | exactly the capital letters of ASCII are lowered |
| DnsNames.NoNameIsRefused | firmware/components/dns_filter/dns_filter.c:97-120 | a message shorter than its header, an output without room and a question without a name are refused |
| DnsNames.OverlongNameIsCutOrRefused | firmware/components/dns_filter/dns_filter.c:97-120 | a name that does not fit is read as exactly the part of its dotted form that fits if the bytes after the cut, up to the next zero, each read as a label length inside the message, and refused otherwise |
| DnsNames.ParsedNameIsLowered | firmware/components/dns_filter/dns_filter.c:97-120 | a well-formed question with a NUL-free dotted name that fits parses to that name in lower case |
| DnsNames.ParseQname | firmware/components/dns_filter/dns_filter.c:97-120 | the nested loops and str_lower compute the specified parse, with every write in bounds |
| DnsFilters.MatchIsCoverage | firmware/components/dns_filter/dns_filter.c:81-95 | on lowered strings the pattern test decides coverage with case ignored on both sides |
| DnsFilters.EditsKeepOk | firmware/components/dns_filter/dns_filter.c:190-237 | after any rule edits every stored pattern is in lower case and the counter counts the rules |
| DnsFilters.VerdictIgnoresCase | firmware/components/dns_filter/dns_filter.c:239-278 | after any rule edits the verdict on a well-formed query has action, address and risk of the best enabled rule covering the queried name with case ignored, and the default exactly when no rule covers it |
| DnsFilters.AddedRule | firmware/components/dns_filter/dns_filter.c:190-219 | a rule is taken in exactly while a slot is free, under its id or the next number, enabled and otherwise as given |
| DnsFilters.RemovedRule | firmware/components/dns_filter/dns_filter.c:221-237 | removal frees one rule with the id and nothing else, and fails exactly when there is none |
| DnsFilters.RemoveUndoesAdd | firmware/components/dns_filter/dns_filter.c:190-237 | removing the id of a rule just added restores the rules |
| DnsFilters.CaseVariantsParseAlike | firmware/components/dns_filter/dns_filter.c:97-120 | queries whose names differ only in case parse to the same name |
| DnsFilters.DnsFilter.Install | firmware/components/dns_filter/dns_filter.c:190-219 | the rule goes to the first free slot, numbered, enabled and lowered |
| DnsFilters.DnsFilter.Uninstall | firmware/components/dns_filter/dns_filter.c:221-237 | the first rule with the id is freed |
| DnsFilters.DnsFilter.EvaluateDomain | firmware/components/dns_filter/dns_filter.c:239-278 | the rule loop computes the verdict |
| DnsReplies.BuildAResponse | firmware/components/dns_filter/dns_filter.c:134-169 | the writes into the buffer produce exactly the specified reply and leave the rest alone; on failure nothing is written |
| DnsReplies.BigEndian | firmware/components/dns_filter/dns_filter.c:158-169 | the address is written most significant byte first |
| DnsReplies.ReplyDecodes | firmware/components/dns_filter/dns_filter.c:134-169 | the reply to a well-formed single-question query fits its buffer and decodes (sections 4.1.2 to 4.1.4 of RFC 1035) to the same id and question and one A record via the name pointer, if and only if the query announces no authority or additional records |

## Left out

- BLE transport, FreeRTOS tasks, Wi-Fi, sockets, GPIO and NVS calls: hardware and operating-system plumbing; a send is a count of accepted fragments, a store is a byte string.
- SHA-256, HKDF, AES-GCM, ECDSA and PEM parsing: opaque functions with a result.
- Admin server, setup mode and the state transitions of the conscience: mostly input and output; their table edits are the modelled ones.
- device_registry.c, event_bus.c, setup_button.c, config_store.c: easy members; events, logging and reason strings change no decision.
- Adding and removing policy and rate rules: the theorems about rules hold for arbitrary rule tables.
- Flow look-up and the flow_table_set functions, and the per-action counters of the policy engine: easy members.
- MQTT CONNECT, acknowledgement and the broker itself: fixed bytes and socket work.
- The default templates: a constant table.
- Clock wrap-around and 32-bit counter overflow: expiry and eviction compare raw values, so the theorems assume neither happens.
- Calls of the firewall and the flow table before their own initialisation: they are refused and change nothing.
- Failures of the cryptographic library's own set-up calls, which the firmware reports as errors.
- GuardianNode.Node.OnFragment: does not model the locks around the slots and rings, because each fragment is handled by one task to completion.
