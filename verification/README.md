# Verified model of the note service

The service stores end-to-end encrypted notes that can be read a limited number of times. This project
models its three hard parts and proves what their design promises.

1. **The ledger.** Lua scripts in Valkey keep notes, an expiry index, a charge table, a byte total, challenge
   leases, spent markers and a lease index. `Valkey.dfy` has the tables as the scripts keep them, one method a
   script, command by command; every method is proved to be one transition of the abstract ledger in
   `Ledger.dfy`, for every choice of failing writes. `LedgerRuns.dfy` lets scripts of any number of processes,
   the clock and native expiry interleave and proves one invariant over all runs; `LedgerTheorems.dfy` draws the
   safety and reclamation results from it; `LedgerAnswers.dfy` says what every script answers from the history alone:
   the creating requests, the opens since, and the challenges issued and used. `Rate.dfy` is the token bucket,
   `Slots.dfy` the upload, download and response slots of one API process beside the ledger, and `SlotRuns.dfy` what
   becomes of its requests.
2. **The wire format.** `Base64Url.dfy`, `Utf8.dfy`, `Content.dfy`, `Packet.dfy`, `Decimals.dfy`, `ShareLink.dfy` and
   `Proof.dfy` hold the encodings of the TypeScript client and of the Rust server, each proved against a reference
   definition, and `Sealing.dfy` joins them end to end. `ContentLaws.dfy` states on bytes, offsets and whole lists what
   is accepted and written, and `KeySchedule.dfy` what the keys are made of and what follows from it. `ContentCodec.dfy` and `SealingCodec.dfy` are the
   client's code over buffers, offsets and cursors, proved against those functions.
3. **The browser.** `Session.dfy`, `ReaderSteps.dfy` and `ComposerSteps.dfy` are state machines whose operations
   stop at every `await`, with `ReaderCalls.dfy` and `ReaderOverlaps.dfy` on what the reader requests, and `ReaderEffects.dfy` and
   `ComposerEffects.dfy` on when each operation starts, what it leaves behind and how long.
   `SensitiveSession.dfy`, `Reader.dfy` and `Composer.dfy` are the objects: each public method runs the
   synchronous code up to the next await, is one transition of its machine, and keeps its invariant.
   `TextMetrics.dfy` is the chunked counter.

## Assumptions

- The clock does not go backwards and stands still inside one script. Challenge tokens are fresh. A command
  fails only where the script catches its error, without effect, and compensating commands succeed. Once the stored
  expiry of a note, a lease or a spent marker is reached its key may vanish at any later moment, or stay; so the
  second by which a lease can outlive its value is covered.
- A script call of the API runs at most once and its reply may be lost.
- SHA-256, HKDF, Argon2id and the AEAD are function values in a record. The only laws are the output lengths, that
  encryption adds 16 bytes, and that decryption inverts encryption. Where `KeySchedule.dfy` tells keys apart it also
  assumes the absence of collisions that it names; `KeySchedule.AssumptionsHaveAModel` exhibits primitives with all of it.
- NFC and lower-casing are function values: NFC is idempotent; lower-casing leaves a lower-case media type as it is
  and one that becomes a media type no longer than it was. The characters and names that a file name must not have are listed. The JSON libraries are function values with the law that parsing inverts the
  canonical printing; `Packet.LawsHaveAModel` exhibits libraries that obey it.
- Rates are rationals. One piece of browser code reads the clock once.

## Where the code and a claim about it differ

- `fromBase64Url` refuses the empty string and `base64_bytes` at length 0 accepts it; they agree on all values exactly
  for positive lengths (`Base64Url.ClientAndServerAgree`).
- After a rollback the byte total is a number where it may have been missing: it reads the same but is not the same key
  (`Valkey.RollbackIsExact`).
- A token bucket whose burst, twice its rate, is below one refuses the first request, which the window rule alone would
  grant; from one on the two agree (`Rate.BucketIsWindowRule`). The configured rates are at least one half
  (server/src/config.rs:61-63, server/src/lib.rs:59 and 74).
- The consuming request of the reader names the identifier the page holds at that moment. It is the one accepted last exactly
  as long as no load starts while another load or a preparing open of the same generation is in flight
  (`ReaderOverlaps.LoadsMayStartExactly`). The page clears before it loads again, so it meets this for any number of links.
- The client solves a challenge of 0 bits, or one that is not a 32-byte token, and the server refuses the solution; it
  accepts it in every other case (`Proof.SolutionIsAccepted`).

## Model

| member | source | states |
|---|---|---|
| Valkey.Valkey.ReleaseNote | server/src/lua/common.lua:19-26 | removes one note from all four structures and its exact charge from the total; the clamp at 0 never acts |
| Valkey.Valkey.ReapNotes | server/src/lua/common.lua:28-31 | releases the up to 128 earliest expired entries and nothing else |
| Valkey.ConstantEqual | server/src/lua/common.lua:10-17 | true exactly for two equal digests of 64 bytes |
| Valkey.RangeByScore | server/src/lua/common.lua:29 | the lowest scores up to a bound, at most limit of them, no eligible one left out below a chosen one |
| Valkey.Valkey.CreateNote | server/src/lua/create.lua:3-41 | for every set of failing commands, the all-or-nothing transition of the ledger, and the tables agree again |
| Valkey.Valkey.AdmitNote | server/src/lua/create.lua:11-41 | conflict, capacity, creation: decided from the tables as the ledger decides it |
| Valkey.Valkey.Account | server/src/lua/create.lua:15-41 | one note and charge more with the lease spent, or exactly the ledger before the writes |
| Valkey.Valkey.WriteRecords | server/src/lua/create.lua:27-38 | stops at the first failing command, with exactly the writes before it done |
| Valkey.Valkey.Rollback | server/src/lua/create.lua:19-26 | the compensation as a function of the tables |
| Valkey.RollbackIsExact | server/src/lua/create.lua:11-40 | after any number of writes the compensation restores the tables if and only if the identifier was in none of them and the challenge not spent |
| Valkey.RestoredState | server/src/lua/create.lua:19-38 | on agreeing tables, compensation after any number of writes gives agreeing tables with the same ledger |
| Valkey.AdmittedState | server/src/lua/create.lua:27-41 | all writes together give agreeing tables whose ledger has exactly the one note more |
| Valkey.Valkey.AccessNote | server/src/lua/access.lua:2-36 | is the access transition; the branch for a note without remaining views is never needed |
| Valkey.Valkey.PerformOn | server/src/lua/access.lua:18-36 | the authorised operation: the last view releases the note with its charge, another one counts down |
| Valkey.Valkey.SpendView | server/src/lua/access.lua:28-36 | one view less, or with the last one the note and its charge are gone |
| Valkey.Valkey.IssueChallenge | server/src/lua/issue.lua:2-12 | a lease and its index entry, or neither, under the cap |
| Valkey.Valkey.StoreLease | server/src/lua/issue.lua:6-12 | lease and index entry are stored both or neither |
| Valkey.Valkey.TrimLeaseIndex | server/src/lua/issue.lua:4 | keeps exactly the index entries that are not due |
| Valkey.Valkey.InspectProof | server/src/lua/inspect_proof.lua:2-7 | changes nothing and answers what the ledger answers |
| Valkey.Valkey.ReapScript | server/src/lua/reap.lua:2-6 | one bounded reaping and one trim of the lease index |
| Valkey.Valkey.ExpireNote | server/src/lua/create.lua:30 | native expiry takes the note and leaves its charge and index entry, and the tables still agree |
| Valkey.Valkey.ExpireLease | server/src/lua/issue.lua:6-8 | a lease may vanish once its expiry is reached, and nothing else changes |
| Valkey.Valkey.ExpireSpent | server/src/lua/create.lua:35 | a spent marker may vanish once its expiry is reached, and nothing else changes |
| Valkey.ReapExists | server/src/lua/common.lua:29 | every state has a range to reap |
| Valkey.AgreeReleased | server/src/lua/common.lua:20-25 | subtracting the charge never goes below 0 and gives the sum of the remaining charges |
| Valkey.AgreeAdded | server/src/lua/create.lua:27-34 | the written records agree with each other and the total is the sum of the charges |
| LedgerRuns.EveryNoteStep | server/src/lua/access.lua:3-36 | a note is touched only by its creation, an open of it, its expiry, or a revocation with the right capability |
| LedgerRuns.CapsKept | server/src/lua/create.lua:13-14 | the note count and the byte sum stay within their caps in every step |
| LedgerRuns.NotesKept | server/src/lua/access.lua:13-34 | a live note has from 1 to all of its views left and its opens and views add up to its grant, in every step |
| LedgerRuns.ConservationKept | server/src/lua/access.lua:24-36 | for each identifier, views granted are views opened, left and forfeited, in every step |
| LedgerRuns.ChallengesKept | server/src/lua/create.lua:35-40 | no challenge has a lease again after it admitted a creation, in every step |
| LedgerRuns.LeasesKept | server/src/lua/issue.lua:4-12 | every usable lease is indexed and the index is capped, in every step |
| LedgerRuns.RunKeepsInv | server/src/lua/common.lua:19-35 | all of these over every run of every interleaving |
| LedgerRuns.ReachableStates | server/src/lua/common.lua:19-35 | the invariant in every state reachable from an empty cache |
| LedgerTheorems.NoResurrection | server/src/lua/access.lua:3-34 | a consumed, revoked or expired note stays unavailable until it is created again |
| LedgerTheorems.StaysUnavailable | server/src/lua/access.lua:3-34 | to every operation and capability, an unavailable note answers as unavailable after every run without a creation of it |
| LedgerTheorems.OpenImpliesEarlierCheck | server/src/lib.rs:358-364 | whenever an open succeeds, an earlier check in the same incarnation would have succeeded without changing anything |
| LedgerTheorems.OpensWithinGrant | server/src/lua/access.lua:28-36 | between two creations an identifier is opened at most as often as granted |
| LedgerTheorems.OpensCounted | server/src/lua/access.lua:28-36 | every successful open counts once and returns the packet of its incarnation |
| LedgerTheorems.AdmittedOnce | server/src/lua/create.lua:35-40 | a challenge admits at most one creation in any run, also after its spent marker is gone |
| LedgerTheorems.UsableLeasesCapped | server/src/lua/issue.lua:4-10 | usable leases never exceed the cap |
| LedgerTheorems.InspectRejectionIsFinal | server/src/lua/inspect_proof.lua:2-7 | once inspection rejects an issued challenge, every later creation with it is rejected for its proof |
| LedgerTheorems.ReapingDrains | server/src/lua/reap.lua:2-6 | k reapings leave at most n - 128k of n due charges, so ceil(n/128) remove all, whatever else runs |
| LedgerTheorems.EntryRemoved | server/src/lua/common.lua:28-31 | an entry leaves only at its expiry, with its last view, or by an authorised revocation |
| LedgerAnswers.ReachableRecords | server/src/lua/create.lua:3-41 | in every reachable state charges, expiries, leases, spent markers and index entries are those of the requests made and the challenges issued |
| LedgerAnswers.LiveNotesFit | server/src/lua/create.lua:13-14 | in every reachable state packets and headers of all live notes, and 1024 bytes for each, fit the configured storage, and each is charged exactly that |
| LedgerAnswers.CreateAnswers | server/src/lua/create.lua:3-14 | every answer to a creation from the history: proof, conflict, and capacity if and only if the count or the bytes of all accounted requests with those of this one exceed a cap or an essential write fails |
| LedgerAnswers.CreateEffects | server/src/lua/create.lua:15-41 | an answered creation adds the whole note and turns the lease into a spent marker with the expiry the challenge was issued with; a refused one leaves everything but what it reaped |
| LedgerAnswers.AccessAnswers | server/src/lua/access.lua:2-36 | an available note answers each operation to the digest its creating request named for it and to no other, with the header, expiry, views left or packet of that request |
| LedgerAnswers.AccessEffects | server/src/lua/access.lua:4-34 | expiry, deletion and the last open free the account; another open takes one view; everything else changes nothing |
| LedgerAnswers.InspectAnswers | server/src/lua/inspect_proof.lua:2-7 | a challenge is good from its issue to its expiry until a creation used it, and then for the configured bits |
| LedgerAnswers.IssueAnswers | server/src/lua/issue.lua:2-12 | a challenge is refused if and only if the pending ones reach the cap or a write fails, and otherwise expires after the configured time |
| LedgerAnswers.IssueEffects | server/src/lua/issue.lua:4-12 | lease and index entry with the same expiry, or neither; only due index entries go |
| LedgerAnswers.ReapEffects | server/src/lua/reap.lua:2-6 | the reaped accounts and the due index entries go, and nothing else |
| Rate.Bucket.Request | server/src/lua/rate.lua:3-13 | one decision of the bucket; a grant sets the expiry 4000 ms ahead, a refusal writes nothing |
| Rate.LevelIsLeastSlack | server/src/lua/rate.lua:6-9 | x tokens are in the bucket if and only if x more fit every window since an earlier grant |
| Rate.TakeAgrees | server/src/lua/rate.lua:6-12 | a request is granted if and only if no window since an earlier grant would overflow |
| Rate.BucketIsExact | server/src/lua/rate.lua:3-13 | over every schedule, with the key expiring at any possible moment, a request is granted if and only if for every earlier grant 1000 times the grants since are at most 2000 times the rate plus the rate times the milliseconds since |
| Rate.BucketIsWindowRule | server/src/lua/rate.lua:4-10 | the bucket follows the window rule alone if and only if twice its rate is at least one |
| Rate.ExpiryIsUnobservable | server/src/lua/rate.lua:12 | the replies are those of a bucket whose key never expires |
| Rate.GrantsAreBounded | server/src/lua/rate.lua:5-11 | between any two grants of any schedule lie at most a burst and what the rate gives |
| Rate.FullAgain | server/src/lua/rate.lua:9 | two seconds after a grant the bucket is full |
| Rate.ClockBackEarnsNothing | server/src/lua/rate.lua:9 | a clock that stands still or steps back earns nothing and takes nothing away |
| Slots.AppState.Build | server/src/lib.rs:89-100 | fewer than two slots are refused; uploads get all but one; the invariant that every method keeps holds at the start |
| Slots.AppState.TakeUploadSlot | server/src/lib.rs:334 | an upload permit, or a refusal that changes nothing |
| Slots.AppState.TakePacketSlot | server/src/lib.rs:335 | the packet permit, or a refusal that still owes the upload permit |
| Slots.AppState.FinishUpload | server/src/lib.rs:337-344 | both permits return |
| Slots.AppState.Authorise | server/src/lib.rs:358-359 | only a successful check leaves a request that may take a slot |
| Slots.AppState.TakeOpenSlot | server/src/lib.rs:360 | the packet permit, or a refusal while another download holds one |
| Slots.AppState.Respond | server/src/lib.rs:364-366 | the permit moves into the response, or returns |
| Slots.AppState.Cancel | server/src/lib.rs:358-366 | an open dropped at an await returns the permit it has, if any |
| Slots.AppState.PollFrame | server/src/lib.rs:443-459 | a frame shares the permit |
| Slots.AppState.CloneChunk | server/src/lib.rs:449-455 | another handle on a chunk takes no further share |
| Slots.AppState.DropChunk | server/src/lib.rs:431-439 | the last handle of a chunk gives up its share, and the permit returns exactly with the response |
| Slots.AppState.DropResponseBody | server/src/lib.rs:427-430 | the permit returns exactly when no chunk is alive |
| Slots.AppState.ReleasePermit | server/src/lib.rs:427-439 | the last share returns the permit, no other does |
| Slots.ChunkGoneOwned | server/src/lib.rs:448-455 | a dropped chunk is the last owner exactly when the body and all other chunks are gone |
| Slots.BodyGoneOwned | server/src/lib.rs:448-455 | a dropped body is the last owner exactly when no chunk is alive |
| Slots.Balanced | server/src/lib.rs:334-366 | each step takes from or returns to the semaphores exactly what its request gains or gives up |
| Slots.StepKeepsInv | server/src/lib.rs:314-366 | free permits and holders add up, and a response holds its permit exactly while its body or a chunk lives, after every step |
| Slots.Exec | server/src/lib.rs:314-459 | the invariant after every run |
| Slots.PermitsAreConserved | server/src/lib.rs:314-459 | the same over every run, interleaved with other processes, lost replies and cancellations |
| Slots.FullMeansDownload | server/src/lib.rs:98-99 | without a free packet permit, some download holds one |
| Slots.RefusedOpen | server/src/lib.rs:358-362 | an authorised open is refused for capacity only while another download holds a slot, and spends no view |
| Slots.OnlySlotHoldersSpend | server/src/lib.rs:358-364 | of a process's own steps only the consuming command of a slot holder changes an available note |
| SlotRuns.Transition | server/src/lib.rs:334-459 | what every step makes of its request: what it waits for, what it holds, or that it is over |
| SlotRuns.CheckAuthorises | server/src/lib.rs:358-359 | a request is authorised if and only if the check ran, its answer arrived, and the note was readable with that capability; it spends nothing |
| SlotRuns.ConsumeSpends | server/src/lib.rs:361-366 | the consuming command takes exactly one view if it runs and the note is still readable; the response follows if and only if the answer arrives |
| SlotRuns.OpensWereChecked | server/src/lib.rs:353-366 | over every run, a request that may open a note has had exactly that note checked while it was readable with exactly that capability |
| Base64Url.ToBase64Url | shared/encoding.ts:39-43 | computes the canonical encoding of section 5 of RFC 4648 |
| Base64Url.CanonicalIs | shared/encoding.ts:39-43 | character j of the encoding is the entry of the URL-safe alphabet for bits 6j to 6j + 5, and there is no padding |
| Base64Url.SextetsRoundTrip | shared/encoding.ts:39-43 | decoding the 6-bit digits of any bytes gives the bytes, and unused bits are 0 |
| Base64Url.SextetsCanonical | shared/encoding.ts:67-72 | digits whose unused bits are 0 are the encoding of what they decode to |
| Base64Url.ClientAcceptsCanonical | shared/encoding.ts:44-74 | accepts a string if and only if it is the canonical encoding of the bytes returned, not empty and within the limits |
| Base64Url.ServerAcceptsCanonical | server/src/protocol.rs:34-45 | accepts a string if and only if it is the canonical encoding of that many bytes |
| Base64Url.ClientAndServerAgree | server/src/protocol.rs:34-45 | the two decoders agree on every string if and only if the length is positive |
| Base64Url.ProxyAgrees | deploy/nginx-admission.conf:8-9 | the proxy's pattern matches exactly the identifiers both decoders accept at 32 bytes |
| Utf8.DecodeEncode | shared/encoding.ts:27-38 | decoding inverts encoding on well-formed text |
| Utf8.EncodeDecode | shared/encoding.ts:27-33 | bytes that decode are the encoding of their text, which is well-formed |
| Utf8.EncodeTextAccepts | shared/encoding.ts:34-38 | exactly the text without lone surrogates is accepted |
| Utf8.WellFormedIs | shared/encoding.ts:34-38 | well-formed text is the text in which every half of a surrogate pair stands by the other |
| Utf8.CodePointBytes | shared/encoding.ts:9 | text is encoded code point by code point in the layout of section 3 of RFC 3629, lone surrogates as U+FFFD |
| Bytes.BigEndian | shared/content.ts:88-100 | lengths are written most significant byte first |
| Content.NormalizedName | shared/content.ts:19-37 | an accepted name is its own normalization and its bytes fit the field |
| Content.NormalizedMime | shared/content.ts:38-44 | an accepted media type is its own normalization and fits the field |
| Content.PaddedLengthIsLeast | shared/content.ts:83 | the padded length is the least multiple of 4096 that covers the logical length |
| Content.PreparedFilesFit | shared/content.ts:63-82 | what pack accepts stays within the content and envelope bounds |
| Content.RoundTrip | shared/content.ts:45-180 | unpacking a packing with any padding returns the content with NFC names and lower-case or default media types |
| Content.FilesRoundTrip | shared/content.ts:95-104 | reading the written files gives them back in order |
| Content.UnpackIsCanonical | shared/content.ts:110-180 | whatever unpack accepts, pack accepts unchanged and writes the same logical bytes |
| Content.UnpackIsInjective | shared/content.ts:110-180 | no two different logical envelopes decode to the same content |
| ContentLaws.NameAnswers | shared/content.ts:19-37 | a file name is accepted if and only if its NFC form has no forbidden character, bad end or device name, is well-formed and fits 255 bytes; each refusal has its error |
| ContentLaws.MimeAnswers | shared/content.ts:38-44 | a media type is accepted if and only if it is, in lower case, two tokens around one slash within 127 units; the empty one stands for the default |
| ContentLaws.FilesAnswer | shared/content.ts:61-78 | the files are refused for the first that does not fit and for its first fault: total size, name, duplicate, media type |
| ContentLaws.PrepareAnswers | shared/content.ts:45-61 | pack accepts a text of up to 8 MiB and up to eight files, not both empty, if no file fails; every refusal has its error |
| ContentLaws.PartsAre | shared/content.ts:72-77 | what is written of file k is its normalized name, its media type and its data |
| ContentLaws.EnvelopeLayout | shared/content.ts:79-105 | the envelope byte by byte: ECN1, lengths at 4, 8 and 12, the text at 14, and every file at the sum of what lies before it |
| ContentLaws.UnpackExactly | shared/content.ts:110-180 | unpack returns a content if and only if the bytes begin with its packing, it is normalized, and they fill the least number of 4096-byte blocks |
| ContentCodec.PrepareEach | shared/content.ts:61-78 | the checks in order, with the first error |
| ContentCodec.Pack | shared/content.ts:45-109 | the buffer holds the envelope, then only random bytes up to the padded length, and unpacks to the normalized content |
| ContentCodec.Write | shared/content.ts:79-105 | every offset is right: the written region is the envelope and the rest is padding |
| ContentCodec.WriteHeader | shared/content.ts:87-94 | the four fixed fields and the text at their offsets |
| ContentCodec.WriteFiles | shared/content.ts:95-104 | the moving offset ends at the logical length |
| ContentCodec.WritePart | shared/content.ts:96-103 | one file is written where the last one ended, and nothing behind it |
| ContentCodec.UnpackBuffer | shared/content.ts:110-180 | the cursor computes the declarative reading of the buffer |
| ContentCodec.ReadFiles | shared/content.ts:144-175 | the cursor stays inside the logical region and ends at its end |
| ContentCodec.ReadHead | shared/content.ts:149-172 | the lengths and limits of one file at the cursor, and then its parts |
| ContentCodec.ReadFile | shared/content.ts:163-172 | one file is taken at the cursor with its errors in order |
| Decimals.DecimalIs | shared/encoding.ts:93-108 | a numeral is the digits of the quotient by ten and then the digit of the remainder |
| Decimals.ValueOfDecimal | server/src/protocol.rs:133 | the printed number reads back |
| Decimals.DecimalOfValue | server/src/protocol.rs:125-133 | digits without a leading zero are the printing of their value |
| Packet.SerializeInjective | shared/encoding.ts:93-108 | different headers have different serializations |
| Packet.HeaderTextIs | shared/encoding.ts:93-108 | the header is this JSON text with its ten members in order and numbers in decimal |
| Packet.AsciiIsUtf8 | shared/encoding.ts:94 | the bytes of the text are its UTF-8 encoding |
| Packet.HeaderFits | shared/encoding.ts:160-164 | the serialization of a valid header is at most 800 bytes and so within the limit |
| Packet.ParseHeaderAccepts | shared/encoding.ts:109-148 | the client reads a header if and only if the bytes are the canonical serialization of it and it is valid |
| Packet.FrameRead | shared/encoding.ts:149-167 | reading magic, length and alignment is inverse to framing |
| Packet.ClientAccepts | shared/encoding.ts:149-169 | accepts exactly the framings of canonical valid headers, and returns their parts |
| Packet.ServerAccepts | server/src/protocol.rs:72-123 | accepts exactly the same framings, and returns their parts |
| Packet.ParsersAgree | server/src/protocol.rs:72-123 | client and server accept the same byte strings and return the same header |
| Packet.LawsHaveAModel | shared/encoding.ts:115 | the assumed JSON laws are satisfiable |
| ShareLinks.FragmentsRead | shared/encoding.ts:170-205 | a fragment is read as a link if and only if it names an identifier and a secret of 32 bytes in this form, and it is then the one made for that link |
| Sealing.SameHexIsEquality | shared/index.ts:46-52 | the comparison is equality of well-formed hashes |
| Sealing.HexIs | shared/index.ts:43-45 | two lower-case digits a byte, the high half first |
| Sealing.HashesAreHex | server/src/protocol.rs:50-55 | the accepted hashes are exactly the hexadecimal texts of 32 bytes |
| Sealing.KeysExist | shared/index.ts:80-131 | keys are derived if and only if the passphrase fits, for generated secrets |
| Sealing.SealedNote | shared/index.ts:148-182 | a created note is what its header commits to |
| Sealing.CreateSucceeds | shared/index.ts:132-183 | create succeeds if and only if policy, passphrase and content are acceptable: the final size check never fires |
| Sealing.PrepareSealed | shared/index.ts:197-231 | with any passphrase preparation succeeds if and only if the derived read capability hashes to the header's |
| Sealing.DecryptSealed | shared/index.ts:232-262 | with the right keys decryption gives exactly what unpacking the clear text gives |
| Sealing.EndToEnd | shared/index.ts:132-262 | what create returns both parsers accept, the recipient can prepare and decrypt to the normalized content, and each capability hashes to its commitment |
| KeySchedule.KeysAre | shared/index.ts:80-131 | both keys are derived from master secret and stretched passphrase, or 32 zeros, under the salt of the identifier and a purpose with the kdf; a passphrase is refused exactly as listed |
| KeySchedule.CreateAnswers | shared/index.ts:132-191 | every answer of create: the refusals in order, otherwise a note with the policy asked for, one commitment for each capability, and the clear text encrypted for the canonical header |
| KeySchedule.PrepareAnswers | shared/index.ts:197-231 | every answer of prepareOpen for a valid header: wrong link, refused passphrase, wrong read key, or the read capability and the key |
| KeySchedule.PrepareRefuses | shared/index.ts:205-209 | any other header, identifier or secret is refused as an invalid package |
| KeySchedule.OtherPassphrase | shared/index.ts:97-121 | without collisions another passphrase prepares a note if and only if Argon2id gives the same under its salt, or the note has none; otherwise the error is the wrong passphrase |
| KeySchedule.OtherSecret | shared/index.ts:209-213 | without collisions no other master secret prepares a note |
| KeySchedule.KeyStaysHome | shared/index.ts:112-121 | without collisions the key that decrypts a note is not the capability sent to the server |
| KeySchedule.DecryptAnswers | shared/index.ts:232-262 | every answer of decrypt for a packet: changed header, failed authentication, or what unpack says of the clear text |
| KeySchedule.DecryptRefuses | shared/index.ts:234-241 | bytes that are no packet are refused as an invalid package |
| KeySchedule.TokenAnswers | server/src/protocol.rs:59-63 | the server takes exactly the texts of 32 bytes as capabilities and compares the digest of those bytes |
| KeySchedule.AssumptionsHaveAModel | shared/index.ts:43-67 | the assumptions on the primitives, with the absence of collisions, are satisfiable |
| SealingCodec.CreateNote | shared/index.ts:132-191 | create over its buffers computes the specification |
| SealingCodec.SealInPlace | shared/index.ts:148-182 | the packet is assembled at the right offsets |
| Proof.LeadingZerosIsBound | server/src/protocol.rs:141-143 | the bit test holds if and only if the digest as a number is below 2^(8n - bits) |
| Proof.ValidNonces | server/src/protocol.rs:125-134 | exactly the canonical decimals of 0 to 2^53 - 1 are nonces |
| Proof.HasLeadingZeros | shared/index.ts:295-302 | the byte loop decides the bit test |
| Proof.MessagesAgree | server/src/protocol.rs:140 | prefix and nonce on the client are the text the server formats |
| Proof.MessageDetermines | shared/index.ts:280-295 | two messages are equal if and only if challenge, digest of the packet and nonce are |
| Proof.WorkIsBound | shared/index.ts:280-295 | different challenges, packets or nonces with the same work exhibit a collision of the hash |
| Proof.SearchReasons | shared/index.ts:284-294 | a search that succeeds found the challenge alive, twice, at every 2048th nonce before; one that is cancelled or expires does so at such a nonce |
| Proof.SolveProof | shared/index.ts:263-305 | refused inputs exactly; otherwise the least solving nonce, exhaustion only if there is none, or the first stop with no solution before it |
| Proof.Search | shared/index.ts:280-304 | the loop, with both looks around every pause |
| Proof.SolutionIsAccepted | server/src/protocol.rs:136-144 | the server accepts the client's solution if and only if the challenge is a token with at least one bit |
| Proof.AcceptedExactly | server/src/protocol.rs:136-144 | the server accepts exactly the decimals of safe integers for which the message of the client has a digest below 2^(256 - bits), for a token and 1 to 24 bits |
| Session.StepKeepsInv | web/src/lib/session.ts:15-121 | signals of earlier generations are aborted and the current one is not; a deadline is 300000 ms after the last activity; one timer is pending, due by the deadline, exactly while there is a deadline |
| Session.StepAnswers | web/src/lib/session.ts:64-115 | when each operation clears, and the deadline it leaves otherwise: 300 seconds after the last touch, as long as there is data |
| Session.TicketsFollowClears | web/src/lib/session.ts:64-70 | after any run a ticket is valid if and only if nothing was cleared since and the deadline has not passed |
| Session.GenerationCountsClears | web/src/lib/session.ts:105-115 | the generation counts the clears of a run |
| Session.ValidateTwice | web/src/lib/session.ts:68-70 | asking again in the same moment gives the same answer and changes nothing |
| Session.Exec | web/src/lib/session.ts:15-121 | the invariant after every run |
| Session.CheckReportsTimeLeft | web/src/lib/session.ts:99-103 | the seconds left are rounded up and warned of in the last half minute, and the next look comes within a second and by the deadline |
| Session.QuietSessionsClear | web/src/lib/session.ts:89-104 | without activity as many timer firings as seconds are left clear the session, however late each comes |
| SensitiveSessions.SensitiveSession.Check | web/src/lib/session.ts:89-104 | expiry, reset or one rescheduled timer; like every method it keeps the invariant and counts its clear |
| SensitiveSessions.SensitiveSession.Clear | web/src/lib/session.ts:105-115 | next generation, aborted signal, no timer, no deadline |
| SensitiveSessions.SensitiveSession.TouchAt | web/src/lib/session.ts:71-77 | the deadline follows the activity |
| SensitiveSessions.SensitiveSession.TakeTicket | web/src/lib/session.ts:64-67 | a ticket of the generation after a due expiry, whose signal is not aborted |
| SensitiveSessions.SensitiveSession.IsValid | web/src/lib/session.ts:68-70 | valid if and only if the ticket is of this generation and the deadline has not passed: the signal needs no look; a passed deadline clears |
| SensitiveSessions.SensitiveSession.Activity | web/src/lib/session.ts:31-42 | a trusted event touches the session and queues a second look |
| SensitiveSessions.SensitiveSession.Settle | web/src/lib/session.ts:38-41 | the queued look changes nothing after a clear |
| SensitiveSessions.SensitiveSession.Fire | web/src/lib/session.ts:103 | a due timer runs the check |
| ReaderSteps.ResumeEffect | web/src/lib/controllers.ts:364-460 | a continuation of a cleared generation changes nothing, one past the deadline clears, any other goes on |
| ReaderSteps.StepKeepsInv | web/src/lib/controllers.ts:340-460 | the invariant of busy, metadata and consuming calls after every step |
| ReaderSteps.Exec | web/src/lib/controllers.ts:340-460 | the invariant after every run |
| ReaderSteps.BusyMeansOneOpen | web/src/lib/controllers.ts:364-460 | in every interleaving busy holds if and only if exactly one current open is in flight, and there is at most one consuming call per accepted load and so per load |
| ReaderSteps.ContentComesFromTheOpen | web/src/lib/controllers.ts:428-440 | content appears only from the current open, before the deadline |
| ReaderSteps.NothingComesBack | web/src/lib/controllers.ts:340-357 | from any step on that clears, nothing sensitive returns before the user loads or types, however operations in flight settle |
| ReaderEffects.LoadStarts | web/src/lib/controllers.ts:364-371 | a load starts at once, shows that it is under way, and gives the page 300 seconds |
| ReaderEffects.LoadProceeds | web/src/lib/controllers.ts:371-377 | link and metadata are taken in turn, and a failure forgets the link |
| ReaderEffects.LoadEnds | web/src/lib/controllers.ts:377-399 | a note is ready if and only if the header names the identifier of the link and grants at least the views left, and shows what was answered |
| ReaderEffects.ReadyShowsMetadata | web/src/lib/controllers.ts:364-460 | in every run a ready note shows the expiry and views of its accepted metadata |
| ReaderEffects.OpenStarts | web/src/lib/controllers.ts:400-420 | an open starts if and only if the note is ready, none is under way, and a needed passphrase is there |
| ReaderEffects.PreparedRequests | web/src/lib/controllers.ts:421-425 | the one request is sent after the passphrase was checked and forgotten; a failed check keeps the note |
| ReaderEffects.RequestEnds | web/src/lib/controllers.ts:425-460 | a sent request ends with the content and one view less or with an error, and the note forgotten either way |
| ReaderEffects.DeadlineStays | web/src/lib/controllers.ts:326-330 | the deadline stays while anything sensitive is on the page, is dropped once nothing is, and moves with activity |
| ReaderEffects.DeadlineClears | web/src/lib/controllers.ts:340-357 | from the deadline on, the first look of any kind empties the page |
| ReaderCalls.RequestsNameTheAcceptedNote | web/src/lib/controllers.ts:373-425 | in every run whose loads start while no load and no preparing open is in flight, each consuming request names the note accepted last |
| ReaderOverlaps.LoadsMayStartExactly | web/src/lib/controllers.ts:364-425 | that condition is exact: after a load that starts otherwise, some run names another note |
| ReaderOverlaps.LoadDuringOpen | web/src/lib/controllers.ts:373-425 | a load that reads its link while an open prepares redirects the request |
| ReaderOverlaps.LoadDuringLoad | web/src/lib/controllers.ts:373-425 | a load that reads its link after another load was accepted redirects the request |
| ReaderOverlaps.PageRequestsNameTheAcceptedNote | web/src/pages/View.svelte:21-36 | the page, which clears before it loads again, meets the condition however often its fragment changes |
| Readers.Reader.Load | web/src/lib/controllers.ts:364-371 | starts a load; like every method below it keeps the invariant, so busy means exactly one open in flight in every order of calls |
| Readers.Reader.Open | web/src/lib/controllers.ts:400-420 | the guards in order, then one open more in flight |
| Readers.Reader.Resume | web/src/lib/controllers.ts:371-460 | the piece after an await, with its catch and finally blocks |
| Readers.Reader.Clear | web/src/lib/controllers.ts:340-360 | overtakes everything in flight and empties the page |
| Readers.Reader.Visibility | web/src/lib/session.ts:43-46 | a hidden tab clears what is shown or being opened, a visible one checks the deadline |
| Readers.Reader.TimerFires | web/src/lib/session.ts:103 | a due timer checks the deadline |
| ComposerSteps.ResumeEffect | web/src/lib/controllers.ts:198-245 | a continuation of a cleared generation changes nothing, one past the deadline clears, any other goes on |
| ComposerSteps.StepKeepsInv | web/src/lib/controllers.ts:93-281 | the invariant of busy, link and receipt after every step |
| ComposerSteps.Exec | web/src/lib/controllers.ts:93-281 | the invariant after every run |
| ComposerSteps.BusyMeansOneOperation | web/src/lib/controllers.ts:169-281 | in every interleaving busy holds if and only if exactly one current submission or revocation is in flight, and the receipt is that of the link shown |
| ComposerSteps.LinkComesFromTheSubmission | web/src/lib/controllers.ts:220-233 | a link appears only for the note this submission sealed and the service stored under its identifier |
| ComposerSteps.FailureKeepsTheDraft | web/src/lib/controllers.ts:234-240 | a settled operation removes the draft only when it shows the link |
| ComposerSteps.NothingComesBack | web/src/lib/controllers.ts:115-133 | from any step on that clears, nothing sensitive returns before the user adds files or types, however operations in flight settle |
| ComposerEffects.SubmitStarts | web/src/lib/controllers.ts:169-197 | a draft is sealed if and only if the page is connected and idle and the draft has content within the limits; the page then has 300 seconds |
| ComposerEffects.WorkProceeds | web/src/lib/controllers.ts:200-219 | sealing, challenge and proof follow each other, and a failure leaves draft and earlier link |
| ComposerEffects.UploadEnds | web/src/lib/controllers.ts:219-245 | a confirmed upload shows link and expiry, keeps receipt and views granted, and removes the draft; any other answer gives up |
| ComposerEffects.RevokeStarts | web/src/lib/controllers.ts:258-264 | a revocation starts if and only if there is a receipt and the page is idle, and names that receipt |
| ComposerEffects.RevokeEnds | web/src/lib/controllers.ts:265-281 | a revoked note is forgotten with its link; after a failure both are still offered |
| ComposerEffects.FilesAdded | web/src/lib/controllers.ts:149-165 | files are added to an idle page if all of them with the text keep within the limits, or before these are known within 8 files and 64 MiB |
| ComposerEffects.ConnectionEnds | web/src/lib/controllers.ts:98-112 | the limits are taken over: a longer lifetime becomes the longest offered one within the limit, more views as many as allowed |
| ComposerEffects.DeadlineStays | web/src/lib/controllers.ts:85-92 | the deadline stays while anything sensitive is on the page, is dropped once nothing is, and moves with activity |
| ComposerEffects.DeadlineClears | web/src/lib/controllers.ts:115-133 | from the deadline on, the first look of any kind empties the page; the choices of lifetime and views stay |
| Composers.Composer.Init | web/src/lib/controllers.ts:93-98 | starts to connect; like every method below it keeps the invariant, so busy means exactly one operation in flight and the receipt is that of the link shown |
| Composers.Composer.Submit | web/src/lib/controllers.ts:169-200 | the guards and checks, then one submission more in flight |
| Composers.Composer.Revoke | web/src/lib/controllers.ts:258-265 | the guards, then a revocation of the note shown in flight |
| Composers.Composer.Resume | web/src/lib/controllers.ts:98-281 | the piece after an await, with its catch and finally blocks |
| Composers.Composer.AddFiles | web/src/lib/controllers.ts:149-165 | adds within the limits and touches the session |
| Composers.Composer.Clear | web/src/lib/controllers.ts:115-139 | overtakes everything in flight and empties the page |
| Composers.Composer.FirstLifetime | web/src/lib/controllers.ts:103 | an offered lifetime within the limit, and every one offered before it is above |
| TextMetrics.MeasureIs | web/src/lib/text-metrics.ts:26-39 | the measure is the number of encoded bytes and one more than the number of line feeds |
| TextMetrics.FirstCodePoint | web/src/lib/text-metrics.ts:26-39 | the bytes and line feeds of a text are those of its first code point, a pair or one unit, and of the rest |
| TextMetrics.TextMetrics.Update | web/src/lib/text-metrics.ts:12-22 | an unchanged text reports nothing; a new one replaces the count and reports only about itself |
| TextMetrics.TextMetrics.Step | web/src/lib/text-metrics.ts:23-46 | one chunk, then a timer or one report equal to the one-pass measure |
| TextMetrics.TextMetrics.Drain | web/src/lib/text-metrics.ts:41-45 | left alone the timers end with the exact report |
| TextMetrics.TextMetrics.Clear | web/src/lib/text-metrics.ts:47-55 | no timer, no text, the measure of nothing |

## Left out

- Proof.SolveProof: progress reports are not part of it, and NaN and the infinities are not among its numbers.
- Readers.Reader.Clear: revoking object URLs and zeroing the bytes of shown files are not modelled; the page forgets them.
- ComposerSteps.BusyMeansOneOperation: status texts, copying and the share link's address are not modelled, and a form edit may change any field at any time.
- ReaderSteps.BusyMeansOneOpen: status texts, copying and downloads are not modelled, and the passphrase field may change at any time.
- SealingCodec.CreateNote: the wiping of buffers after use is not modelled.
- Key names and prefixes, key types (a script's type check is a flag), the text of a lease, and the printing of numbers by Lua.
- Cipher, hash, key derivation and random number internals; the Unicode tables behind NFC and case folding.
- HTTP routing, headers, origin checks, control slots, static files, configuration parsing and request timeouts.
- Reconnects, command building and the transport to Valkey.
- The worker's message passing, object URLs, downloads, the clipboard and the pages themselves.
- ShareLinks.FragmentsRead: the URL around the fragment, with its origin, path and query, is not modelled.
- The command line programs and the deployment files other than the identifier pattern.
