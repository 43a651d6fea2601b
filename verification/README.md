# Verified model of the JWT library

The project models the stateful and the framing parts of a Go JWT library, and proves what they
keep over every call sequence, every interleaving and every input:

- the in-memory **revocation store** (`revoke.go`), a map with a lazily swept min-heap of expiry
  nodes, against the plain map store of `jwttest`; and the refresh **rotator** built on it;
- the **JWKS cache** (`keyfetch.go`) as a state machine over its locked regions, with the
  Cache-Control parser that feeds it;
- **AES Key Wrap** and the **JWE** pipeline: Concat KDF, key management, header, framing,
  nested tokens;
- the **codecs**: base64url, compact tokens and the bearer header, CMW trees, NumericDate,
  ECDSA signatures, the OpenSSH private-key framing;
- **keys**: their canonical form, JSON members and thumbprints, the indexed key set, JWK Set
  documents, and the binding of a key to one algorithm.

Round trips and invariants say that the parts fit together. What each part is, in the words of the
standard it follows and apart from the code's own functions, is said by `AesKeyWrapRfc`,
`JweParties`, `Thumbprints`, `KeyUses`, `KeyRepresentations`, `TextTables` and, for the history of
the key cache, `KeyFetcherHistory`.

Where the Go code updates state in place, a class or a loop method does so here, and its contract
ties the new state to a function of the old one; the theorems are then about that function.
Each theorem about runs quantifies over all runs. Clock readings, random draws, the network and
cryptographic primitives are parameters; the laws a theorem needs of them are its hypotheses
(`JweKeys.Laws`, `AesKeyWrap.Permutation`, `Rotation.CollisionFree`).

## Where the code differs from what is said about it

- The heap of the revocation store is kept within twice the entries plus 64 by each live
  `Revoke`, not by every call: a revocation that has already expired, or a mere read, can leave
  it larger (`RevocationRuns.WhenTheHeapIsSmall` says exactly when, two runs show it). What holds
  in every state is twice the largest number of entries so far, plus 64.
- The store and its fake differ on an empty id, and at a read whose clock goes back before an
  expiry that an earlier reading had passed, unless a read of that id has already dropped the
  entry from the fake; nowhere else (`RevocationClocks.StoreAndFakeOnAnyClock`).
- A bounded store that is full loses the rotator's revocation of a family, and the family's token
  still rotates. The rotation protocol holds over a bounded store exactly as long as there is room
  whenever reuse is detected (`Rotation.ProtocolHoldsWhileBurnsFit`, `Rotation.LostBurnForgetsReuse`).
- After a no-store response a rate-limited `Lookup` says "not found" without an error although
  the last document held the key (`KeyFetcherRuns.CleanMissExactlyAfterNoStore`).
- A CMW record with an empty value validates and marshals, but does not parse
  (`Cmws.MarshalThenParse`).
- Encryption has no size limit, decryption has; neither does encryption look at the recipient's
  key ID (`Jwe.JweRoundTrip`). A key ID that is not UTF-8 is written with U+FFFD in its place, so
  even a recipient given the same one refuses the token (`Jwe.SameKidRoundTrip`).
- The OpenSSH reader ignores octets after the private section (`OpenSsh.OuterFieldsDecide`).

## Model

| member | source | states |
|---|---|---|
| `RevocationRuns.StoreAnswersLikePlainMap` | revoke.go:117-164 | For every call sequence whose clock never goes back, every capacity and every id, the heap-based store gives the answers of a plain map that never forgets anything; full exactly when a live revocation of a new id meets `capacity` live ids. |
| `RevocationRuns.UnboundedStoreAnswersLikeFake` | jwttest/jwttest.go:84-117 | For every such sequence, the unbounded store and the fake answer alike if and only if no id is empty. |
| `RevocationRuns.ClockGoingBackTellsThemApart` | revoke.go:166-175 | Without the hypothesis on the clock the two differ: a concrete run in which the swept entry is gone from the store and still in the fake. |
| `RevocationRuns.RefusalIsExact` | revoke.go:125-137 | In every run, for any id, `Revoke` answers full if and only if the id is given, the revocation is live, the id is not live and `capacity` ids are live at that moment. |
| `RevocationRuns.RefusedCallLeavesNoTrace` | revoke.go:125-137 | Removing a refused call from any run changes no other answer. |
| `RevocationRuns.CompactionIsAmortised` | revoke.go:177-194 | In any run, all heap rebuilds together walk at most as many entries as there were `Revoke` calls; the work is what the methods below count. |
| `RevocationRuns.HeapStaysBounded` | revoke.go:135-147 | With capacity c > 0 every reachable state has at most c entries and at most 2c + 64 heap nodes. |
| `RevocationRuns.HeapFollowsThePeak` | revoke.go:117-194 | In every state of any store the heap has at most 2 * (largest number of entries in the run) + 64 nodes. |
| `RevocationRuns.WhenTheHeapIsSmall` | revoke.go:117-175 | For each kind of call, when the heap is within 2 * entries + 64 afterwards: always after a live `Revoke`, stored or refused. For a read or an inert `Revoke` the condition only restates the bound on what is kept. |
| `RevocationRuns.ReadBreaksTheHeapBound` | revoke.go:152-175 | A run after which a mere read leaves 65 stale nodes and no entry. |
| `RevocationClocks.StoreAnswersLikeWatchingMap` | revoke.go:117-175 | With no assumption on the clock, the store answers as a map that judges each revocation by the latest reading since it was stored. |
| `RevocationClocks.StoreAndFakeOnAnyClock` | jwttest/jwttest.go:84-117 | For every call sequence and any clock, store and fake answer alike if and only if every id is given and no read of an id goes back before its expiry after a reading had passed it, unless a read of that id has already dropped it. |
| `RevocationRuns.StepKeepsBounds` | revoke.go:125-147 | Each step keeps that bound, and after an accepted live `Revoke` the heap has at most 2 * entries + 64 nodes, bounded store or not. |
| `RevocationRuns.InertRevokeBreaksTheHeapBound` | revoke.go:130-133 | A run after which the heap exceeds 2 * entries + 64, because an already expired revocation deletes without compacting. |
| `RevocationModel.RevokeKeepsInv` | revoke.go:117-150 | Every timed entry keeps a heap node with its id, expiry and generation, through sweep, refusal, deletion, storing and compaction. |
| `RevocationModel.SweptKeepsInv` | revoke.go:166-175 | A sweep, which drops expired entries and nodes, keeps that invariant although stale nodes are dropped too. |
| `RevocationStore.MemoryRevocationStore.Revoke` | revoke.go:117-150 | The method over map, heap slice and generation computes the answer and the whole next state of the model, keeps the heap ordered and duplicate-free, and counts the entries its rebuild walks. |
| `RevocationStore.MemoryRevocationStore.IsRevoked` | revoke.go:152-164 | Likewise: membership of the swept map. |
| `RevocationStore.MemoryRevocationStore.RemoveExpired` | revoke.go:166-175 | The loop that pops the root while it has expired removes exactly the expired entries and nodes; the generation check spares rewritten entries. |
| `RevocationStore.MemoryRevocationStore.CompactExpirations` | revoke.go:180-194 | Rebuilds the heap into exactly the nodes of the timed entries, and only when it has more than 2 * entries + 64 nodes; the rounds of its loop are the work of the amortised bound. |
| `RevocationStore.MemoryRevocationStore.StoreEntry` | revoke.go:139-145 | The entry and, when timed, its heap node under the next generation. |
| `RevocationStore.NewWithCapacity` | revoke.go:101-115 | Refuses exactly the capacities that are not positive; otherwise the store is empty. |
| `ExpiryHeap.Push` | revoke.go:64-69 | `heap.Push`: heap order kept, multiset grown by the new node. |
| `ExpiryHeap.Pop` | revoke.go:70-78 | `heap.Pop`: takes the root, keeps the order and the multiset of the rest. |
| `ExpiryHeap.Init` | revoke.go:192 | `heap.Init` orders any slice, same multiset. |
| `ExpiryHeap.Up` | revoke.go:67-68 | Sifting up restores a heap with one node out of place. |
| `ExpiryHeap.Down` | revoke.go:67-68 | Sifting down restores the order from a position on, leaving the tail untouched. |
| `ExpiryHeap.RootIsEarliest` | revoke.go:166-170 | The root expires no later than any node, so a sweep may stop at the first live root. |
| `FakeStores.FakeRevocationStore.Revoke` | jwttest/jwttest.go:84-95 | The map assignment of the fake, or its preset error and no change. |
| `FakeStores.FakeRevocationStore.IsRevoked` | jwttest/jwttest.go:98-117 | The answer and the deletion of an expired entry, or its preset error and no change. |
| `Rotation.OnlyTheNewestTokenRotates` | examples/refresh_rotation/main.go:23-55 | With collision-free hashes and the unbounded store, over every event sequence a family answers exactly as a one-token automaton: only the newest token rotates until another is presented, then none does. |
| `Rotation.ProtocolHoldsWhileBurnsFit` | examples/refresh_rotation/main.go:23-55 | The same over a store of any capacity, for every event sequence in which the store has room whenever the family's reuse is detected. |
| `Rotation.LostBurnRevivesTheFamily` | examples/refresh_rotation/main.go:41-45 | After the first detection without room, the held token still rotates where the automaton answers reuse. |
| `Rotation.LostBurnForgetsReuse` | examples/refresh_rotation/main.go:23-45 | After any first detection without room, whether the family held a token or not, the next token issued rotates where the automaton answers reuse. |
| `Rotation.BurnLostInFullStore` | examples/refresh_rotation/main.go:41-45 | A run over a store of capacity one in which the held token rotates after reuse was answered. |
| `Rotation.ReuseIsForever` | examples/refresh_rotation/main.go:34-55 | After one rotation of a family was answered with reuse, every later rotation of it is. |
| `Rotation.BurnIsLostExactlyWhenFull` | examples/refresh_rotation/main.go:41-45 | With a bounded store the family is not revoked on reuse if and only if the store is full of live ids at that moment. |
| `Rotation.OtherEventsKeepTrack` | revoke.go:166-175 | Store calls for other ids, sweeps, compactions and other families leave a family's standing as it is, for every capacity. |
| `Rotation.Rotator.Issue` | examples/refresh_rotation/main.go:23-32 | The answer and the new live map. |
| `Rotation.Rotator.Rotate` | examples/refresh_rotation/main.go:34-55 | The answer, the live map and the store's contents after the check, the comparison and the burn or the replacement. |
| `KeyFetcherRuns.WithdrawnKeysExpire` | keyfetch.go:194-268 | In every interleaved run with a clock that never goes back, where flights land within D with a document published between their start and end, a key withdrawn at T is never the answer of a Lookup begun at or after T + D + max(minRefresh, maxCache) + maxStale. |
| `KeyFetcherRuns.BoundIsReached` | keyfetch.go:194-268 | Under every configuration and limit a run in which a Lookup begun one moment before the last one that bound allows still answers the withdrawn key, so no term can be left out. |
| `KeyFetcherRuns.PublishedKeysAreFound` | keyfetch.go:194-243 | In every such run, a kid published from T on is not answered with a clean "not found" by a Lookup begun at or after T + max(D, minRefresh), unless it did not wait and the last attempt, less than minRefresh old, was no-store. |
| `KeyFetcherRuns.SingleFlight` | keyfetch.go:303-355 | In every interleaving, where any unfinished flight may land, at most one flight is unfinished. |
| `KeyFetcherRuns.LookupAttemptsAreSpaced` | keyfetch.go:205-213 | An attempt begun by Lookup starts at least minRefresh after the previous attempt, even one forced by Refresh. |
| `KeyFetcherRuns.AttemptsInWindow` | keyfetch.go:280-282 | Without Refresh any window of length W holds at most 1 + W / minRefresh attempts. |
| `KeyFetcherRuns.ReturnsSeeOwnFlight` | keyfetch.go:214-230 | Every waited result comes from a flight in progress when the caller began: the answer of its document, or, when it failed, its error or the key of a document that may be retained. |
| `KeyFetcherRuns.ReturnNamesTheFlightJoined` | keyfetch.go:212-216 | Whatever happens in between, the flight of a caller's result is the one in progress right after the caller began, be it a Lookup or a Refresh. |
| `KeyFetcherRuns.LandingsAreFinal` | keyfetch.go:319-355 | No later step changes a landed flight. |
| `KeyFetcherRuns.CleanMissExactlyAfterNoStore` | keyfetch.go:205-210 | When the last document held the key and the rate limit forbids an attempt, Lookup answers "not found" without an error if and only if that document was no-store. |
| `KeyFetcherRuns.CleanMissHappens` | keyfetch.go:205-210 | Under every configuration two steps lead to such an answer. |
| `KeyFetcherHistory.AnswersFollowHistory` | keyfetch.go:194-268 | In every run, what a Lookup is told at once, or that it must wait, is determined by the flights so far: the last document, its Cache-Control, when it landed, and the last attempt. |
| `KeyFetcherHistory.FailedFlightAnswers` | keyfetch.go:218-230 | In every run, a caller whose flight failed is given the key of the last document while that may still be used, and otherwise the failure. |
| `KeyFetcherHistory.FreshnessIsExact` | keyfetch.go:334-348 | While a Lookup could wait, a kid of the last document is answered at once if and only if that is stored and younger than nothing after no-cache, min(max-age, maxCache) with a max-age, and minRefresh otherwise. |
| `KeyFetcherHistory.NoCacheAlwaysWaits` | keyfetch.go:341-343 | After a no-cache landing every Lookup that may attempt or finds a flight in progress waits for a flight. |
| `KeyFetchers.KeyFetcher.BeginLookup` | keyfetch.go:194-213 | The first locked region: the answer at once, or the joined or started flight and the new state. |
| `KeyFetchers.KeyFetcher.StartFlight` | keyfetch.go:303-317 | Joins the flight in progress or starts one and records the attempt. |
| `KeyFetchers.KeyFetcher.FallbackSet` | keyfetch.go:253-268 | The retained document while its stale window is open, else the error. |
| `KeyFetchers.KeyFetcher.Complete` | keyfetch.go:319-355 | The landing: document, freshness, no-store and error are recorded, the flight is done with that outcome. |
| `KeyFetchers.KeyFetcher.EndLookup` | keyfetch.go:218-230 | Answers from the caller's own flight, and from the cache only if that failed. |
| `CacheControl.ParseCacheControl` | keyfetch.go:547-576 | The loops over lines and parts, with their trimming, cutting and case folding of octets, compute the fold of the directives. |
| `CacheControl.OnlyTheDirectivesMatter` | keyfetch.go:547-576 | Two header lists with the same multiset of directives parse alike, in whatever order and lines. |
| `CacheControl.LinesJoin` | keyfetch.go:550-553 | Two header lines and their join with a comma have the same directives. |
| `CacheControl.FoldedIsDescribed` | keyfetch.go:547-576 | What the loop computes, told from the multiset alone: the flags, and a max-age that counts only when it occurs once. |
| `CacheControl.MaxAgeSaturates` | keyfetch.go:578-603 | An unquoted all-digit value of any length gives min(v seconds, the longest duration), never an overflow. |
| `CacheControl.QuotedMaxAge` | keyfetch.go:578-586 | Quotes around the digits make no difference. |
| `CacheControl.DirectivesAreRecognised` | keyfetch.go:554-572 | The three names mean what they say, bare or with a value; any other lower-case name is ignored. |
| `CacheControl.OtherValuesAreZero` | keyfetch.go:588-596 | An empty value, or digits followed by anything else, counts as zero seconds. |
| `TextTables.TrimSpaceExactly` | keyfetch.go:554-555 | Trimming takes off both ends exactly the characters that Unicode calls white space. |
| `TextTables.OneIsEncoded` | keyfetch.go:554 | What is read as one character is the UTF-8 encoding of a scalar value. |
| `KeyWrapRounds.ShiftIsIndexedRotated` | jwe_aeskw.go:28-47 | After any round and block, the shift register of section 2.2.1 of RFC 3394 holds the indexed registers rotated by the block index. |
| `AesKeyWrap.IndexedWrapIsShiftRegister` | jwe_aeskw.go:28-47 | Wrapping with indices equals shifting the registers, for every length and every block function. |
| `AesKeyWrapRfc.WrapFollowsTheStandard` | jwe_aeskw.go:18-50 | The wrapping is the output of the steps of section 2.2.1 of RFC 3394, written with the halves of the cipher block and an exclusive or told bit by bit. |
| `AesKeyWrapRfc.CounterBits` | jwe_aeskw.go:43-44 | Each bit of the mixed register is the parity of that bit of the register and of the step counter. |
| `AesKeyWrapRfc.WrapTakes` | jwe_aeskw.go:18-27 | Wrapping succeeds if and only if there are two or more whole blocks under a key AES takes. |
| `AesKeyWrap.UnwrapInvertsWrap` | jwe_aeskw.go:18-89 | For every block permutation and valid length, unwrapping a wrapping gives the key data back. |
| `AesKeyWrap.WrapInvertsUnwrap` | jwe_aeskw.go:54-89 | Whatever unwraps is the wrapping of its result, so only real wrappings are accepted. |
| `AesKeyWrap.WrapIsInjective` | jwe_aeskw.go:18-50 | Different key data never wraps to the same octets. |
| `KeyWrapRounds.UnwrapUndoesRest` | jwe_aeskw.go:66-80 | From any round and block on, the unwrapping steps undo the wrapping steps. |
| `KeyWrapRounds.WrapRedoesRest` | jwe_aeskw.go:33-47 | And the wrapping steps redo the unwrapping steps. |
| `AesKeyWrap.Wrap` | jwe_aeskw.go:18-50 | The in-place nested loops compute the wrapping that the standard prescribes (`AesKeyWrapRfc.WrapFollowsTheStandard`), with its length and key-size errors. |
| `AesKeyWrap.Unwrap` | jwe_aeskw.go:54-89 | Likewise for unwrapping, the integrity check included. |
| `ConcatKdf.ConcatKDF` | jwe_ecdh.go:19-34 | The buffer writes build the hashed octets of the specification. |
| `ConcatKdf.WriteLenPrefixed` | jwe_ecdh.go:36-40 | Appends the length and the field, keeping what was written. |
| `ConcatKdf.DerivationsAreSeparated` | jwe_ecdh.go:19-40 | For agreed values of one width, two derivations hash the same octets if and only if secret, algorithm, both parties and key length are equal. |
| `JweParties.DerivedIsFront` | jwe_ecdh.go:19-40 | The derived key is the front of the digest of counter 1, secret, algorithm, both parties and the key length, each field after its 32-bit length: section 4.6.2 of RFC 7518 in octets. |
| `Jwe.JweRoundTrip` | jwe.go:171-257 | In every key-management mode and for every content algorithm, encryption for a matching recipient succeeds, and decryption returns the plaintext if and only if the token is within the size limit and the key IDs do not conflict, the sender's as the JSON codec writes it; else nothing. |
| `Jwe.SameKidRoundTrip` | jwe.go:222-224 | With one key ID at both ends, the plaintext comes back if and only if the token is within the limit and that key ID is valid UTF-8. |
| `Jwe.AcceptedIsSealed` | jwe.go:216-257 | Any accepted token is the one spelling of its protected text, the octets its key unwraps from, an IV and the seal of the returned plaintext. |
| `Jwe.HeaderArrives` | jwe.go:265-314 | The recipient's vetted header is the sender's, "typ", "cty" and the ephemeral key included, each text as the JSON codec writes it, exactly when the token is within the limit. |
| `Jwe.VettedExactly` | jwe.go:288-311 | A header is taken if and only if alg and enc are given, no "zip" and no "crit" is present, and an ephemeral key is an object without any private member. |
| `Jwe.ParsedExactly` | jwe.go:265-314 | A token parses if and only if it is within the limit, has five segments, and the first is a canonical text of such a header. |
| `JweHeaders.MendedHeaderMembers` | jwe.go:180-185 | Through the JSON text a header comes back with what is not UTF-8 replaced, and otherwise as it was. |
| `Utf8.MendedIfInvalid` | jwe.go:180 | That replacement leaves a text as it is if and only if it is valid UTF-8. |
| `Jwe.FramedSplits` | jwe.go:200-206 | The five segments of a built token are cut apart where they were joined. |
| `JweKeys.UnwrapUndoesWrap` | jwe_ecdh.go:69-160 | In all four modes and both agreement algorithms, the recipient recovers the sender's content-encryption key. |
| `JweKeys.SecretsAgree` | jwe_ecdh.go:111-138 | Given the ephemeral key in the header, both sides agree on the same secret, with empty party information. |
| `JweKeys.OnlyWrappingsUnwrap` | jwe_aeskw.go:110-121 | Where a key is wrapped, no other encrypted-key octets unwrap to the recovered key. |
| `JweParties.AgreementExactly` | jwe_ecdh.go:105-160 | For any sender and any parties its header names, an agreement recovers a key if and only if it is the one derived with apu as PartyUInfo and apv as PartyVInfo, or unwrapped under that one. |
| `JweParties.AgreementRefused` | jwe_ecdh.go:111-182 | Nothing is recovered without an ephemeral key on the recipient's curve, from parties that are no base64url, or from two given parties that are alike. |
| `JweParties.PartiesExactly` | jwe_ecdh.go:166-182 | The parties read are u and v if and only if the header spells u as apu and v as apv, and they are not both given and equal. |
| `JweParties.DirectExactly` | jwe_direct.go:25-31 | A direct key is used if and only if no encrypted key was sent and it fits the content algorithm. |
| `JweParties.WrappingExactly` | jwe_aeskw.go:110-121 | A wrapped key is recovered if and only if the octets are its wrapping and it fits the content algorithm. |
| `JweParties.OaepExactly` | jwe_rsa.go:36-43 | An RSA-encrypted key is recovered if and only if it decrypts and fits the content algorithm. |
| `JweParties.RegisteredNames` | jwe.go:23-41 | Each key serves the "alg" of its name only, and each "enc" has its registered key size. |
| `JweHeaders.HeaderRoundTrip` | jwe.go:73-85 | A header with a canonical public ephemeral key reads back from its members as it was written, and passes the check for private members. |
| `JweSteps.WrapInto` | jwe_ecdh.go:69-103 | wrap, with the loops and buffers underneath: the key, the encrypted key, and the header with its ephemeral key put in. |
| `JweSteps.Unwrap` | jwe_ecdh.go:111-160 | unwrap of each mode computes the specification, length guards included. |
| `JweSteps.ParseJweProtected` | jwe.go:265-314 | The vetting of a token's header fills the header variable and returns the segments, or the error of the first failed check. |
| `JweSteps.Encrypt` | jwe.go:171-207 | The steps of encrypt compute the specified token or error. |
| `JweSteps.Decrypt` | jwe.go:216-257 | The steps of Decrypt compute the specified plaintext or nothing. |
| `NestedJwt.NestedTokenArrives` | jwe.go:402-506 | A nestable signed token, encrypted with any options for a matching recipient that lists the sender's algorithms, reaches the inner verifier unchanged: the result is what verifying it directly gives. |
| `NestedJwt.NestedAnswers` | jwe.go:472-587 | Any token of a matching sender gets exactly the answer its size, algorithms, key IDs, "cty", "typ" and inner token call for under the policy: an unlisted algorithm is refused if and only if the token parses. |
| `NestedJwt.AcceptedIsListed` | jwe.go:472-587 | Whoever made it, an accepted token names a listed "alg" and a listed "enc", neither of them "none", is marked as nested, and its content passed the inner verifier. |
| `NestedJwt.NestableExactly` | jwe.go:426-466 | A text can be nested if and only if it is within the limit, of three parts, with an object, a signature and a named algorithm other than "none". |
| `NestedJwt.TypeMatchesExactly` | jwt.go:588-598 | Media types agree up to the case of letters, "application/" being understood where one has no slash. |
| `B64.DecodeIsExactlyInverse` | internal/b64/b64.go:13-31 | Decode accepts exactly the image of Encode and inverts it. |
| `B64.LenientDecodingIsMalleable` | internal/b64/b64.go:20-31 | Without the line-break check or the strict mode one octet string would have several texts: concrete texts. |
| `B64.AlphabetTable` | internal/b64/b64.go:13-31 | The sixty-four characters of the URL-safe alphabet, in their order, and no others have values. |
| `B64.KnownTexts` | internal/b64/b64.go:13-31 | The examples of section 10 of RFC 4648 without padding, and one with the last two characters. |
| `Strings.SplitIsExact` | jwe.go:272 | A text is cut in exactly one way at its separators, and joining undoes the cut. |
| `Compact.Split3IsExact` | jwt.go:601-618 | split3 accepts exactly the texts with two dots and cuts them there. |
| `Compact.OneTokenPerContent` | jwt.go:189-240 | Three octet strings are the decoded content of exactly one token text. |
| `Compact.SignedTokenTravels` | jwt.go:135-142 | Every token Sign builds passes through a bearer header and split3 unchanged and decodes to what was signed. |
| `Compact.BearerIsExact` | httpauth.go:19-63 | The header yields a token if and only if it is the scheme in any case, one or more spaces, and that b64token. |
| `Compact.B64TokenExactly` | httpauth.go:41-63 | A b64token is one or more letters, digits and marks, then any number of equals signs. |
| `EcdsaSignature.SignatureIsExact` | internal/alg/alg.go:281-294 | At one width, a signature is read as r and s if and only if it is their fixed-width form. |
| `EcdsaSignature.WriteSignature` | internal/alg/alg.go:250-254 | Filling the two halves of the buffer gives that form, for integers that fit. |
| `EcdsaSignature.HalvesAreIntegers` | internal/alg/alg.go:250-254 | The first half denotes r and the second s, most significant octet first. |
| `Cmws.MarshalThenParse` | cmw.go:169-302 | A CMW that marshals parses back to itself if and only if no record value is empty; else it is refused. |
| `Cmws.ParserAgreesWithValidator` | cmw.go:128-302 | At every depth, a value's tree parses to it if and only if it validates there and has no empty record value. |
| `Cmws.ParsedIsValid` | cmw.go:191-302 | Whatever parses at a depth validates at that depth, by induction over nested collections. |
| `Cmws.SameDepthLimit` | cmw.go:128-219 | A record in n nested collections validates if and only if n <= 16, and reads back if and only if n <= 16. |
| `Cmws.MarshallingSucceeds` | cmw.go:169-189 | Marshalling's repeated validation of every member never fails on a valid value. |
| `Cmws.ParseThenMarshal` | cmw.go:97-126 | What was parsed marshals, and parses to the same value again. |
| `Cmws.RecordExactly` | cmw.go:221-266 | An array is read as a record if and only if it holds a media type, a base64url text and at most an indicator of 32 bits. |
| `Cmws.CollectionExactly` | cmw.go:268-302 | An object is read as a collection if and only if it has a member, its type is sound and every other member is read one level deeper. |
| `Cmws.RecordTreeExactly` | cmw.go:170-177 | A record marshals to its type, its value in base64url, and its indicator when it has one. |
| `Cmws.CollectionTreeExactly` | cmw.go:179-188 | A collection marshals to exactly its members, and its type when it has one. |
| `Cmws.ParseCmw` | cmw.go:191-219 | The recursive parser computes the specification. |
| `Cmws.ParseCollection` | cmw.go:268-302 | The loop over the members, in any order, fills the specified collection or refuses. |
| `NumericDates.PrintedDenotesInstant` | claims.go:142-166 | The printed text is a JSON number denoting exactly sec + nsec / 10^9, negative instants included. |
| `NumericDates.NoTrailingZero` | claims.go:155-165 | A printed fraction ends neither in a zero nor in its point. |
| `NumericDates.PrintedIsInjective` | claims.go:142-166 | Distinct instants print differently. |
| `OpenSsh.OuterRoundTrip` | internal/keyparse/keyparse.go:121-165 | Reading a written blob returns its fields and leaves exactly what follows. |
| `OpenSsh.WrittenKeyParses` | internal/keyparse/keyparse.go:121-254 | A written key of each type, whatever its check integers, its padding and what follows it, is refused for a mismatch if and only if the check integers differ, and else parses back as its fields if and only if the checks accept them, numbers written with any leading zeros. |
| `OpenSsh.UnknownTypeIsRefused` | internal/keyparse/keyparse.go:167-241 | A written key of any other type is refused. |
| `OpenSsh.CurvesOnTheWire` | internal/keyparse/keyparse.go:243-254 | The three curve names, spelled out, and the width of each coordinate. |
| `OpenSsh.PointsAccepted` | internal/keyparse/keyparse.go:211-236 | An ECDSA key is accepted if and only if its point is uncompressed, of full width, and the one of its scalar. |
| `OpenSsh.ProperPrefixIsShort` | internal/keyparse/keyparse.go:258-300 | Every proper prefix of a written blob falls short. |
| `OpenSsh.TruncatedBlobIsRefused` | internal/keyparse/keyparse.go:121-146 | So every truncated key is refused, with the error of the place where it was cut. |
| `OpenSsh.LatchIsForever` | internal/keyparse/keyparse.go:258-300 | Once a read has fallen short, no later sequence of reads consumes an octet or clears the error. |
| `OpenSsh.OuterExtends` | internal/keyparse/keyparse.go:265-300 | A read that succeeds reads the same when more octets follow. |
| `OpenSsh.OuterFieldsDecide` | internal/keyparse/keyparse.go:121-146 | Cipher, KDF and key count alone decide the outer result; trailing octets are ignored. |
| `OpenSsh.SshBuf.U32` | internal/keyparse/keyparse.go:265-279 | The read, the advance and the latch. |
| `OpenSsh.SshBuf.Str` | internal/keyparse/keyparse.go:281-296 | Likewise for a length-prefixed string. |
| `OpenSsh.SshBuf.Mpint` | internal/keyparse/keyparse.go:298-300 | Likewise for an integer. |
| `OpenSsh.ParseBody` | internal/keyparse/keyparse.go:167-254 | The reads of each key type on the shared cursor and the checks of lengths, curve, point and scalar, with a short read reported first. |
| `OpenSsh.ParsePrivateKey` | internal/keyparse/keyparse.go:121-165 | The key or the first error, in the order of the checks. |
| `Keys.ThumbprintNamesTheMaterial` | thumbprint.go:68-97 | Two supported keys have the same thumbprint text if and only if they have the same type, curve and numeric or raw material, whatever their kid, use, key_ops and alg. |
| `Thumbprints.MembersAreTheRequired` | thumbprint.go:68-97 | The text holds exactly the members that RFC 7638 requires for the type. |
| `Thumbprints.NamesAreSorted` | thumbprint.go:68-97 | They come in strictly increasing lexicographic order. |
| `Thumbprints.ValuesAreTheKeysOwn` | thumbprint.go:68-97 | Each has the value that the key's own JSON has under that name; a secret, which has no such member, its base64url. |
| `Thumbprints.TextIsTheObject` | thumbprint.go:68-97 | And the text is one JSON object of them, without white space. |
| `Thumbprints.BytesAgreeWithKeys` | thumbprint.go:35-56 | The thumbprint text of raw material is that of the key made of it. |
| `Keys.PaddedModulusHasAnotherThumbprint` | key.go:211-218 | With a leading zero the same RSA numbers would have a second thumbprint; such a key is not canonical. |
| `Keys.CheckCanonical` | key.go:180-233 | The loop with its seen map and bit mask accepts exactly the canonical keys. |
| `KeyRepresentations.CanonicalExactly` | key.go:180-233 | A key is canonical if and only if its operations do not repeat, agree with "use" and are of one kind, RSA numbers are minimal and within 8192 bits, and coordinates have full width. |
| `KeyRepresentations.PublicKeyExactly` | key.go:305-358 | A key has a public key if and only if its type and curve are supported and its material is complete, in range and on the curve. |
| `KeyJson.KeyRoundTrip` | key.go:92-168 | A key that marshals reads back as itself if and only if it is canonical and has no secret octets. |
| `KeySets.KeySetAnswersLikeMap` | jwttest/jwttest.go:31-60 | A new set and the plain map provider answer every Lookup alike if and only if at most one key was given or some key has a kid. |
| `KeySets.KeySet.Add` | keyset.go:53-73 | Replaces in position or appends; kids stay unique and the index exact. |
| `KeySets.KeySet.Remove` | keyset.go:76-90 | Drops the keys with the kid and keeps the order of the rest, index rebuilt. |
| `KeySets.KeySet.RebuildIndex` | keyset.go:92-99 | The rebuilt index maps exactly the non-empty kids to their positions. |
| `KeySets.KeySet.Lookup` | keyset.go:105-129 | The indexed lookup equals a linear scan, and the bounds guard is never needed. |
| `KeySets.KeySet.Of` | keyset.go:31-38 | Seeding is adding one after the other. |
| `KeySets.NewFakeKeyProvider` | jwttest/jwttest.go:31-38 | The fake keeps the last key given for each kid. |
| `KeySetDocuments.ServedSetReadsBack` | keyset.go:148-236 | A served set of keys that have a public form reads back strictly as the same keys in the same order. |
| `KeySetDocuments.ServableReadsBack` | keyset.go:251-280 | A public key reads back from its own member if and only if it is canonical, has a kty, no secret octets, a sound representation and is within the limits. |
| `KeyRepresentations.MemberExactly` | keyset.go:251-280 | A member is read as a key if and only if it is an object within its limits that spells that key, and the key has a type, is canonical and is complete if supported. |
| `KeyRepresentations.DocumentExactly` | keyset.go:187-206 | A document is read if and only if it is within its limit and its "keys" is an array of at most 128 members. |
| `KeySetDocuments.ReadersAgreeWithoutDiagnostics` | keyset.go:187-249 | The permissive reader reports nothing if and only if the strict one accepts and every key is understood; then both build the same set. |
| `KeySetDocuments.ReadThumbprintsNameKeys` | thumbprint.go:68-97 | Keys of any two documents read permissively have the same thumbprint text if and only if they have the same material: no document spells a key in a second way. |
| `KeySetDocuments.ParseKeySet` | keyset.go:187-236 | The document checks and the loop build the specified set and diagnostics. |
| `KeySetDocuments.CollectKeys` | keyset.go:208-235 | The loop: strict stops at the first bad member, permissive reports its position and goes on. |
| `AlgorithmBinding.RequireUnambiguous` | jwt.go:693-722 | The check passes if and only if the key has an alg or at most one algorithm identity in the allowlist is usable with it. |
| `AlgorithmBinding.AtMostOneIdentity` | jwt.go:698-720 | The loop with its seen map decides exactly that, EdDSA and Ed25519 counted as one. |
| `AlgorithmBinding.OneKeyOneAlgorithm` | jwt.go:236-282 | Under one allowlist a key verifies tokens of one algorithm identity only. |
| `AlgorithmBinding.OrderDoesNotMatter` | jwt.go:621-632 | Only the set of names in the allowlist matters, not order or repetition. |
| `AlgorithmBinding.NoTypeConfusion` | jwt.go:236-282 | Keys accepted, under any two allowlists, for one algorithm identity are of one key type, so a public key never stands in for a secret. |
| `KeyUses.UsableExactly` | key.go:381-468 | A key verifies an algorithm if and only if use, key_ops and alg allow it and its type, curve, size and numbers are those the algorithm takes. |
| `KeyUses.UseIsRespected` | key.go:439-446 | A usable key has no use but "sig", and key_ops empty or with "verify"; "sig" changes nothing against no use, "enc" excludes every algorithm. |
| `KeyUses.EveryAlgorithmHasAKey` | key.go:381-432 | For every algorithm a key that verifies it; on a curve, any of its points. |
| `KeyUses.AcceptsExactly` | jwt.go:236-282 | A key is taken for a token's algorithm if and only if that is listed, is not "none", suits the key, and, for a key without alg, no other listed algorithm suits it. |
| `KeyUses.OneIdentityExactly` | jwt.go:693-722 | At most one identity is usable if and only if any two usable names name one algorithm. |
| `AlgorithmBinding.FilterNone` | jwt.go:621-632 | The loop keeps exactly the names that are neither empty nor "none". |

## Left out

- Cryptographic primitives (AES, GCM, SHA-2, HMAC, RSA, ECDSA, Ed25519, curve arithmetic, randomness) are parameters with the laws of `JweKeys.Laws`; constant-time comparison is not expressible. GCM's 64 GiB plaintext limit, beyond which Seal panics, is not part of the AEAD law.
- JSON text, regular expressions, `mime`, `net/url`, DER and PEM parsing are library code: JSON is a tree, the header codec is an abstract pair that gives members of texts back with each text in valid UTF-8, media types and URIs are predicates.
- HTTP, redirects, URL policy, OIDC discovery, Middleware, challenge writing: I/O.
- Goroutines and mutexes: each locked region is one atomic step. Time is an integer and each clock reading a parameter; the zero-time sentinels are options. Saturation of time differences beyond 292 years is not modelled.
- Wrap-around of the store's 64-bit generation counter.
- ExpiryHeap.Up: works on the slice as a value, as do the other heap operations; the in-place exchange in `container/heap` is `Swap`, and aliasing of the slice is not modelled.
- JweSteps.Encrypt: plaintexts, keys and tokens are values, and the header variable holds one value rather than ten fields, so aliasing of buffers is not modelled.
- NestedJwt.NestedAnswers: lower-casing of media types is modelled on ASCII only; the inner verification is a parameter.
- NestedJwt.NestedTokenArrives: a token that may not be nested is refused with one error; the Go code tells six reasons apart in its message.
- CacheControl.ParseCacheControl: in a quoted value a character beyond ASCII, escaped or not, is not told apart from others of its kind; none of them is a digit.
- OpenSsh.ParseBody: rsa.PrivateKey.Validate and the public point of a scalar are parameters, as is the int64 conversion of an RSA exponent.
- Keys.ThumbprintNamesTheMaterial: the quoting of member values covers quotes and backslashes, which is all that supported keys can need.
- The digest of a thumbprint: a hash of the modelled text.
- Key.Clone and the deep copies at the boundaries of KeySet: values here cannot be shared.
- FakeKeyProvider's preset error, and the mutexes of both fakes.
- NumericDate.UnmarshalJSON goes through a float64 and loses precision; the printer is proved against exact decimals instead.
- ValidateStringOrURI, the claim validators, `crit` diagnostics, option merging, error wrapping and status classification: each is settled by reading one branch.
- Opaque token formatting, beyond a collision-free hash for the rotator.
