# A verified model of the Observer Protocol algorithms

The repository is a set of FastAPI services around a few small algorithms and state machines. This
project models those in Dafny and proves what they keep over every input and every run:

- **Compressed keys** (`NumberTheory`, `Hex`, `PointCodec`): the modular square root of secp256k1 key
  decompression, from Euclid's lemma through Fermat's little theorem and Euler's criterion to
  sections 2.3.3 and 2.3.4 of SEC 1, and the fallback key recovery that relies on it.
- **Merkle trees** (`MerkleTree`, `MerkleHash`, `MerkleBuilder`): completeness and binding of inclusion proofs,
  for any pair hash and for the one of the code, and the tree builder with the list aliasing of the Python code.
- **Status lists** (`Bitstring`, `StatusCodec`, `StatusChecker`, `StatusLists`, `StatusLifecycle`): bit
  arithmetic, base64url (section 5 of RFC 4648), updates, index allocation and status checks
  (Bitstring Status List v1.0), up to the permanence of revocation over whole runs.
- **Status cache** (`StatusCache`, `CacheLifecycle`): agreement of cached answers with the upstream
  check they save, and how soon a revocation reaches every read.
- **Rate limiter and policy client** (`RateLimiter`, `PolicyClient`), with the write path that consults it.
- **Request protocols** (`ChainVerify`, `MagicLink`, `SamlRequests`).
- **Audit ledger** (`AuditLedger`, `AuditCoverage`).

Code that updates objects is a class whose methods are proved equal to a step function; properties of
runs are lemmas about sequences of steps. `Common` holds shared types.

## How to read the model

- Libraries enter as parameters: the pair hash, GZIP (`Gzip`), ECDSA and DER (`Library`), signature
  verdicts, HTTP answers and clock readings. Where a property needs a law of a library it is a
  `requires` (`Lossless` for GZIP). Nothing is supposed of SHA-256: where binding fails, the conclusion
  names the two strings that it maps to one digest (`ShaCollision`).
- The field modulus p of the curve is a parameter. `FieldShape` is what the code relies on and
  `ConcreteField` shows it for the constant; that the constant is prime is a hypothesis (`IsPrime`).
- Tables are maps or sequences. One handler call is one step, except that a chain verification is
  split at its adapter call. The status list update handler reads and writes without a row lock, so
  its properties are about handlers that do not overlap.
- Exceptions and HTTP errors are values (`None`, `Raised`, `HttpError`, and so on).

Where the code and its documentation differ, the model follows the code:

- The rate limiter is documented as 100 calls a second. Each of its own windows keeps that
  (`WindowAdmitsExactly`); another second can hold 199 admitted calls and never more
  (`OneSecondBound`, `BurstReaches199`), and `DocumentedLimitIff` says when it holds more than 100.
- The cache documents that a revoked credential is invalid. The one read that finds a revocation
  together with a lifted suspension reports valid while it marks the row (`RefusedIff` gives the
  exact condition, `RevokedYetReportedValid` an input).
- The cache documents the revocation mark as the issuer's revocation. It also sets that mark, for good,
  when a revocation entry cannot be resolved, as after one failed fetch (`MarkMeaning`,
  `FailedFetchIsTerminal`, `UnreachableListRevokes`).
- The cache ignores failing entries of other purposes, so its verdict can differ from
  `overall_valid` (`AgreesWithOverallValidIff`).
- The Merkle docstring speaks of an odd number of leaves; the code duplicates at every odd level.
- Verification looks neither at the length of a path nor at the form of the texts in it
  (`AcceptedPathMeans`, `FormIsNotChecked`), so what acceptance proves depends on both.
- A declined magic link can still be redeemed in the table, and an empty credential is never reported
  as authorized (`DeclinedLinkRedeemable`, `StoreAuthorizesIff`).
- The policy client logs "always" except when it raises (`LoggedIff`); an invalid signature gives its
  own decision rather than `unavailable`, and an unsigned answer is accepted. It calls itself
  fail-closed, which its returned decision is; but its one caller lets a write go on when the
  consultation raises, and passes no signature verifier (`WriteProceedsIff`, `RaisingWriteProceeds`).
- A magic link's token expires at the whole second, its row a fraction later: the gates differ in
  between (`GatesAgree`, `LastFraction`, `GatesDisagree`).
- A replayed chain verification writes confirmed_at out of a timestamp column, so its text may differ
  from the first reply (`VerifiedIsReplayed`, `ReplayIsVerbatimIff`).
- A DER signature of fewer than 68 bytes, as short r or s give, is refused, or misread when it has 64
  (`RawAndDerVerifyAlike`, `ShortDerRefused`).
- The audit store describes INSERT ... ON CONFLICT; the code looks first and then inserts.

## Model

| member | source | states |
|---|---|---|
| NumberTheory.Fermat | api/crypto_verification.py:114-119 | Fermat's little theorem, on which the code's exponents rest: a^(p-1) is 1 modulo a prime p that does not divide a |
| NumberTheory.EulerCriterion | api/crypto_verification.py:114-116 | For p % 4 == 3 the test pow(z, (p-1)/2, p) is 1 exactly when z has a nonzero square root modulo p |
| NumberTheory.RootOfSquare | api/crypto_verification.py:186 | The exponent (p+1)/4 yields y or p - y for every z congruent to y squared |
| Hex.Hex64RoundTrip | api/crypto_verification.py:137-143 | A coordinate below 2^256 formatted with 64 hex digits is read back from bytes.fromhex and from_bytes as the same number |
| PointCodec.DecompressRecoversY | api/crypto_verification.py:181-195 | SEC 1 section 2.3.4: for every prime p = 3 mod 4 and curve point (x, y) with y > 0, decompressing its 02/03 form gives y |
| PointCodec.DecompressSecp256k1 | api/crypto_verification.py:183-189 | The same for the modulus of the code, given that it is prime |
| PointCodec.DecompressOnCurveIff | api/crypto_verification.py:184-189 | Decompression lands on the curve exactly when x belongs to a curve point; with y = 0 only prefix 02 does |
| PointCodec.FormsVerifyAlike | api/crypto_verification.py:172-195 | The compressed and the uncompressed key of a curve point verify exactly the same signatures |
| PointCodec.RawAndDerVerifyAlike | api/crypto_verification.py:199-209 | r, s in 64-byte form and in DER: alike when the DER text has 68 to 72 bytes; of 64 bytes the DER text is taken for another r, s read from its own bytes; of any other length it is refused, so the forms agree exactly when the raw form is refused too |
| PointCodec.ShortDerRefused | api/crypto_verification.py:199-209 | Such an input: the eight-byte DER of r = s = 1 is refused where the raw form verifies |
| PointCodec.RawVerifiesIff | api/crypto_verification.py:199-218 | A raw signature r, s is accepted for an uncompressed key exactly when the library loads the point and verifies the DER encoding of r and s over the message |
| PointCodec.CompressedVerifiesIff | api/crypto_verification.py:181-218 | The same for the compressed key of a curve point over a prime p = 3 mod 4 |
| PointCodec.DerVerifiesIff | api/crypto_verification.py:205-218 | A text of 68 to 72 bytes is accepted, for either key form of a curve point, exactly when the library verifies those bytes |
| PointCodec.AcceptedForms | api/crypto_verification.py:173-209 | Nothing but hex texts of these lengths and key prefixes is accepted |
| PointCodec.CandidatesAreThePoints | api/crypto_verification.py:111-122 | For a prime p the y candidates tried for x are exactly the curve points over x (y = 0 aside) |
| PointCodec.TryCandidates | api/crypto_verification.py:121-147 | The inner loop returns a candidate whose uncompressed key verifies, or none of them does |
| PointCodec.RecoverFallback | api/crypto_verification.py:80-152 | The search returns the compressed key of an accepted candidate for the first recovery id that has one, that compressed key verifies the same message and signature, and it returns nothing only if no candidate is accepted |
| PointCodec.RecoveredIff | api/crypto_verification.py:101-152 | For a prime p: key and v are returned only for the first v below 4 with a curve point over (r + v n) mod p whose compressed key verifies, and key is that of such a point; nothing exactly if no v below 4 has one |
| PointCodec.ParsedSignature | api/crypto_verification.py:83-90 | r and s of a raw signature are those it spells, of a text of 68 to 72 bytes those the library decodes; every other length is given up |
| PointCodec.NothingRecoveredIff | api/crypto_verification.py:101-152 | For a prime p the search comes back empty exactly when no curve point over the four abscissas verifies in compressed form |
| MerkleTree.DepthIsCeilLog2 | api/merkle_tree.py:68-78 | The number of levels above n leaves is the ceiling of log2 n |
| MerkleTree.ProofReproducesRoot | api/merkle_tree.py:83-144 | Completeness: every generated proof leads from its leaf to the root and has the depth of the tree |
| MerkleTree.ProofBits | api/merkle_tree.py:111-118 | The left/right positions of a generated proof spell the index of its leaf |
| MerkleTree.PathBindsLeaf | api/merkle_tree.py:123-144 | Binding, for any pair hash: a path of the tree's depth accepted against the root proves the leaf its positions descend to and carries that leaf's own proof hashes, exactly unless at some step the pair verified and the pair built are different and hash alike; those two pairs are named |
| MerkleTree.AcceptedPathMeans | api/merkle_tree.py:123-144 | The same for a path of any length: a shorter one proves a node of the level that is as high as the path is short, a longer one that its front hashes up to a leaf |
| MerkleTree.RootsEqualIff | api/merkle_tree.py:46-80 | For trees of equal depth: equal padded bottom levels give equal roots, and equal roots give equal padded bottom levels exactly unless at some position the two trees hash different pairs alike |
| MerkleTree.RootDeterminesLeaves | api/merkle_tree.py:46-80 | Leaf lists of equal length with equal roots are equal, exactly unless the two trees name such pairs |
| MerkleTree.RepeatedLastLeaf | api/merkle_tree.py:69-71 | Repeating the last leaf of an odd list of three or more leaves the root unchanged |
| MerkleTree.ShorterPathsReachInnerNodes | api/merkle_tree.py:123-144 | Verification does not look at the path length: every node of every level has an accepted path, shorter by its height |
| MerkleHash.DigestPathBinds | api/merkle_tree.py:40-43 | Binding for the hash of the code: for digests of 64 lower-case hex digits an accepted path, no longer than the tree is deep, proves the node it descends to, exactly unless it names two different 64-byte strings with one SHA-256 |
| MerkleHash.DigestRootDeterminesLeaves | api/merkle_tree.py:40-80 | Digest lists of equal length with equal roots are equal, exactly unless their trees name two such strings |
| MerkleHash.FormIsNotChecked | api/merkle_tree.py:40-43 | An input outside that form: a text cut after 31 bytes is accepted in place of the first leaf, whatever SHA-256 is |
| MerkleBuilder.HashPairs | api/merkle_tree.py:73-75 | The inner loop fills a new list with the level above |
| MerkleBuilder.BuildRound | api/merkle_tree.py:68-78 | One round keeps: the list stored before is padded through its alias, the new list is the level above, and the root and remaining depth are unchanged |
| MerkleBuilder.BuildTree | api/merkle_tree.py:46-80 | The aliased build refines the pure tree: right root, depth plus one levels, every inner stored level padded, level 0 and the root level not; the input list itself is returned for a single leaf |
| MerkleBuilder.ComputeRoot | api/merkle_tree.py:147-150 | The root of the leaves, an error for none |
| MerkleBuilder.GenerateProof | api/merkle_tree.py:83-120 | The proof of the leaf at the index, an error exactly when the index is out of range |
| MerkleBuilder.VerifyProof | api/merkle_tree.py:123-144 | Accepts exactly when the path leads from the leaf to the expected root |
| MerkleBuilder.ProveAndVerify | api/merkle_tree.py:83-150 | Whatever generate_proof returns for a valid index, verify_proof accepts against compute_root |
| Bitstring.CreateBitstring | api/bitstring_status_list.py:25-43 | All bits zero, at least the requested bits and less than a byte more; refused below 131072 |
| Bitstring.SetBitInPlace | api/bitstring_status_list.py:115-138 | Writes the bit in place, or reports a bad value or index and changes nothing |
| Bitstring.SetBitAt | api/bitstring_status_list.py:115-138 | Setting a bit changes that bit and no other, not even in its byte |
| Bitstring.SameBitsSame | api/bitstring_status_list.py:90-112 | A bitstring is determined by its get_bit values |
| Bitstring.BitsSpellByte | api/bitstring_status_list.py:90-112 | Bit 8 n is the most significant bit of byte n: the eight bits spell the byte as a binary number |
| Bitstring.DiffBitstrings | api/bitstring_status_list.py:141-172 | The XOR loops find exactly the indices where get_bit differs, with old and new value; different lengths are an error |
| Bitstring.DiffThenPatch | api/bitstring_status_list.py:115-172 | Applying the differences with set_bit in any order turns old into new |
| StatusCodec.DecodeEncoded | api/bitstring_status_list.py:57-78 | Decoding undoes base64url encoding for every byte string (RFC 4648 section 5) |
| StatusCodec.PaddingRoundTrip | api/bitstring_status_list.py:58-76 | Stripping and restoring the padding is lossless; a stripped text never has length 1 modulo 4 |
| StatusCodec.CodecRoundTrip | api/bitstring_status_list.py:46-87 | decode_bitstring(encode_bitstring(raw)) is raw for every raw, given that GZIP is lossless |
| StatusCodec.EncodedText | api/bitstring_status_list.py:46-60 | The encoded text has characters of the URL alphabet only, no padding, and as few as hold the bits |
| StatusCodec.StrippedDecodesIff | api/bitstring_status_list.py:63-87 | A text of that alphabet decodes, up to GZIP, exactly when its length is not 1 modulo 4 |
| StatusCodec.DecodeSkips | api/bitstring_status_list.py:63-87 | A character outside the alphabets is skipped wherever it stands |
| StatusChecker.CheckCredentialStatus | api/status_checker.py:55-111 | The loop returns the result of every entry in order, and overall_valid exactly when all are valid |
| StatusChecker.SingleEntryMeaning | api/status_checker.py:114-228 | An entry is valid exactly when it resolves to a served, signed, decodable list with bit 0 there; it reports 1 exactly when that bit is 1 |
| StatusChecker.ResultFields | api/status_checker.py:121-228 | A result reports -1 exactly when the entry resolves to no bit, and always the entry's purpose, URL and index or what stands for missing ones |
| StatusChecker.OverallValidIff | api/status_checker.py:84-111 | overall_valid exactly when every entry resolves and every bit is 0 |
| StatusLists.ValidateUpdateIff | api/bitstring_status_list.py:175-217 | An update is accepted exactly when both lists decode to one length, they differ, and on a revocation list no bit falls |
| StatusLists.ValidationReasons | api/bitstring_status_list.py:175-217 | Each reason of a refusal is given exactly in its case; the reversals are exactly the bits that fall |
| StatusLists.CreatedIff | api/status_list_store.py:54-135 | A list is created exactly with a known purpose, a capacity of at least 131072, and an id and URL of its own; its row has the requested fields |
| StatusLists.AllocatedIff | api/status_list_store.py:213-281 | An index is handed out exactly to the owner of a list that is not full; 404, 403 and 409 each exactly in their case |
| StatusLists.UpdatedIff | api/status_list_routes.py:247-346 | An update is accepted exactly for a well-formed credential of the list's purpose, signed by its owner, when both lists decode to one length and differ, and on a revocation list no bit falls; it replaces the credential and counts the differing bits |
| StatusLists.FetchedIff | api/status_list_routes.py:380-393 | Exactly the hosted lists are fetched, under their URLs, once the placeholder is replaced |
| StatusLifecycle.CreatedListIsClear | api/status_list_store.py:80-124 | A new list decodes to zeros, has handed out no index, and is not served under its URL |
| StatusLifecycle.OnlyOwnerChanges | api/status_list_routes.py:318-332 | A stored list changes only by its owner's signed update for its purpose, or by its owner taking the next index |
| StatusLifecycle.RunEvolves | api/status_list_routes.py:311-346 | Over every run a list keeps owner, purpose, capacity and length, a revocation bit that is 1 stays 1, and the stored bitstring is the encodedList of the stored credential |
| StatusLifecycle.AllocationIsConsecutive | api/status_list_store.py:246-273 | Over any run the successful allocations of a list answer the consecutive indices from the counter before to the counter after, none twice, and each tells the capacity that is left after it |
| StatusLifecycle.AllocationFromScratch | api/status_list_store.py:213-281 | From the empty table: the k-th allocation of a list answers index k with capacity - k - 1 remaining, their number is the counter and at most the capacity, and each index is readable by get_bit |
| StatusLifecycle.RevokedEntryStaysRevoked | api/status_list_routes.py:380-393 | A bit seen as 1 in a served revocation list never resolves to 0 in a later table |
| StatusLifecycle.RevokedCredentialStaysRevoked | api/status_list_routes.py:356-400 | A credential once reported revoked from a served revocation list is never reported valid after any requests, however signatures are judged |
| StatusCache.CollectFindings | api/cache_invalidation.py:137-152 | The loop finds whether a revocation fails, a suspension fails, and a recorded suspension is clear |
| StatusCache.RunFaithful | api/cache_invalidation.py:154-163 | Invariant: the row's marks and stamp are those of the latest upstream check, suspended_at set exactly when that check found a suspension |
| StatusCache.CachedReadAgrees | api/cache_invalidation.py:100-112 | A read served from an unrevoked row repeats the verdict of the latest upstream check, at most 24 hours old despite the truncated stamp |
| StatusCache.YoungRowIsServed | api/cache_invalidation.py:100-112 | An unforced read of an unmarked row verified at most 86,400 seconds before is answered from the row and changes nothing, whatever the lists say |
| StatusCache.AsksUpstreamIff | api/cache_invalidation.py:100-127 | Otherwise an unmarked row asks upstream exactly when it has a credential and the read is forced, the row never verified, or older |
| StatusCache.CheckingReadIsExact | api/cache_invalidation.py:129-249 | A checking read from the lists alone: its verdict and flags, and the stamp and marks of the row it leaves |
| StatusCache.RevokedMarkIsTerminal | api/cache_invalidation.py:90-98 | Once marked revoked, every later read is refused and changes nothing |
| StatusCache.RefusedIff | api/cache_invalidation.py:165-168 | A checking read refuses what it finds failing for revocation or suspension, except for a failing revocation found with a lifted suspension, and marks the row exactly when a revocation entry fails |
| StatusCache.MarkMeaning | api/cache_invalidation.py:142-143 | A checking read sets the terminal mark exactly when some revocation entry resolves to 1 or cannot be resolved; undeserved, exactly when none resolves to 1 and some cannot be resolved |
| StatusCache.FailedFetchIsTerminal | api/status_checker.py:158-166 | One upstream check at which the list of a revocation entry cannot be fetched makes every later read refused, whatever the lists say by then |
| StatusCache.UnreachableListRevokes | api/status_checker.py:158-166 | Such a run with every lossless GZIP, ending in a refused read of a credential that is valid overall |
| StatusCache.RevokedYetReportedValid | api/cache_invalidation.py:165-168 | For every lossless GZIP and all times: a run of two reads of a fresh row, the first finding a suspension, the second finding it lifted and the credential revoked; the second marks the row and reports valid |
| StatusCache.AgreesWithOverallValidIff | api/cache_invalidation.py:142-168 | Exactly when the verdict of a checking read equals overall_valid of the same check |
| StatusCache.OtherPurposeIgnored | api/cache_invalidation.py:142-168 | An input on which they differ, whatever the sources answer: a fresh row whose one entry has another purpose and no list |
| StatusCache.RevokedListMarksCache | api/cache_invalidation.py:129-163 | A revocation bit once served reaches the cache at the next upstream check, whatever requests came between |
| CacheLifecycle.RevocationReachesReads | api/cache_invalidation.py:90-168 | Once a revocation bit is served, over any interleaving of list requests and cache reads: a read that is forced or more than 24 hours later leaves the row marked and is refused, unless it is itself the check that finds the revocation with a lifted suspension; every read after it is refused |
| RateLimiter.SlidingWindowBound | api/policy_client.py:61-78 | With a nondecreasing clock an org gets at most 100 ceil(L) + 99 admitted calls in any half-open interval of length L |
| RateLimiter.OneSecondBound | api/policy_client.py:61-78 | At most 199 admitted calls in any half-open second |
| RateLimiter.BurstReaches199 | api/policy_client.py:61-78 | A trace with 199 admitted calls within one second: the bound is tight |
| RateLimiter.WindowAdmitsExactly | api/policy_client.py:67-78 | The documented limit as it is kept: of the calls an org makes in the first L <= 1 seconds of one of its windows exactly min(100, their number) are admitted |
| RateLimiter.DocumentedLimitIff | api/policy_client.py:61-78 | Any other second holds at most 100 admitted calls exactly when no window of the org starts strictly inside it for which the calls made that fall to the old window and to the new one, each capped at 100, add up to more |
| RateLimiter.AnswerDependsOnOwnCalls | api/policy_client.py:70-77 | Whether a call is admitted depends only on the calls of its own org |
| RateLimiter.RefusalIsJustified | api/policy_client.py:74-76 | A call is refused only when 100 calls of its org were admitted within the last second |
| RateLimiter.RefusedUntilWindowEnds | api/policy_client.py:71-76 | After a refusal the org's next call is admitted exactly when it comes one second or more after the start of the window |
| PolicyClient.PermittedIff | api/policy_client.py:108-247 | The returned decision is fail-closed: permit only without an engine, or on an admitted, answered, not disqualified "permit" |
| PolicyClient.DecisionIff | api/policy_client.py:126-248 | Every other decision is returned exactly for its cause |
| PolicyClient.WriteProceedsIff | api/api-server-v2.py:178-211 | The write path is not: a write goes on exactly without an organisation, a connection or an engine, on a "permit" that nobody verifies, or when the consultation raises; it is logged exactly if it consulted and nothing raised |
| PolicyClient.WriteRefusedIff | api/api-server-v2.py:186-205 | A write is refused with 403 exactly on "deny" and with 202 exactly on "pending_approval"; any other refusal is 503 |
| PolicyClient.RaisingWriteProceeds | api/api-server-v2.py:206-211 | Inputs: an engine that answers with a JSON array or a null decision, and a "deny" that cannot be logged, let the write go on unlogged |
| PolicyClient.EngineCallsBounded | api/policy_client.py:108-164 | Over any sequence of consultations the engine of an org is called at most 100 ceil(L) + 99 times in any half-open interval of length L |
| PolicyClient.ReturnedIsLogged | api/policy_client.py:105-269 | Over any sequence each consultation that returns has its row, with its org, engine and decision, at its place in the final log, and one that raises adds none |
| PolicyClient.LogIsExact | api/policy_client.py:105-269 | Every row of the log belongs to exactly one consultation |
| ChainVerify.RunKeeps | api/verify_endpoints.py:177-276 | Over every interleaving each receipt has at most one adapter call outstanding, its chain never changes, and a verified row never changes |
| ChainVerify.VerifiedIsReplayed | api/verify_endpoints.py:184-202 | After a verification, whatever happens between, no adapter call for the receipt runs or starts, and a request is refused for another chain or replays the original transaction_reference, explorer_url and chain_specific, with confirmed_at as the timestamp column writes it out |
| ChainVerify.ReplayIsVerbatimIff | api/verify_endpoints.py:199 | The replay repeats the first reply word for word exactly when the column writes the text of confirmed_at out as it came |
| ChainVerify.AdapterCalledIff | api/verify_endpoints.py:184-230 | An adapter call starts exactly for a supported chain and a receipt that is new or failed on that chain |
| ChainVerify.AbandonedForEver | api/verify_endpoints.py:203-207 | Such a receipt stays pending for ever and never gets an adapter call again |
| MagicLink.MagicLinks.GatesAgree | api/remediation_routes.py:210-235 | With distinct slugs the two slug gates agree about a link; the token gate agrees with them exactly when they are shut or the token has not expired |
| MagicLink.TokenStays | api/remediation_routes.py:150-155 | Over every run the token issued with a link is the token of its row |
| MagicLink.StoreOkIff | api/remediation_routes.py:269-304 | A store is accepted exactly with a live token of that very link, which is there, unredeemed and unexpired; a live token of another link gets 403 |
| MagicLink.CredentialCameWithToken | api/remediation_routes.py:279-304 | Over every run from no links, the credential of a link was brought by a store with a live token of that very link |
| MagicLink.StatusFromHistory | api/remediation_routes.py:345-369 | Over every run, from its history alone: a link polls as declined exactly after a successful decline, else as authorized exactly after a successful store of a non-empty credential, else as pending for its time to live and then expired; its gates are open exactly in that time and before any such event |
| MagicLink.LastFraction | api/remediation_routes.py:155-175 | Over every run that leaves a link undecided: between the whole second at which its token expires and the expiry of its row the slug gates are open and the agent sees it as pending, while the token gate is shut and a store gets 401 |
| MagicLink.GatesDisagree | api/remediation_routes.py:155-175 | Such a moment exists for a freshly made link |
| MagicLink.StatusMoves | api/remediation_routes.py:345-369 | Over every run with a nondecreasing clock the status moves only pending to authorized, declined or expired and expired to declined; an authorized credential never changes |
| MagicLink.GateNeverReopens | api/remediation_routes.py:230-235 | A gate that is shut stays shut |
| MagicLink.OpenMeansUndecided | api/remediation_routes.py:269-304 | A slug gate is open exactly when the status is pending and a decline would succeed; it is open and the token alive exactly when the status is pending and a store with the link's token would succeed |
| MagicLink.StoreAuthorizesIff | api/remediation_routes.py:286-304 | After a successful store the agent sees the credential for ever exactly when it is not empty and the link was not declined |
| MagicLink.DeclineIsFinal | api/remediation_routes.py:382-389 | A decline succeeds exactly on an unredeemed link, expired or not, and is the polled status for ever after |
| MagicLink.RedeemedRowFixed | api/remediation_routes.py:293-304 | A redeemed row never changes again |
| SamlRequests.SamlHandler.CleanupExpiredRequests | api/saml_handler.py:31-37 | The loop of deletes removes exactly the entries older than 600 seconds |
| SamlRequests.ConsumedAtMostOnce | api/saml_handler.py:172-180 | Over every run an id passes no more often than it was issued |
| SamlRequests.PassedIsRecent | api/saml_handler.py:181-186 | A response that passes answers an id issued earlier, no more than 600 seconds before |
| SamlRequests.PassesIff | api/saml_handler.py:169-186 | A response passes exactly when it carries an id that was issued, has not been issued or answered again since, and is at most 600 seconds old |
| SamlRequests.VerdictIff | api/saml_handler.py:170-186 | Skipped exactly for an empty InResponseTo, a replay exactly for an id that is not live, expired exactly for a live id older than 600 seconds; each but the first removes its id |
| SamlRequests.CleanupIsTransparent | api/saml_handler.py:31-37 | Every pass or reject decision is the one of the same run without the sweep |
| AuditLedger.AuditStore.IngestActivity | api/audit_store.py:53-125 | Inserts once per credential id; a replay returns the existing row, an incomplete credential is refused, and both change nothing |
| AuditLedger.AuditStore.IngestReceipt | api/audit_store.py:132-198 | Inserts an unmatched row once per credential id, or names the row that has it |
| AuditLedger.AuditStore.AttemptMatch | api/audit_store.py:392-433 | The search answers with a nearest activity, by timestamps, among those with equal agent, counterparty and reference within 120 seconds, or with none when there is none |
| AuditLedger.MatchIsNearest | api/audit_store.py:392-433 | By timestamps alone: a match is an activity of the same agent, counterparty and reference within 120 seconds such that none of those is closer, and there is none exactly if no such activity is within 120 seconds or a field is empty |
| AuditLedger.RowAddedIff | api/audit_store.py:60-198 | A credential adds a row, carrying its fields, exactly when its required fields are there and no row has its id |
| AuditLedger.AuditStore.IngestReceiptEndpoint | api/audit_routes.py:178-191 | Ingest, match and report together are one step of the ledger, and the reply names the row, its match and whether an anomaly was added |
| AuditLedger.RunIsSound | api/audit_store.py:132-214 | In every state of every run credential ids are unique, matches qualify, anomalies list the unmatched referenced receipts in order, and no row or match ever changes |
| AuditLedger.Conservation | api/audit_routes.py:178-191 | Receipts = matched + anomalies + receipts without a reference, and each unmatched referenced receipt has exactly one anomaly |
| AuditLedger.ReplayChangesNothing | api/audit_store.py:60-72 | A credential id that was accepted once changes no table when it comes again |
| AuditLedger.ReplayRepeatsReply | api/audit_store.py:142-149 | Over every run the reply to a replayed receipt is the first one again: same row, same match, no anomaly, whatever activities came in between |
| AuditLedger.MatchesAreNearest | api/audit_matcher.py:41-71 | Over every run each receipt came in with a credential whose fields it carries, and its match, or lack of one, is by timestamps the nearest activity of its transaction within 120 seconds among those present then |
| AuditCoverage.CoverageIsAShare | api/audit_coverage.py:42-58 | received is at most expected, the rate lies in [0, 1], is null exactly when nothing is expected and 1 exactly when all is received |
| AuditCoverage.CoverageMeaning | api/audit_coverage.py:32-58 | Expected are the agent's activities that expect a receipt and are at most that many days old, received those of them that a receipt is matched to, and the rate is their quotient |
| AuditCoverage.ReceiptNeverLowersCoverage | api/audit_coverage.py:44-58 | A further receipt never lowers the coverage at a fixed instant, and counts for nothing when its activity is already covered |

## Operations

The methods of the objects, each proved equal to the step of the same name, and short facts about one
step. They tie the code's form to the results above.

| member | source | states |
|---|---|---|
| StatusLists.StatusListStore.CreateStatusList | api/status_list_store.py:54-135 | Creation and its failures, as the create step |
| StatusLists.StatusListStore.AllocateIndex | api/status_list_store.py:213-281 | Allocation and its 404, 403 and 409, as the allocate step |
| StatusLists.StatusListStore.ReplaceList | api/status_list_store.py:284-342 | Credential and bitstring are replaced together, or the list does not exist and nothing changes |
| StatusLists.StatusListStore.UpdateEndpoint | api/status_list_routes.py:247-346 | The acceptance logic of the update handler in its order, as the update step |
| StatusCache.CachedCredential.CheckCached | api/cache_invalidation.py:54-176 | The read and its effect on the row, as the read step |
| RateLimiter.RateLimits.CheckRateLimit | api/policy_client.py:67-78 | The answer and the new table, as the check step |
| PolicyClient.Client.Consult | api/policy_client.py:81-269 | The decision, the log and the limiter, as the consultation step |
| PolicyClient.Client.ConsultPolicy | api/api-server-v2.py:178-211 | The answer to the write, as the write step |
| ChainVerify.ChainVerifier.BeginRequest | api/verify_endpoints.py:167-230 | Lookup to pending insert, as the begin step |
| ChainVerify.ChainVerifier.FinishRequest | api/verify_endpoints.py:237-295 | Recording of the adapter outcome, as the finish step |
| MagicLink.MagicLinks.GenerateMagicLink | api/remediation_routes.py:118-176 | A new row with its expiry and its token, as the generate step |
| MagicLink.MagicLinks.StoreCredential | api/remediation_routes.py:269-306 | Storing and its refusals, as the store step |
| MagicLink.MagicLinks.DeclineAuthorization | api/remediation_routes.py:382-389 | Declining an unredeemed link, as the decline step |
| MagicLink.MagicLinks.RetrieveCredential | api/remediation_routes.py:337-369 | The polled status of the row at that moment |
| MagicLink.MagicLinks.VerifyMagicLink | api/remediation_routes.py:203-247 | Valid exactly for a token that decodes at that moment and whose link is open |
| MagicLink.MagicLinks.ResolveShortUrl | api/remediation_routes.py:417-438 | A redirect exactly for an open link with that slug, otherwise the reason |
| MagicLink.MagicLinks.ResolveSlug | api/remediation_routes.py:456-486 | A payload only for an open link with that slug |
| SamlRequests.SamlHandler.GenerateAuthnRequest | api/saml_handler.py:54-64 | Sweep, then record the new id |
| SamlRequests.SamlHandler.VerifyInResponseTo | api/saml_handler.py:169-186 | Pop first, then judge the age |
| AuditLedger.AuditStore.FindActivityId | api/audit_store.py:61-72 | Finds a row with the credential id exactly when there is one |
| AuditLedger.AuditStore.FindReceiptId | api/audit_store.py:137-149 | Finds a row with the credential id exactly when there is one |
| AuditLedger.AuditStore.SetReceiptMatch | api/audit_store.py:201-214 | Only the match of that receipt changes |
| AuditLedger.AuditStore.MatchAndLink | api/audit_matcher.py:74-85 | The receipt carries the match that was found, and nothing else changes |
| AuditLedger.AuditStore.DetectUnmatchedReceipt | api/audit_anomalies.py:60-101 | Records one anomaly exactly for an unmatched receipt with a reference |
| AuditCoverage.CoverageRollup.ComputeCoverage | api/audit_coverage.py:30-81 | The coverage of the ledger at that instant, stored in the one row of agent and window |
| StatusLifecycle.OtherListsUntouched | api/status_list_store.py:318-331 | A request changes no list but the one it names |
| StatusLifecycle.UpdatedListIsServed | api/status_list_routes.py:380-388 | After an accepted update the submitted credential is what the list's URL serves, unless it is marked as a placeholder |
| ChainVerify.RefusedMayRetry | api/verify_endpoints.py:208-213 | After a refused verification the receipt may be tried again, on its recorded chain only |
| ChainVerify.RaisingAbandons | api/verify_endpoints.py:237-299 | An adapter that raises, or gives a timestamp that cannot be stored, leaves its receipt pending with no call running |
| MagicLink.GeneratedLinkLifetime | api/remediation_routes.py:119-120 | A new link is pending for its time to live, 15 minutes by default, and expired afterwards |
| MagicLink.DeclinedLinkRedeemable | api/remediation_routes.py:286-304 | A declined, unexpired link can still be redeemed in the table while the status stays declined |
| AuditLedger.ToleranceIsTheFloor | api/audit_matcher.py:20-38 | The tolerance is 120 seconds for every rail the table knows and for every other |
| AuditLedger.QualifiesMeaning | api/audit_store.py:407-415 | An activity qualifies for a receipt exactly when agent, counterparty and reference are equal and the timestamps are at most two minutes apart |
| AuditCoverage.WindowsNest | api/audit_coverage.py:35-53 | A wider window or an earlier instant expects and receives at least the same activities |
| PolicyClient.LoggedIff | api/policy_client.py:105-269 | A decision is returned and logged exactly when no exception leaves the consultation |
| StatusLists.UpdateErrors | api/status_list_routes.py:247-341 | Which error a refused update gets |
| PolicyClient.LoggedRow | api/policy_client.py:112-267 | The organisation, engine and decision of the row a consultation leaves |
| ChainVerify.BeginRepliesIff | api/verify_endpoints.py:167-230 | Each answer to a request exactly for its cause, and the pending row |
| ChainVerify.FinishRecords | api/verify_endpoints.py:239-295 | What the outcome of an adapter call changes |
| MagicLink.StoreRefusals | api/remediation_routes.py:291-296 | The 404, 409 and 410 of a store |
| MagicLink.OtherReplies | api/remediation_routes.py:118-192 | The replies to making and declining a link |
| MerkleTree.HashingOrder | api/merkle_tree.py:68-80 | Left before right, an odd last node with itself, on trees of one to three leaves |
| MerkleTree.FoldingOrder | api/merkle_tree.py:137-142 | The side on which a step's sibling is hashed |
| MerkleHash.MessageOfDigests | api/merkle_tree.py:40-43 | The 64 bytes that are hashed for two digests |
| StatusCodec.AlphabetOfRfc | api/bitstring_status_list.py:58 | The order of the URL alphabet |
| Hex.Hex64IsLowerCase | api/crypto_verification.py:137-143 | Coordinates are written in lower case |

## Left out

- FastAPI routing, response formats, SQL text, connections and rollbacks, HTTP and Node calls: plumbing around the steps.
- Ed25519, ECDSA, SHA-256, JWT, GZIP and JSON internals: libraries. Of JWT decoding the model keeps the expiry check; `iat` lies in the past on one clock.
- The coincurve path of key recovery: a library call. Whether a recovered key is the signer's is not claimed.
- Primality of the secp256k1 constant: a hypothesis of the lemmas that need it.
- Texts that are not valid hexadecimal: the pair hash is total here, where the code would raise. SHA-256 is any function to 256-bit numbers.
- Overlapping status list updates, crashes between commits and failed commits: steps are atomic.
- Sizes above 2^53 bits, where `math.ceil(size / 8)` would round through floating point.
- External status lists: the lookup returns nothing for them, as in the code.
- The order in which a tie between equally near activities is broken: `AttemptMatch` takes one, the run properties allow any.
- MagicLinks.GatesAgree: supposes that slugs differ, because the table does not enforce it and a slug query takes any row that has the slug.
- Row ids are positions; gaps that failed inserts leave in a database sequence are not modelled.
- Integrator authentication, credential signature checks and extraction of fields from JSON before ingest.
- Receipt requests and acknowledgments, which repeat the ingest pattern without matching.
- XML signature, conditions and audience of SAML responses; a response without InResponseTo skips the check (`Skipped`) and goes on to those.
- How a timestamp column parses and writes text: the function `stamp`. Durations in the consultation log.
- Lightning tiers, roles, counterparties, trust score, DID documents and the two large server modules: case analysis and CRUD.
