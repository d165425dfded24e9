# Verified model of the Dify API back end

This project models the parts of the Dify API server that carry real state, arithmetic or text
transformation, and proves what they keep. `dafny verify dfyconfig.toml` checks all of it.

The database is modelled as maps, sets and sequences of rows, Redis as keys with expiry times under
a clock. Whatever the code draws at random (UUIDs, seeds, nonces, keys) and whatever an unseen
library computes is a parameter of which only the stated law is known.

## Areas

**OAEP cipher and envelope** (`NumberTheory`, `Octets`, `Oaep`, `OaepProofs`, `HybridEnvelope`).
The hand-written RSAES-OAEP of `libs/gmpy2_pkcs10aep_cipher.py` (sections 7.1.1 and 7.1.2 of
RFC 3447) and the framing of `libs/rsa.py`. RSA inversion is not assumed: it is proved from two
different primes through the binomial theorem and Fermat's little theorem. Assumed of SHA-1 and
MGF1 are output lengths, of AES-EAX and the text codec that decryption inverts encryption.

**Indexing** (`Indexing`, `IndexingProofs`). One document, its segments, the paused column and the
paused cache key, the worker run and its chunk workers, pause and recover requests and queued
recovery jobs, as a transition system in which every commit and every cache access is a step of its
own. The pool of ten workers is covered by allowing every interleaving. Hypotheses: one worker run
at a time, a fresh document, the indexing job before the recovery jobs, no crash of the process;
and, only for "no completed document is paused", that counting paused rows and updating the document
row (and likewise checking and writing in `pause_document`) are one atomic action.

**Round-robin balancing** (`RoundRobin`, `LoadBalancingConfigs`). The shared counter, cooldown keys
and retry loop, and the stored configurations with their credentials cache. Hypotheses: config ids
are distinct; where stated, the counter is not reset during the call and no cooldown expires, without
which the retry loop may try a config twice; during one invocation other clients stay away. An
encrypted token is never its own plaintext: it is longer.

**Keys with expiry times** (`Tokens`, `SlidingWindow`, `IpLimiter`). One-time tokens, the sliding
window and the escalating limiter, each proved against the log of all calls. Hypotheses: serialized
calls and one clock that does not go back.

**Membership** (`Membership`). Joins of accounts and tenants, over all runs of the operations.

**Paging and cleaning** (`History`, `Paging`, `CleanMessages`). Both walk a table newest first by a
time cursor; one theory of such walks (`History`) serves both. Hypotheses: message ids are unique,
tenants' plans are constant during a cleaning run and no message is written in between.

**Bookkeeping and rewriting** (`WordCount`, `EnvironmentVariables`, `Splice`). Word counts and
positions of segments, saving and loading of environment variables with masked secrets, and the
signing of file links inside a segment's text. Hypothesis: the parameters of a signature hold no
slash.

## Where the code falls short

Each of these is a property one would expect, which the code does not have; the named member proves
exactly when it holds, or gives an input on which it fails.

- The label is always hashed with SHA-1, so a cipher configured with a hash of another size than 20
  octets refuses every message (`EncodeSucceedsExactly`).
- OAEP decryption does not compare the ciphertext with the modulus, as section 7.1.2 of RFC 3447
  demands through RSADP: an accepted ciphertext is one encryption can produce if and only if it is
  below the modulus, and others are accepted (`AcceptedIsEncryptedExactly`, `AcceptedBeyondModulus`).
- A bare OAEP ciphertext that happens to begin with the prefix of framed data is not decrypted
  (`BareCiphertextDecryptsExactly`).
- With an economy dataset nothing notices that the keyword thread died: the step that completes the
  document leaves all segments completed if and only if the thread succeeded or there is none to
  complete, and it does complete without (`EconomyCompletesExactly`, `CompletedWithoutKeywords`).
- A completed document is paused if and only if the pause was written behind the back of a count of
  paused rows, or after the completion, and not recovered since (`CompletedIsPausedExactly`,
  `CompletedAndPausedWithoutAtomicity`).
- A client whose turns another client takes may be told that every config is cooling down while one
  is free; that it was not misled holds if and only if the values it saw visit every position
  (`RefusalIsTrueExactly`, `DisturbedFetchMayMiss`).
- A first overflow of the IP limiter is not refused for ten minutes: its key is given ten minutes and
  at once overwritten with an hour, and the next call is admitted if and only if a minute has passed
  since the last admitted one (`FirstOverflowBlocksExactly`, `RefusedForLessThanAMinute`).
- Attempts made in the same second count once (`SharedSecondsCountOnce`, `TwoInOneSecond`).
- A page or batch boundary between messages of the same time loses messages; without such a boundary
  none is lost (`WalkCoversExactly`, `PagesCoverExactly`, `WalkReachesExactly`;
  `TiedMessageIsOnNoPage`, `TiedMessagesAreNotReached`).
- An update of a segment with unchanged text leaves the new count of the document uncommitted in an
  exactly described case. Called directly, without the argument check both controllers make first,
  the service method also lets the counts drift apart when a question-and-answer segment is updated
  without an answer (`UpdateSegment`, `ServeUpdate`).
- The service method that removes a member checks no permission of an operator who is somebody else,
  so it removes a tenant's owner for any of them; the one that creates a member lowers an existing
  owner's role if asked to, which none of its callers does. No other method takes an owner away
  (`OwnerLostExactly`).
- Environment variables are stored by name and saved without being checked: the list comes back if
  and only if the names are distinct and every variable can be built again from its stored form
  (`ReadAfterWriteExactly`). A variable saved masked has the selector of its name if and only if it was
  not renamed (`RenamedKeepsSelectorExactly`).
- All image links are signed before all file links, with an offset that assumes the order of the
  text: the outcome is what was meant if and only if the images come first (`SignedAsMeantExactly`, `FileBeforeImage`).
- Secrets of a load-balancing configuration are encrypted by either credential schema, but decrypted
  on reading only by a model credential schema: a stored secret reads back if and only if the provider
  has one (`UpdateExisting`, `SecretReadAsToken`).

## Model

| member | source | states |
|---|---|---|
| NumberTheory.ExponentsInvert | libs/gmpy2_pkcs10aep_cipher.py:138-172 | for different primes p and q and exponents inverse modulo p - 1 and q - 1, raising to e and then to d modulo pq gives back every number below pq, coprime to it or not |
| Octets.OctetsOfInteger | libs/gmpy2_pkcs10aep_cipher.py:136-142 | reading octets as an integer and writing it back in as many octets is the identity |
| Octets.IntegerOfOctets | libs/gmpy2_pkcs10aep_cipher.py:168-174 | writing an integer that fits into k octets and reading it back is the identity |
| Octets.XorCancels | libs/gmpy2_pkcs10aep_cipher.py:127-133 | applying a mask twice gives back the masked octets |
| Octets.XorBits | libs/gmpy2_pkcs10aep_cipher.py:127-133 | each of the eight bits of a masked octet is set exactly where the bits of octet and mask differ |
| Oaep.Cipher.Decrypt | libs/gmpy2_pkcs10aep_cipher.py:144-203 | the decryption routine computes Decrypted: refusal by length, otherwise decoding of the exponentiated ciphertext |
| Oaep.Cipher.CheckBlock | libs/gmpy2_pkcs10aep_cipher.py:191-203 | the loop that accumulates into `invalid` without an early exit accepts exactly the blocks that start with the label hash, zeros and a 1 under a zero leading octet, and returns what follows |
| Oaep.Accumulate | libs/gmpy2_pkcs10aep_cipher.py:196-199 | the accumulated octet is zero exactly when it was and every folded octet is |
| OaepProofs.EncodeSucceedsExactly | libs/gmpy2_pkcs10aep_cipher.py:108-134 | encoding succeeds exactly for at most k - 2 hLen - 2 octets, and only with a 20-octet hash |
| OaepProofs.EncodedOctets | libs/gmpy2_pkcs10aep_cipher.py:114-134 | an encoded message is a zero octet, the seed and the block of label hash, zeros, 1 and message, where each bit of the masked seed and of the masked block is the difference of the bits of what is masked and of its MGF1 mask |
| OaepProofs.EncryptedIsPower | libs/gmpy2_pkcs10aep_cipher.py:134-142 | the ciphertext is, in k octets, the encoded message raised to e modulo n |
| OaepProofs.UnpadAcceptsExactly | libs/gmpy2_pkcs10aep_cipher.py:191-203 | a data block is accepted with a message exactly when it is label hash, zeros, 1, message |
| OaepProofs.DecodeUndoesEncode | libs/gmpy2_pkcs10aep_cipher.py:108-203 | decoding an encoded message gives the message, for every seed |
| OaepProofs.EncodeUndoesDecode | libs/gmpy2_pkcs10aep_cipher.py:108-203 | an encoded message that is accepted is the encoding of its message under its own seed |
| OaepProofs.EncodedIsBelowModulus | libs/gmpy2_pkcs10aep_cipher.py:134-138 | the leading zero octet keeps an encoded message below the modulus |
| OaepProofs.ExponentiationsInvert | libs/gmpy2_pkcs10aep_cipher.py:136-174 | for a valid key the exponentiations on k-octet strings below the modulus undo each other in both orders |
| OaepProofs.DecryptUndoesEncrypt | libs/gmpy2_pkcs10aep_cipher.py:90-203 | for every valid key, label, seed and message encryption succeeds exactly when the message fits, and decryption then returns it |
| OaepProofs.AcceptedIsEncryptedExactly | libs/gmpy2_pkcs10aep_cipher.py:144-203 | an accepted ciphertext is an encryption of its message under some seed if and only if it is below the modulus |
| OaepProofs.DecryptsLikeResidue | libs/gmpy2_pkcs10aep_cipher.py:168-174 | a ciphertext at or above the modulus is decrypted like its residue |
| OaepProofs.AcceptedBeyondModulus | libs/gmpy2_pkcs10aep_cipher.py:165-174 | beside every accepted ciphertext with room for another modulus lies one that is accepted with the same message and that no encryption produces |
| OaepProofs.EveryEncryptionHasNeighbour | libs/gmpy2_pkcs10aep_cipher.py:136-174 | under a key with 2n at most 256^k every encryption has such a neighbour, so they exist |
| HybridEnvelope.SlicesOfFrame | libs/rsa.py:67-83 | the slices at k, k + 16 and k + 32 take a frame apart into key, nonce, tag and ciphertext |
| HybridEnvelope.FrameHoldsWhatWasDrawn | libs/rsa.py:29-45 | a frame is the seven octets of the prefix, the drawn AES key under OAEP, the drawn nonce, and the tag and ciphertext of the text under that key and nonce |
| HybridEnvelope.FrameIsReadExactly | libs/rsa.py:67-83 | framed data is read as a text exactly when its key decrypts, its ciphertext opens under that key, nonce and tag, and the result decodes to the text |
| HybridEnvelope.DecryptUndoesEncrypt | libs/rsa.py:29-83 | for every text the codec encodes, encryption succeeds exactly when an AES key fits under the modulus and decryption returns the text |
| HybridEnvelope.BareCiphertextDecryptsExactly | libs/rsa.py:67-83 | a bare OAEP ciphertext is decrypted to its text exactly when it does not begin with the prefix |
| Indexing.Submit | core/indexing_runner.py:657-669 | the loop over range(0, n, 10) submits the chunks of ten |
| IndexingProofs.ChunkedIsPartition | core/indexing_runner.py:657-669 | the chunks are disjoint, have at most ten documents and together hold every document of the load |
| IndexingProofs.ChunksAreSlices | core/indexing_runner.py:657-669 | chunk a holds the documents from 10a up to 10a + 10 or the end, and there are as many chunks as that takes |
| IndexingProofs.ReachableHasInv | core/indexing_runner.py:49-210 | every state of every run satisfies the invariant: each segment's status is told by the phase of the run and the state of the chunk that holds it |
| IndexingProofs.CompletedDocumentHasCompletedSegments | core/indexing_runner.py:623-687 | over every interleaving and any number of pauses and recoveries, a completed document of a high-quality dataset has only completed segments |
| IndexingProofs.EconomyCompletesExactly | core/indexing_runner.py:643-712 | for an economy dataset the completing step leaves all segments completed if and only if the keyword thread succeeded or nothing was left to complete |
| IndexingProofs.CompletedWithoutKeywords | core/indexing_runner.py:649-687 | a run of an economy dataset that completes a document whose keyword thread died and whose segment was never indexed |
| IndexingProofs.CompletedIsNeverLoadedAgain | core/indexing_runner.py:154-197 | a completed segment stays completed, and no later step of the run hands it to the index processor |
| IndexingProofs.CompletedWasHanded | core/indexing_runner.py:714-747 | over every run, a completed segment of a high-quality dataset was handed to the index processor before |
| IndexingProofs.FlagStopsLoading | core/indexing_runner.py:714-754 | over every run and interleaving, while the paused flag stays set no segment is handed to the index processor, unless by a worker that had passed its check before the flag was set |
| IndexingProofs.SubmittedChunkObeysFlag | core/indexing_runner.py:719-754 | a submitted chunk that moves on raises that the document is paused exactly when the flag is set then |
| IndexingProofs.FirstRaiseDecides | core/indexing_runner.py:671-672 | of a load with chunks that raised, the first in the order of submission decides: the status stays as it was for a pause and is an error otherwise, and no segment changes |
| IndexingProofs.StatusFollowsPhase | core/indexing_runner.py:676-687 | but for errors the status changes only to splitting after extraction, to indexing after all segments are added and to completed after all chunks are done and the keyword thread has ended |
| IndexingProofs.SegmentFollowsPhase | core/indexing_runner.py:842-875 | a segment is added waiting, marked as indexing, completed only by the commit of its loaded chunk or, in an economy dataset, by the keyword thread, and removed only when the run starts over |
| IndexingProofs.PausedKeepsStatus | core/indexing_runner.py:757-765 | no step moves a document on that is paused and not counted before: its status stays or becomes an error |
| IndexingProofs.FlagFollowsRequests | services/dataset_service.py:600-627 | the flag changes only by the second half of a pause, which sets it, or of a recovery, which deletes it; every pause of the row still owes its flag |
| IndexingProofs.RequestsAcceptedExactly | services/dataset_service.py:600-618 | a pause is accepted exactly of a document neither completed nor failed, a recovery exactly of a paused one |
| IndexingProofs.RecoveriesAreQueued | services/dataset_service.py:615-630 | every recovery is queued once: those owing the flag, owing the queue and queued grow by one with it and shrink only by a job that starts |
| IndexingProofs.ResumesByStatus | tasks/recover_document_indexing_task.py:25-37 | a recovery job resumes with extraction, with deleting the segments or with a load of exactly the segments that are not completed, as the stored status says, and with nothing for other statuses |
| IndexingProofs.CompletedDocumentIsNotPaused | core/indexing_runner.py:749-776 | with atomic checks no reachable completed document is paused |
| IndexingProofs.CompletedIsPausedExactly | core/indexing_runner.py:756-776 | over every run, atomic or not, a completed document is paused if and only if a pause was written between a count of paused rows and the update it guards, or after the completion, and no recovery came since |
| IndexingProofs.CompletedAndPausedWithoutAtomicity | services/dataset_service.py:600-613 | such a run: the pause lands between the last count and the update to completed |
| RoundRobin.PositionIsModular | core/model_manager.py:452-466 | the element reached through the list index, negative indices included, is the one at (counter - 1) mod n |
| RoundRobin.ConsecutiveValuesVisitEachOnce | core/model_manager.py:452-466 | any n consecutive counter values visit each of the n positions exactly once |
| RoundRobin.FetchSeen | core/model_manager.py:438-485 | whatever values the counter and whatever cooldowns each look shows under interleaving, a config fetched is a member of the list, and none is fetched exactly when every look leads to one that is cooling down then |
| RoundRobin.FetchedIsFirstFree | core/model_manager.py:451-483 | the config fetched is the one of the first look that finds one free; every look before found one cooling down |
| RoundRobin.UndisturbedFetchIsComplete | core/model_manager.py:438-485 | an undisturbed client is refused exactly when every config is cooling down |
| RoundRobin.RefusalIsTrueExactly | core/model_manager.py:451-474 | that a refused client can conclude that every config is cooling down, whichever are, holds if and only if the values it saw visit every position of the list |
| RoundRobin.DisturbedFetchMayMiss | core/model_manager.py:446-483 | a client that sees the counter values 1 and 3 is refused though the second of two configs is free |
| RoundRobin.CounterStaysInRange | core/model_manager.py:452-456 | with INCR and SET as steps of their own, in any interleaving of any number of clients, every value seen is positive and below the limit, and the counter exceeds the limit by less than the number of clients about to set it |
| RoundRobin.LateSetRepeatsValues | core/model_manager.py:452-456 | two clients at the limit both see 1, and the later SET takes the counter back behind a value seen since |
| RoundRobin.Prepare | core/model_manager.py:430-436 | the loop over a copy edits the list object itself: without managed credentials exactly the inherited entries are gone, with them exactly the inherited entries carry them |
| RoundRobin.WithoutInheritLength | core/model_manager.py:430-436 | with at most one inherited entry at most one entry is dropped |
| RoundRobin.PreparedIsUsable | core/model_manager.py:430-436 | a list of two or more with at most one inherited entry is prepared to a list that is not empty, and different ids stay different |
| RoundRobin.LoadBalancer.constructor | core/model_manager.py:405-436 | the balancer works with the list object it was given, edited as Prepared says |
| RoundRobin.LoadBalancer.TakeTurn | core/model_manager.py:452-466 | the value seen is the incremented counter, or 1 when the key is absent, expired or at ten million, whatever other clients do between INCR and SET; SET overwrites what they did, and the key lives for an hour; the index is the valid one of that value |
| RoundRobin.LoadBalancer.FetchNext | core/model_manager.py:438-485 | while other clients change the counter before a look and between its INCR and SET, set cooldowns and time passes, the result is what FetchSeen says of the values seen, after at most n looks; undisturbed and without a counter reset it is the config due, and none only when all are cooling down |
| RoundRobin.LoadBalancer.Cooldown | core/model_manager.py:487-512 | adds exactly this config to those cooling down |
| RoundRobin.LoadBalancer.Attempt | core/model_manager.py:315-336 | after a rate limit error the config cools down for exactly 60 seconds, after an authorization or connection error for exactly 10, and after success or another error no cooldown is set; the others keep cooling down as far as they outlast the call |
| RoundRobin.LoadBalancer.Round | core/model_manager.py:313-334 | one fetch and one call keep the configs that failed different and cooling down as long as no cooldown expires |
| RoundRobin.LoadBalancer.Invoke | core/model_manager.py:301-336 | after any number of calls of any duration the loop has failed with rate limit, authorization and connection errors only and goes on, or has ended with the success or other error of the last call or, with no config left to fetch, with the last error; when no cooldown expires the configs tried are different, none was cooling down and it ends within n calls; then without a counter reset giving up means every config is cooling down, and a free config that would succeed makes it succeed if none answers with another error |
| RoundRobin.FreeConfigsFailed | core/model_manager.py:301-336 | when the configs that failed and those cooling down before are all there are, every config that was free has failed with a retryable error |
| LoadBalancingConfigs.ConfigService.GetConfigs | services/model_load_balancing_service.py:101-136 | at most one inherited configuration is kept; a custom provider's list begins with it, created if it was missing |
| LoadBalancingConfigs.ConfigService.ValidateCredentials | services/model_load_balancing_service.py:512-546 | every value that is secret by the model schema, or without one by the provider schema, is stored as a token of the submitted secret or, for the hidden marker, of the secret stored before, and every other value as submitted; fails exactly when a stored secret that is to be kept cannot be decrypted |
| LoadBalancingConfigs.ConfigService.UpdateExisting | services/model_load_balancing_service.py:335-377 | succeeds exactly when no other row found has the name and every secret to keep can be decrypted; then the row answers the request: values that are not secret read back as submitted, and each secret as intended, masked ones as the stored secret, if and only if the provider has a model credential schema; its cached credentials are dropped and no other row changes |
| LoadBalancingConfigs.ConfigService.CreateConfig | services/model_load_balancing_service.py:378-413 | succeeds exactly for a free name other than the inherited one with credentials, and adds exactly one row, which reads back as above |
| LoadBalancingConfigs.ConfigService.KeptIsWhatWasRead | services/model_load_balancing_service.py:522-527 | with a model credential schema the secret kept for a hidden marker is the value that was read before for that key |
| LoadBalancingConfigs.ConfigService.SecretReadAsToken | core/provider_manager.py:892-901 | for a provider without a model credential schema a stored secret is read as the token it is stored as, and not as the secret |
| LoadBalancingConfigs.ConfigService.ServeRequest | services/model_load_balancing_service.py:323-415 | a request is served exactly when it is acceptable to the rows it finds; an empty id asks for a new row like none |
| LoadBalancingConfigs.ConfigService.Update | services/model_load_balancing_service.py:282-423 | the requests are served in turn, as the trace of rows shows, and the update fails exactly at the first that is not acceptable to the rows it finds; after success exactly the rows of the trace without the old ones no request names are left; well-formed requests with names of their own for different rows always succeed; at most one inherited row and a truthful cache are kept in all cases |
| LoadBalancingConfigs.ConfigService.AcceptableExactly | services/model_load_balancing_service.py:323-393 | a request is acceptable exactly when it has a name and the enabled flag, no other row found has the name, and, with an id, the row exists and every stored secret a hidden marker keeps can be decrypted, or, without one, the name is not the inherited one and credentials are given |
| LoadBalancingConfigs.NamedExactly | services/model_load_balancing_service.py:320-423 | the rows kept at the end are exactly those whose id some request gives |
| LoadBalancingConfigs.ConfigService.ServedMore | services/model_load_balancing_service.py:323-415 | serving one more request undoes no request served before |
| LoadBalancingConfigs.ConfigService.UnproblematicIsAcceptable | services/model_load_balancing_service.py:332-393 | while such requests are served, the next one is acceptable |
| LoadBalancingConfigs.ConfigService.ReadSettings | core/provider_manager.py:871-923 | reading through the cache, some of it expired, gives what decrypting the stored rows gives, or nothing for fewer than two |
| LoadBalancingConfigs.ConfigService.SettingsKeepIds | core/provider_manager.py:871-915 | every setting read is a stored row under its own name, no row twice |
| LoadBalancingConfigs.ConfigService.SettingsExactly | core/provider_manager.py:871-915 | a listed row gives a setting exactly when it is enabled and has readable stored credentials or is the inherited one with none; its secrets are decrypted by the model schema where they can be, and its other values are as stored |
| LoadBalancingConfigs.ConfigService.SettingsInOrder | core/provider_manager.py:871-915 | settings come in the order of the rows |
| LoadBalancingConfigs.ConfigService.BalancerNeverRunsEmpty | core/provider_manager.py:916-923 | a list that passes the length filter is not empty after the balancer prepared it, with or without managed credentials, so the modulus is never zero, and its ids are distinct |
| Tokens.TokenManager.GenerateToken | libs/helper.py:204-240 | succeeds exactly with an account or address and a configured lifetime of at least a second; then the store holds the new token with its data for the configured minutes and the account's key for as many hours, the token that key held before is gone, every earlier token of the account and type reads as nothing, and no other key is touched |
| Tokens.TruncateRoundsTowardsZero | libs/helper.py:234-272 | the lifetime in seconds is the whole number next to minutes times seconds on the side of zero, and exact for whole minutes |
| Tokens.DataOf | libs/helper.py:223-228 | the stored data names the type, the address and the account's id, and additional entries win |
| Tokens.TokenManager.RevokeToken | libs/helper.py:246-249 | deletes exactly the token's key |
| Tokens.TokenManager.GetTokenData | libs/helper.py:251-259 | of the tokens issued to an account only the one its current key holds reads as anything, and any token reads as its data exactly while it is live |
| Tokens.TokenManager.Wait | libs/helper.py:204-277 | the passing of time keeps every live token covered by its account's key |
| Tokens.CurrentKeyOutlivesToken | libs/helper.py:230-273 | minutes counted as hours are never the shorter lifetime, for every configured number of minutes |
| Tokens.RevokedIsSilent | libs/helper.py:218-223 | revoking the token an account's key holds leaves none of its tokens live |
| Tokens.IssueKeepsCover | libs/helper.py:225-240 | issuing a token to such an account keeps every live token covered by its account's key |
| Tokens.OneLiveToken | libs/helper.py:204-277 | in every reachable state an account has at most one live token of a type |
| SlidingWindow.RateLimiter.IsRateLimited | libs/helper.py:289-299 | limited exactly when the different seconds of the whole log inside the window are as many as the limit: neither pruning nor the expiry of the key shows |
| SlidingWindow.RateLimiter.Increment | libs/helper.py:301-306 | adds the second of this attempt to the log |
| SlidingWindow.SharedSecondsCountOnce | libs/helper.py:301-306 | the count compared is the number of attempts exactly when no two in the window share a second |
| SlidingWindow.TwoInOneSecond | libs/helper.py:301-306 | two attempts of one second count as one |
| IpLimiter.Limiter.IsLimited | services/account_service.py:442-480 | the three keys decide as the log of all calls does, and the call is added to it |
| IpLimiter.JudgedExactly | services/account_service.py:442-480 | a call is refused as frozen exactly less than an hour after a freeze; else it is refused exactly when more than the limit of admitted calls, each less than a minute before the next, lead up to it, and then freezes the address exactly when an overflow is less than an hour old |
| IpLimiter.BurstIsBounded | services/account_service.py:443-480 | any span of less than a minute admits at most the limit and one more call |
| IpLimiter.SecondOverflowFreezes | services/account_service.py:459-472 | an overflow within an hour of an earlier one freezes the address, or it is frozen already |
| IpLimiter.FreezeNeedsOverflow | services/account_service.py:459-472 | no address is frozen without an overflow less than an hour before |
| IpLimiter.FrozenForAnHour | services/account_service.py:443-453 | a frozen address is refused every call for an hour |
| IpLimiter.FirstOverflowBlocksExactly | services/account_service.py:459-480 | after a first overflow the next call is admitted exactly if a minute has passed since the last admitted call, which was less than a minute before the overflow |
| IpLimiter.RefusedForLessThanAMinute | services/account_service.py:469-480 | for every limit a log within a minute: as many calls as are admitted, one that overflows and one admitted again |
| Membership.TenantService.CreateTenantMember | services/account_service.py:534-549 | a second owner is refused, otherwise exactly one row is made or gets the role |
| Membership.TenantService.CheckMemberPermission | services/account_service.py:675-692 | nobody operates on themselves; adding takes an owner or admin, removing and updating the owner |
| Membership.TenantService.RemoveMemberFromTenant | services/account_service.py:695-705 | deletes exactly the member's row, whoever else the operator is |
| Membership.TenantService.UpdateMemberRole | services/account_service.py:708-724 | the owner found and demoted in a transfer is the operator; the rows afterwards are those of RoleUpdated, which RoleChangedExactly and TransferSwapsExactly describe |
| Membership.TenantService.SwitchTenant | services/account_service.py:576-603 | afterwards the tenant is the account's one current workspace; no other account's row changes |
| Membership.TenantService.LoadUser | services/account_service.py:95-122 | returns the account's current workspace, made current if it had none, and none only without membership or account; refreshes the time of its last activity when that is more than ten minutes old |
| Membership.TenantService.InviteNewMember | services/account_service.py:830-868 | the rows, also those left behind when the call raises, for new and known addresses |
| Membership.PermissionExactly | services/account_service.py:675-692 | nobody operates on themselves; else exactly an owner, or for adding also an admin, is permitted |
| Membership.MemberWrittenExactly | services/account_service.py:534-549 | only a second owner is refused; an existing row gets the role and keeps the rest, a new one has it and is not current |
| Membership.RemovedExactly | services/account_service.py:695-705 | anyone but the member removes the member's row, and no other |
| Membership.RoleChangedExactly | services/account_service.py:708-724 | for another role than owner, exactly the owner gives exactly another member the role asked for, if it is a new one |
| Membership.SwitchedExactly | services/account_service.py:576-603 | a switch to a normal tenant the account belongs to makes that row the one current row of the account |
| Membership.LoadedIsFirst | services/account_service.py:104-116 | loading makes a row current only for an account without one, and then the row with the least id |
| Membership.InvitedNewExactly | services/account_service.py:830-847 | an invited new account has the role asked for in the tenant, which becomes its current one, and owns its own workspace; no row there was changes |
| Membership.InvitedKnownExactly | services/account_service.py:848-868 | an invited known account is added as no current member exactly if it was none and may be, also when the call then raises because it is not pending |
| Membership.RunKeepsInvariants | services/account_service.py:484-724 | over every run of operations a tenant has at most one owner and an account at most one current workspace |
| Membership.TransferSwapsExactly | services/account_service.py:708-724 | a transfer succeeds exactly for the owner acting on another member, makes the one admin and the other owner, and changes no other row and no current flag |
| Membership.TransferBack | services/account_service.py:708-724 | transferring back restores every row but the former role of the other member |
| Membership.UpdateKeepsOwnership | services/account_service.py:708-724 | changing a role leaves each tenant with an owner exactly when it had one |
| Membership.OwnerLostExactly | services/account_service.py:534-549 | an operation takes a tenant's owner away exactly if it removes them or creates them anew in a lower role |
| Membership.LoadedHasCurrentExactly | services/account_service.py:104-116 | after loading, an account has a current workspace exactly when it is a member of any |
| Membership.CurrentLostExactly | services/account_service.py:695-705 | an account loses its current workspace exactly by being removed from it |
| History.SortDescSorts | services/message_service.py:129-140 | the ordered query is sorted newest first and a rearrangement of the rows |
| History.FilterSort | services/message_service.py:113-140 | filtering and ordering commute |
| History.WalkCoversExactly | schedule/clean_messages.py:28-44 | a walk by a time cursor visits the whole history in order, each message once, exactly when no boundary cuts apart messages of the same time |
| History.DistinctTimesCutClean | schedule/clean_messages.py:28-44 | with distinct times no boundary does |
| Paging.PageIsFrontOfRest | services/message_service.py:113-150 | a page is the front of what the cursor leaves, and has_more tells exactly whether an older message is left |
| Paging.PageHolds | services/message_service.py:113-150 | a page has at most limit messages, newest first, all before the cursor; a message before the cursor that it leaves out is no newer than its last, and only a full page leaves any out; has_more tells exactly whether an older message exists |
| Paging.LastIdPageExactly | services/message_service.py:100-150 | a request is refused exactly for a cursor that is no message of the conversation and ids asked for, and fails for pages of no message; else the page holds only such messages older than the cursor, and all of them but those no newer than its last |
| Paging.PageThenRest | services/message_service.py:113-150 | a page is served for every cursor in scope, and what it leaves is the history for the next cursor |
| Paging.FollowByLastId | services/message_service.py:100-150 | a client that follows the cursor stops, and has read the pages of the walk |
| Paging.PagesCoverExactly | services/message_service.py:100-150 | the pages make up the whole sorted and filtered history exactly when no page boundary cuts apart messages of the same time |
| Paging.TiedMessageIsOnNoPage | services/message_service.py:131-148 | of two messages of one time in pages of one, the second is on no page |
| Paging.FirstIdPagesAreReversed | services/message_service.py:29-98 | paging by the first message gives the same pages and fails in the same cases, each page turned round exactly in ascending order; without a user or a conversation the page is empty |
| CleanMessages.Store.PlanOf | schedule/clean_messages.py:49-57 | the plan from the cache is the tenant's plan |
| CleanMessages.Store.DeleteMessage | schedule/clean_messages.py:58-79 | deletes the message and its rows in all six child tables and nothing else |
| CleanMessages.Store.CleanMessage | schedule/clean_messages.py:49-79 | a message is deleted exactly when the plan of its app's tenant is sandbox |
| CleanMessages.Store.CleanBatch | schedule/clean_messages.py:47-79 | a batch deletes exactly its sandbox messages before the first of an app that is gone, and succeeds exactly when there is none |
| CleanMessages.Store.Clean | schedule/clean_messages.py:25-79 | it terminates; exactly the sandbox messages of the walk before the first message of an app that is gone are deleted, with all their child rows, and nothing else; it raises exactly when the walk has such a message |
| CleanMessages.Store.DoomedExactly | schedule/clean_messages.py:47-57 | the ids deleted are those of the messages of sandbox tenants that the walk reaches before any message of a missing app |
| CleanMessages.QueryAfterCleaning | schedule/clean_messages.py:28-44 | what was deleted behind the cursor does not show in the next batch |
| CleanMessages.BatchOfWalk | schedule/clean_messages.py:28-46 | each batch is the next page of the walk through the table as it was at the start |
| CleanMessages.WalkReachesExactly | schedule/clean_messages.py:28-79 | the walk reaches every message older than the cutoff exactly when no batch boundary cuts apart messages of the same time |
| CleanMessages.TiedMessagesAreNotReached | schedule/clean_messages.py:36-48 | of more old messages of one time than a batch holds, one batch is reached |
| WordCount.NextPosition | services/dataset_service.py:1414-1426 | a new position is above all old ones, by one above some old one, and 1 without any |
| WordCount.SegmentService.CreateSegment | services/dataset_service.py:1396-1455 | appends a segment with the submitted text, the answer only in question-and-answer form, their count, the tokens of the content alone, and the failure of the vector service, at the next position; keeps the difference between the document's count and the sum of its segments' |
| WordCount.SegmentService.MultiCreateSegment | services/dataset_service.py:1457-1533 | appends the submitted segments at consecutive new positions, all or none, and keeps the difference |
| WordCount.SegmentService.CreatedExactly | services/dataset_service.py:1480-1533 | what follows the old segments, field by field: consecutive positions, content, answer, count and tokens of both, disabled and failed exactly if the vector service raises |
| WordCount.SegmentService.BuildSegments | services/dataset_service.py:1480-1519 | builds one segment per item in order, and the sum of their counts |
| WordCount.SegmentService.UpdateSegment | services/dataset_service.py:1535-1634 | changes only this segment, as Updated says, and keeps the difference but for the drift of a missing answer; what is not committed is described exactly |
| WordCount.SegmentService.UpdatedExactly | services/dataset_service.py:1543-1634 | the segment an accepted update leaves, case by case: only disabled; failed and otherwise untouched when a changed text cannot be embedded; else the new content, answer, count, tokens and keywords, failed exactly without an answer or with the vector service |
| WordCount.SegmentService.UnbalancesExactly | services/dataset_service.py:1556-1630 | which requests unbalance the counts, in terms of the request and the segment, and that these are those with a drift or an uncommitted change |
| WordCount.SegmentService.ServeUpdate | services/dataset_service.py:1535-1634 | as committed after the request, with or without an answer, the difference is kept exactly when the request does not reach editing, or neither misses an answer that was counted nor leaves the change of the count uncommitted |
| WordCount.SegmentService.DeleteSegment | services/dataset_service.py:1636-1652 | removes exactly this segment and its count |
| EnvironmentVariables.Workflow.GetEnvironmentVariables | models/workflow.py:234-255 | reading does not change what is stored, also when nothing ever was |
| EnvironmentVariables.Workflow.SetEnvironmentVariables | models/workflow.py:256-286 | stores the list with hidden values resolved and secrets encrypted, or refuses and stores nothing |
| EnvironmentVariables.DictKeepsAllExactly | models/workflow.py:282-286 | the dictionary by name keeps the whole list in order exactly when the names are distinct, and is shorter otherwise |
| EnvironmentVariables.LoadUndoesEncryptExactly | factories/variable_factory.py:72-112 | loading an encrypted variable gives it back exactly when it can be built |
| EnvironmentVariables.ReadAfterWriteExactly | models/workflow.py:234-286 | reading after writing gives the resolved list in order exactly when names are distinct and every variable can be built; SavedReadsBack says what each is |
| EnvironmentVariables.SavedReadsBack | models/workflow.py:256-286 | each variable read after a save has the submitted kind, id, name, description, value and selector, unless its value was the hidden marker and its id was known: then it is the last variable read before of that id, under the new name |
| EnvironmentVariables.RefusedExactly | models/workflow.py:256-274 | a save is refused exactly when a variable lacks an id or the stored list cannot be read |
| EnvironmentVariables.ReadsExactly | factories/variable_factory.py:72-112 | a stored list can be read exactly when every variable has a name, a value of its kind within the size limit and, if secret, a token that decrypts |
| EnvironmentVariables.SecretsAreTokensAtRest | models/workflow.py:234-283 | a stored secret is a token that decrypts to what is read, and any other value is stored as it is read |
| EnvironmentVariables.RenamedKeepsSelectorExactly | models/workflow.py:270-273 | a variable saved masked is read back as it was under the new name; its default selector fits the name if and only if it was not renamed |
| EnvironmentVariables.MaskedSavesKeepSecret | models/workflow.py:268-274 | any number of saves that mask a secret keep it, whatever else they rename or change |
| Splice.AppendSigned | models/dataset.py:566-596 | the loop over the matches appends one signed edit for each |
| Splice.EveryLinkIsMatched | models/dataset.py:566-584 | no link of a kind is missed by going on from the end of the one before |
| Splice.EveryFormIsMatched | models/dataset.py:566-584 | wherever a text holds "/files/", a nonempty run of hexadecimal digits and dashes and "/image-preview" or "/file-preview", just that is a match |
| Splice.EveryMatchHasForm | models/dataset.py:566-584 | and every match has this form |
| Splice.LinksApart | models/dataset.py:566-584 | no link starts inside another one of either kind |
| Splice.Reconstruct | models/dataset.py:598-604 | the loop with the running offset is the replay of its edits, never out of range |
| Splice.OrderedReplayIsSubstitution | models/dataset.py:598-604 | for ordered edits that only lengthen, the running offset substitutes all of them at once on the original text |
| Splice.MisplacedFile | models/dataset.py:598-604 | with an image link behind the first file link the loop never gives what substituting all links at once gives, whatever the text |
| Splice.GetSignContent | models/dataset.py:562-604 | the method replays the edits of all image links, then of all file links |
| Splice.LinksExactly | models/dataset.py:566-596 | the edits made are exactly the matches of both kinds, each replaced by itself, a question mark and its own signature |
| Splice.OneLinkIsSigned | models/dataset.py:562-604 | a text with one link, whatever stands before and after it, is signed by putting question mark and signature behind the link |
| Splice.SignedAsMeantExactly | models/dataset.py:562-604 | a text is signed as meant if and only if all its image links come before all its file links |
| Splice.FileBeforeImage | models/dataset.py:566-604 | a text of a file link and an image link in this order, which is not signed as meant |

## Left out

- HTTP, mail, OAuth, storage, Celery set-up, configuration loading and marshalling: no logic beyond unseen libraries.
- SHA-1, MGF1, AES-EAX, UUIDs, JSON and text codecs, and the provider APIs: parameters with a stated law.
- The document store, index processors, vector and keyword services: adding a document makes one waiting segment, and loading only succeeds or raises.
- Indexing is modelled on values, as a transition system over the rows: the runner's objects and the aliasing of session objects between threads are not captured.
- Deletion of the document during indexing, crashes of the worker process, concurrent runs for one document, and the token totals stored by a load.
- RoundRobin.LoadBalancer.Invoke: other clients' turns during an invocation are covered only fetch by fetch, by FetchNext.
- RoundRobin.LoadBalancer.TakeTurn: EXPIRE belongs to the step of INCR or SET.
- Membership: dissolving a tenant is not modelled; its permission check raises for everybody, as operator and member are the same. Roles are plain strings.
- Membership.TenantService.InviteNewMember: the mail, the invitation token and the failure of registration for other reasons than a refused owner row are not modelled.
- WordCount.SegmentService.UpdateSegment: timestamps, the text hash and keywords the vector service writes are not modelled; requests for one document are serialized, as the two creation locks have different names.
- EnvironmentVariables.Workflow.SetEnvironmentVariables: the three array types are one kind, and the values of objects and arrays are their texts.
- Splice.GetSignContent: the signature itself (time, nonce and HMAC) is a function of the link's span.
- Paging in `ConversationService` compares counts in a way that does not give has_more, and the job that cleans unused datasets has no decreasing measure; neither is modelled.
- The workflow engine, agents, retrieval, and the services that only create, read, update and delete rows: outside the areas above.
