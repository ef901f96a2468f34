# Verified models of an API security SDK

This project models the decision-making cores of a Go security SDK and proves what they
promise: role-based and attribute-based access control, the sliding-window rate limiter, the
PHC password-hash format, the JWKS key cache, API keys, time-based one-time passwords,
request signing, JWT refresh and revocation, and the header list of the CORS middleware.

`dafny verify dfyconfig.toml` checks everything. Objects whose methods change them in the
SDK are classes here; each of their methods is tied to a function or predicate on values, and
the laws are lemmas about those. The lemmas named `...Exactly` tell what a function answers on
every input by the fields and constants of the SDK, and not by the function that computes it:
what a permission matches, which entry of a key set counts, what a text decodes to, which
code belongs to a counter, which request is accepted. Where they name another function, it
has such a lemma of its own.

| file | part of the SDK |
|---|---|
| `RoleGraph.dfy`, `Rbac.dfy`, `RbacProperties.dfy` | the role graph, its store, the capped depth-first search, and what the search decides |
| `SlidingWindow.dfy`, `RateLimit.dfy` | the two-counter window as a state machine; buckets, store and limiter |
| `Password.dfy` | printing, parsing, hashing and verifying Argon2id strings |
| `Jwks.dfy`, `JwksRuns.dfy`, `JwksOrder.dfy`, `JwksGap.dfy` | the key cache as an object; overlapping calls as interleaved steps; the order in which replies are stored; the gap between refreshes |
| `KeyHistory.dfy`, `ApiKey.dfy` | the two-map key store over whole histories; its objects on the heap |
| `Otp.dfy`, `ReqSign.dfy` | secrets, codes and time windows; payloads, signatures and replay windows |
| `Abac.dfy`, `Jwt.dfy`, `Cors.dfy` | policies by priority; tokens and the blacklist; the header list |
| `Radix.dfy`, `Decimal.dfy`, `Text.dfy`, `Arithmetic.dfy`, `Wrappers.dfy` | base64, base32 and hexadecimal (RFC 4648) as one regrouping of bits; decimals; strings; arithmetic |

MACs, digests, key derivation and signature schemes are parameters of which only the output
length, or that they parse what they sign, is assumed. Clock readings, random bytes, network
replies and the order in which a map is walked are inputs or choices left open. Time is
whole nanoseconds (whole seconds in `Otp`), integers are unbounded except where a width
matters (64-bit counters, timestamps and exponents, 32- and 8-bit hash parameters), and
strings are ASCII.

## Where the code and its documentation disagree

The models follow the code.

- `rbac/rbac.go:75` speaks of 64 levels. The guard counts visited names: along a single line
  of parents that is 64 levels, but 66 directly assigned roles already exceed it
  (`ChainIsAllowedUpTo64Levels`, `WideAssignmentIsAllowedUpTo65Names`).
  `LevelsAreFoundExactly` says which role graphs keep the promise about levels,
  `ExactForEveryPermission` for which the cap is harmless altogether, and
  `KeepsAccessExactly` when a larger or reordered graph keeps all access.
- `ratelimit/ratelimit.go:27` promises at most `Limit` requests within a window. The code
  admits up to twice that, and `PromiseHoldsExactly` shows when the promise holds.
- `ratelimit/store.go:33-38` gives the estimate; the request that shifts the windows is
  counted as 1 instead (`CountIsDocumentedEstimate` has the exact condition).
- `ratelimit/store.go:12` asks a store to expire a key after its window; `MemoryStore` never
  does: until it is reset, a key keeps the window of its first request (`KeysAreIsolated`).
- `auth/jwks/jwks.go:53,66` speak of the gap between refresh attempts. Only refreshes already
  stored count, neither failed ones nor those under way: within the delay of an attempt
  another one starts exactly if nothing was stored in between (`StartsAgainExactly`). Where
  no request fails, one thread keeps the gap and two do not (`GapIsKeptExactly`); where
  requests may fail, one thread does not either (`GapUnderFailuresExactly`).
- `auth/jwks/jwks.go:6-7` calls the handling of key rotation transparent. Two fetches that
  overlap can put an older key set back (`OverlappingFetchesRestoreOldKeys`);
  `OrderIsKeptExactly` and `GoesWrongExactly` say precisely when that can happen.
- `abac/types.go:9` says Deny takes precedence at equal priority and `abac/store.go:58` that
  ties keep insertion order. The map's order decides (`DenyTakesPrecedenceExactly`,
  `DecisionIsFixedExactly`).
- `auth/jwt/jwt.go:123-124` promises a new token. With a deterministic scheme the refresh
  fails to give a working one in two cases, and `RefreshWorksExactly` shows there is no
  other before it expires: the old token carries exactly the renewed claims, as it does in
  the second it was signed in, so that the refresh returns the token it has just revoked; or
  the token with the renewed claims was revoked or refreshed earlier, even if the old token
  is of another second (`SpentRenewalFails`).
- `apikey/apikey.go:46` calls the ID unique. It is a 16-character prefix of the hash, and
  issuing a key whose prefix collides replaces the older key, which does not verify from
  then on (`IssueReplacesPrefix`, `VerifiedExactly`).

## Model

| member | source | states |
|---|---|---|
| `RoleGraph.DiscoverIsReachability` | rbac/rbac.go:76-97 | the uncapped depth-first order lists exactly the names reachable through parents, dangling ones included, each once, for any cyclic graph |
| `RoleGraph.DiscoverInTurn` | rbac/rbac.go:39-43 | searches of one root after another that share the visited map are one search of all roots |
| `Rbac.Enforcer.RoleHasPermission` | rbac/rbac.go:76-97 | a failed search has visited exactly the uncapped order cut at 65 names, none granting; a successful one stopped at the first granting name; GetRole was asked for the newly visited names in that order; terminates |
| `Rbac.Enforcer.Can` | rbac/rbac.go:34-46 | allowed iff one of the first 65 names in discovery order grants the request; at most 65 GetRole calls over all roots, no name twice |
| `Rbac.MemoryStore.GetRole` | rbac/store.go:45-53 | the stored role or nothing; one lookup is logged |
| `Rbac.MemoryStore.GetSubjectRoles` | rbac/store.go:55-62 | the assigned names, empty for an unknown subject |
| `Rbac.MemoryStore.AssignRole` | rbac/store.go:64-74 | appends a role that is not yet assigned, otherwise changes nothing; no subject ever holds a role twice |
| `Rbac.MemoryStore.UnassignRole` | rbac/store.go:76-87 | cuts out the role and keeps the order of the rest; afterwards the role is not assigned; no-op if it was not |
| `Rbac.MemoryStore.AddRole` | rbac/store.go:89-94 | overwrites the definition under the role's name and touches no other |
| `Rbac.MemoryStore.RemoveRole` | rbac/store.go:96-101 | removes just that name |
| `Rbac.DecisionExactly` | rbac/rbac.go:34-46 | allowed iff one of the first 65 names discovered is a role that lists the resource and the action, or a star in place of either |
| `Rbac.OrderExactly` | rbac/rbac.go:76-97 | a new name is followed in the order by what the parents of its role lead to, as the role lists them, and a name seen before or without a role by nothing |
| `RbacProperties.AccessExactly` | rbac/rbac.go:34-97 | told by the roles' own parents and permissions: whatever is allowed is permitted at the end of a line of parents from an assigned role, and with at most 65 reachable names the converse holds |
| `RbacProperties.DecisionIsSound` | rbac/rbac.go:34-46 | whatever the graph, an allowed request is inherited from an assigned role |
| `RbacProperties.DecisionIsInheritance` | rbac/rbac.go:34-46 | with at most 65 reachable names, allowed iff some reachable role grants the request |
| `RbacProperties.ExactForEveryPermission` | rbac/rbac.go:77-79 | a role graph is decided exactly for every choice of permissions and every request iff no existing role comes after the 65th name in discovery order |
| `RbacProperties.LevelsAreFoundExactly` | rbac/rbac.go:75-79 | for any graph and any number of levels, every grant at most that many levels up is found, whatever the permissions, iff no existing role that close comes after the 65th name in discovery order; the comment's promise is the case of 64 |
| `RbacProperties.AssignmentKeepsAccess` | rbac/store.go:64-74 | assigning one more role keeps every allowed request allowed, with no bound on the graph |
| `RbacProperties.EnlargingKeepsAccess` | rbac/store.go:89-94 | below the cap, more parents, permissions or assigned roles in any order keep every allowed request allowed |
| `RbacProperties.AddingARoleKeepsAccess` | rbac/store.go:89-94 | below the cap, AddRole with a new or enlarged role keeps every allowed request allowed |
| `RbacProperties.KeepsAccessExactly` | rbac/rbac.go:76-97 | for any two role graphs and root lists where no role is removed: all access is kept, whatever the permissions, iff every existing role that the first search considers is considered by the second |
| `RbacProperties.AddingARoleCanTakeAccessAway` | rbac/rbac.go:77-79 | defining an assigned role with n missing parents keeps a request allowed iff n + 2 names fit under the cap |
| `RbacProperties.OrderIsIrrelevant` | rbac/rbac.go:40-44 | below the cap, the order and repetition of assigned roles, parents and permissions do not matter |
| `RbacProperties.ChainIsAllowedUpTo64Levels` | rbac/rbac.go:75-79 | a permission n levels up a single line of parents is found iff n is at most 64 |
| `RbacProperties.WideAssignmentIsAllowedUpTo65Names` | rbac/rbac.go:75-79 | the last of n + 1 assigned roles, nothing inherited, is considered iff n + 1 is at most 65 |
| `SlidingWindow.CountOfRequest` | ratelimit/store.go:51-72 | before the end of the window the count is floor(prev * (W - elapsed) / W) + curr; from then on it is 1; it lies between curr and curr + prev |
| `SlidingWindow.CountWithoutWindow` | ratelimit/store.go:51-72 | with a window of zero or less the previous requests never weigh in: the count is 1 after a restart, otherwise one more than before |
| `SlidingWindow.FirstWindow` | ratelimit/store.go:47-73 | in the window that begins when the bucket is created, the n-th request is told n, and just the first Limit requests are let through |
| `SlidingWindow.RestartIsFresh` | ratelimit/store.go:53-57 | in every run, the first request after two idle windows begins a window at its own time: counters and admissions from then on are those of a bucket created at that instant |
| `SlidingWindow.CountIsDocumentedEstimate` | ratelimit/store.go:33-73 | the count equals the documented estimate iff the request does not shift the windows or the weighted previous count is below one |
| `SlidingWindow.CountersAreExact` | ratelimit/store.go:51-65 | for every run in clock order, curr and prev are exactly the numbers of requests in the current and the previous window |
| `SlidingWindow.CountIsNearlyExact` | ratelimit/store.go:51-72 | each returned count and the exact count over the sliding window ending now both lie between curr and curr + prev |
| `SlidingWindow.EpochBound` | ratelimit/ratelimit.go:50-67 | between two rollovers at most Limit requests are admitted, even if clock readings arrive out of order |
| `SlidingWindow.RunsStayWithinLimit` | ratelimit/ratelimit.go:50-67 | in every run neither the current nor the previous window ever holds more than Limit admissions |
| `SlidingWindow.IntervalBound` | ratelimit/ratelimit.go:50-67 | in every run, any half-open interval as long as the window sees at most 2 * Limit admissions |
| `SlidingWindow.IntervalBoundIsReached` | ratelimit/ratelimit.go:50-67 | for every positive Limit and window longer than twice Limit ticks, some run admits exactly 2 * Limit in one interval |
| `SlidingWindow.PromiseHoldsExactly` | ratelimit/ratelimit.go:27-28 | at most Limit admissions per window in all runs iff Limit is 0 or the window is one clock tick |
| `RateLimit.Bucket.Inc` | ratelimit/store.go:47-73 | for every window, zero and negative included, all three fields after each of the three rollovers, as the state machine has them; the returned count is its count wherever the Go arithmetic defines one |
| `RateLimit.MemoryStore.BucketFor` | ratelimit/store.go:76-82 | a key's bucket is found, or created at the first clock reading; no two keys share one |
| `RateLimit.MemoryStore.Inc` | ratelimit/store.go:75-84 | advances this key's counters and no other's; an existing bucket keeps its own window |
| `RateLimit.MemoryStore.Reset` | ratelimit/store.go:86-91 | forgets just this key |
| `RateLimit.Limiter.Handle` | ratelimit/ratelimit.go:48-68 | admitted iff the count is at most Limit; remaining is Limit minus the count if admitted, otherwise 0 |
| `RateLimit.KeysAreIsolated` | ratelimit/store.go:75-84 | over any run of the shared store, resets included, a key's counters and later admissions are those of its own requests since it was last reset, in the window of the first of them |
| `RateLimit.AdmissionsAreBounded` | ratelimit/ratelimit.go:48-68 | over any run of the shared store, at most 2 * Limit admissions of a key in any interval no longer than its window, and 2 * Limit more for each reset of the key |
| `RateLimit.ClearingForgets` | ratelimit/store.go:86-91 | over any run, a key's counters are those of a run of only what followed its last reset, and the admissions are those before it followed by those of that run |
| `Radix.DecodeEncodeDigits` | crypto/password.go:72-73 | regrouping bytes into 1- to 8-bit digits with zero padding and back is the identity |
| `Radix.DecodeEncode` | crypto/password.go:72-95 | every byte string decodes from its unpadded base64, base64url, base32 or hex text |
| `Radix.EncodeExactly` | crypto/password.go:72-73 | the characters of an encoded text are taken from the tables of RFC 4648 and spell the number of the bytes, shifted left by the bits to spare |
| `Radix.DecodeExactly` | crypto/password.go:91-98 | a text decodes to given bytes iff its characters are in the table and their number, without the bits to spare, is that of the bytes; no character may consist of such bits alone |
| `Radix.WithoutNewlinesSkips` | crypto/password.go:95-99 | line ends, and nothing else, are skipped anywhere in a text before it is decoded |
| `Radix.HexIsUnique` | reqsign/reqsign.go:73-80 | a lower-case hex text decodes to given bytes iff it is their encoding |
| `Decimal.FormatNatExactly` | crypto/password.go:66-75 | a number prints as the only decimal numeral for it without superfluous zeros |
| `Decimal.DigitsValueExactly` | reqsign/reqsign.go:162 | decimals are read with the most significant digit first |
| `Decimal.ParseInt64Exactly` | reqsign/reqsign.go:162 | a text parses iff it is an optional sign and digits whose value fits 64 bits |
| `Text.TrimSpaceExactly` | reqsign/reqsign.go:162 | trimming takes away all blanks at both ends and nothing else |
| `Text.CaseExactly` | cors/cors.go:129 | changing case exchanges the letters of the two alphabets and leaves all else alone |
| `Text.SplitExactly` | crypto/password.go:81 | splitting at a character gives the only parts that are free of it and, joined by it, make the text |
| `Password.PrintedParts` | crypto/password.go:66-75 | a printed hash splits into an empty part, the scheme, version 19, the decimals of memory, iterations and parallelism after "m=", ",t=" and ",p=", the salt and the hash, in that order |
| `Password.ParseEncodedHash` | crypto/password.go:66-106 | parsing a printed hash gives back hash, salt and all parameters, with both lengths set to the real ones modulo 2^32, for all byte strings and parameters |
| `Password.DecodeHash` | crypto/password.go:80-106 | the step-by-step parser computes the parse function, errors included |
| `Password.ParseHashExactly` | crypto/password.go:80-106 | a text is read as given parameters, salt and hash iff it has six parts that say so: the scheme second, a signed 64-bit version, three unsigned numbers within their widths, two base64 texts; anything else is refused |
| `Password.VerifyExactly` | crypto/password.go:54-63 | for every text: malformed iff it is no such hash, otherwise decided by the key that the password derives with the salt and the parameters of the text |
| `Password.VerifyHashed` | crypto/password.go:45-63 | verifying q against the stored hash of p succeeds iff both derive the same key; it fails to answer only where the derivation itself panics |
| `Password.VerifyOwnHash` | crypto/password.go:45-63 | the right password always verifies |
| `Jwks.CollectKeys` | auth/jwks/jwks.go:199-209 | the map holds, for each kid, the last supported signing entry with it and nothing else |
| `Jwks.SigningKeyExactly` | auth/jwks/jwks.go:199-286 | an entry yields a key iff its use is empty or "sig", its type RSA or EC and its texts decode, and the key's numbers are the big-endian values of the entry's own fields |
| `Jwks.HoldsLastExactly` | auth/jwks/jwks.go:199-209 | the map leads a kid to a key iff the last usable entry with it describes that key |
| `Jwks.UnusableIsAbsent` | auth/jwks/jwks.go:200-208 | an entry of another use or type leaves the map as if it were absent, wherever it stands |
| `Jwks.HoldsLastIsUnique` | auth/jwks/jwks.go:199-209 | corollary: that description determines the map |
| `Jwks.Source.CachedKey` | auth/jwks/jwks.go:152-167 | finds nothing in an expired cache, the kid's key in a live one, and any key if there is no kid |
| `Jwks.Source.Fetch` | auth/jwks/jwks.go:182-217 | a decoded reply replaces keys and both times; any failure changes nothing |
| `Jwks.Source.RefreshIfAllowed` | auth/jwks/jwks.go:171-180 | refuses within the minimum delay of the last stored refresh, otherwise fetches |
| `Jwks.Source.KeyFunc` | auth/jwks/jwks.go:124-142 | one undisturbed call: cache hit, refusal, failed fetch, or refresh and second lookup, with the cache after each |
| `Jwks.CallWithoutRefresh` | auth/jwks/jwks.go:124-142 | a call answered by the cache, refused by the guard or failed by the endpoint changes nothing, with the key or the error of each case |
| `Jwks.CallWithRefresh` | auth/jwks/jwks.go:124-142 | a call that gets a new key set stores its usable entries and answers from them: with the key of the last one for the kid within the TTL, and with kid-not-found iff there is none in time |
| `Jwks.PublishedKeyIsReturned` | auth/jwks/jwks.go:128-141 | corollary of KeyFunc's contract: once the endpoint lists a kid, a missing call past the delay returns its current key, provided the second lookup is within the TTL |
| `Jwks.RefreshesKeepTheDelay` | auth/jwks/jwks.go:171-180 | corollary of KeyFunc's contract: after a call that fetched, the next refresh is let through iff the fetch failed or the delay has passed |
| `JwksRuns.CallIsARun` | auth/jwks/jwks.go:124-142 | every undisturbed call of the key source is a run of one thread of the interleaving model that ends with the cache the call leaves; its last lookup finds the key the call returns, and nothing is found if it returns an error |
| `JwksRuns.RunsAreConsistent` | auth/jwks/jwks.go:211-215 | in every interleaving of any number of calls, the cache is what the last commit stored and commits are in clock order |
| `JwksRuns.ReturnedKeysAreCurrent` | auth/jwks/jwks.go:128-140 | in every interleaving, a key returned for a kid is the last supported signing entry with it in the last commit, which is no older than the TTL; a key returned without a kid is such an entry for some kid |
| `JwksRuns.CalledKeysAreCurrent` | auth/jwks/jwks.go:124-142 | after any run, the key that an undisturbed call returns, with or without a kid, is current in that sense at the call's last lookup |
| `JwksRuns.CurrentKeysAreFound` | auth/jwks/jwks.go:152-167 | conversely, every lookup of such a key returns it, and a lookup without a kid returns some current key if there is one |
| `JwksRuns.GuardKeepsDistanceToCommits` | auth/jwks/jwks.go:171-180 | in every interleaving a request starts iff all earlier successful refreshes are at least the minimum delay old |
| `JwksRuns.FindsExactly` | auth/jwks/jwks.go:152-167 | what a lookup may find is exactly a key that is current for its kid, and nothing exactly if there is none |
| `JwksGap.StartsAgainExactly` | auth/jwks/jwks.go:171-180 | in any run, within the minimum delay of a forced refresh another one starts iff no refresh was stored in between |
| `JwksGap.GapIsKeptExactly` | auth/jwks/jwks.go:171-216 | all runs of a set of threads without failing requests keep the minimum gap between forced refreshes iff it is at most one thread or the delay is not positive |
| `JwksGap.OverlappingCallsBothStart` | auth/jwks/jwks.go:171-180 | any two threads can both start a request at the same instant, whatever the delay, with no request failing |
| `JwksGap.FailuresAreNotThrottled` | auth/jwks/jwks.go:171-190 | for every n, every delay and every kind of failure, one thread starts n failing requests at one instant |
| `JwksGap.GapUnderFailuresExactly` | auth/jwks/jwks.go:171-216 | all runs of a set of threads, failing requests included, keep the gap iff there is no thread or the delay is not positive |
| `JwksOrder.OverlappingFetchesRestoreOldKeys` | auth/jwks/jwks.go:182-216 | for any two threads and any two key sets, some interleaving of their fetches ends with the older set cached after the newer |
| `JwksOrder.SeparateFetchesCommitInOrder` | auth/jwks/jwks.go:182-216 | where at most one fetch is under way at a time, every commit is of a newer reply than all before it |
| `JwksOrder.OrderIsKeptExactly` | auth/jwks/jwks.go:182-216 | all runs of a set of threads store replies in the order they were served iff it is at most one thread |
| `JwksOrder.GoesWrongExactly` | auth/jwks/jwks.go:182-216 | in any reached world still in order, finishing the fetches under way can store an older reply after a newer one iff two are under way or one holds a reply older than a stored one |
| `KeyHistory.MapsAgree` | apikey/store.go:36-43 | after any history the two maps agree: each hash leads to its prefix, each record is known by its hash |
| `KeyHistory.CheckRefinesOneMap` | apikey/apikey.go:148-165 | after any history, verification is decided by the record under the hash's 16-character prefix alone, even with colliding prefixes |
| `KeyHistory.RecordsFollowHistory` | apikey/store.go:36-75 | the record under an ID is the last one issued with it, revoked iff that ID was revoked since |
| `KeyHistory.VerifiedExactly` | apikey/apikey.go:148-165 | a key verifies iff its own issue is the last with its ID, the ID was not revoked since, and it has not expired |
| `KeyHistory.OutcomeExactly` | apikey/apikey.go:148-165 | after any history, the answer for every hash: invalid unless its own issue is the last with its 16 characters, then revoked if they were revoked since, else expired after its expiry, else the record as issued |
| `KeyHistory.IssueReplacesPrefix` | apikey/store.go:36-43 | after any history, issuing one more key leaves the verification of a hash with another prefix as it was; a hash with the same prefix verifies no more unless it is the new key's own |
| `KeyHistory.RevocationIsPermanent` | apikey/store.go:66-75 | a revoked key never verifies again unless the same hash is issued again, whatever else happens |
| `ApiKey.MemoryStore.Save` | apikey/store.go:36-43 | stores a fresh copy under the ID and the ID under the hash |
| `ApiKey.MemoryStore.GetByID` | apikey/store.go:55-64 | a fresh copy of the record, or not found |
| `ApiKey.MemoryStore.GetByHash` | apikey/store.go:45-53 | the record that the hash's ID leads to, as a fresh copy, or not found |
| `ApiKey.MemoryStore.Revoke` | apikey/store.go:66-75 | marks exactly this record; not found changes nothing |
| `ApiKey.MemoryStore.ListBySubject` | apikey/store.go:77-88 | one fresh copy of each of the subject's keys and of no other |
| `ApiKey.Service.Issue` | apikey/apikey.go:111-144 | the saved record takes its ID from the front of the hash of the returned plaintext, carries the options and both times, is not revoked, and is a different object from the returned one |
| `ApiKey.Service.Verify` | apikey/apikey.go:148-165 | answers as the two maps say, each error included, with a fresh copy on success |
| `ApiKey.Service.Revoke` | apikey/apikey.go:168-170 | revokes the record under the ID if there is one |
| `ApiKey.IssueThenVerify` | apikey/apikey.go:111-165 | an issued key verifies, with all it was issued with, up to the last instant of its lifetime, or for ever without one, and is expired from then on |
| `ApiKey.ScribbleOnVerifiedKey` | apikey/store.go:62-63 | writes to all fields of a returned key leave the store as it was |
| `Otp.DecodeRepadded` | otp/totp.go:197-208 | filling any unpadded text up to a multiple of 8 makes the padded decoder answer as the plain one does, malformed texts included |
| `Otp.DecodeSecretExactly` | otp/totp.go:197-208 | every secret without line ends inside, padded or not, decodes to given bytes iff its upper-case form without blanks is base32 for them |
| `Otp.SecretRoundTrip` | otp/totp.go:197-208 | every byte string is recovered from its unpadded base32 text, in any mix of cases and with blanks around it |
| `Otp.MessagesDiffer` | otp/totp.go:180-181 | different counters give different MAC messages |
| `Otp.MessageSpellsCounter` | otp/totp.go:180-181 | the message is the counter in base 256, most significant byte first |
| `Otp.CodeExactly` | otp/totp.go:173-195 | a text is the code of a counter iff it has the wanted number of digits and they spell the low 31 bits of four bytes, at the dynamic offset, of the MAC of the counter as eight big-endian bytes, modulo the power of ten |
| `Otp.TruncateTakes31Bits` | otp/totp.go:188-192 | the truncated digest is the number made by the last 31 bits of the four bytes at the dynamic offset |
| `Otp.CodeFormat` | otp/totp.go:187-194 | every code has exactly the wanted number of decimal digits and denotes the 31-bit truncation modulo 10^digits |
| `Otp.VerifyWithOptions` | otp/totp.go:91-123 | accepts iff the trimmed code has the right length and is the code of a step at most skew away; a malformed secret and a wrong code are told apart |
| `Otp.VerdictExactly` | otp/totp.go:91-123 | the verdict on every input, defaults filled in: a wrong length is told before a malformed secret, and a code is valid iff it belongs to a step at most skew away, for times before 1970 too |
| `Otp.GeneratedCodeIsAccepted` | otp/totp.go:105-122 | the code of t is among the candidates at every time at most skew * period away |
| `Otp.GeneratedCodeVerifies` | otp/totp.go:91-123 | end to end: a code generated for a decodable secret, typed with blanks around it, gets the verdict Valid at every time at most skew * period away |
| `Otp.AcceptedCodesAreNearby` | otp/totp.go:105-122 | accepted iff it is the code of a step at most skew steps away, all of whose instants are less than (skew + 1) * period away |
| `ReqSign.BuildPayload` | reqsign/reqsign.go:245-251 | the copied buffer is the timestamp, a newline and the body |
| `ReqSign.PayloadIsInjective` | reqsign/reqsign.go:245-251 | no two pairs of 64-bit timestamp and body share a payload |
| `ReqSign.PayloadExactly` | reqsign/reqsign.go:245-251 | the payload is the short decimal of the timestamp, one line end and the body |
| `ReqSign.OutcomeExactly` | reqsign/reqsign.go:130-188 | the outcome of every request and the exact condition of each error: missing header, no timestamp, outside the window, wrong signature |
| `ReqSign.AcceptedExactly` | reqsign/reqsign.go:130-188 | a request is accepted iff both headers are sent, the timestamp parses and is within the window, and the signature spells the MAC of that timestamp and body |
| `ReqSign.VerifyAcceptsSpellings` | reqsign/reqsign.go:78-86 | Verify accepts exactly the spellings, in any case, of the MAC in hexadecimal |
| `ReqSign.SignedRequestIsAccepted` | reqsign/reqsign.go:153-241 | a request signed by the transport is accepted iff its whole-second timestamp is within the replay window, and is otherwise rejected as a replay |
| `ReqSign.TamperingNeedsACollision` | reqsign/reqsign.go:153-188 | an accepted request that reuses a signature for another timestamp or body exhibits two payloads with one MAC |
| `Abac.FirstMatchOfSorted` | abac/abac.go:60-67 | stable sorting followed by first match is the best match of the unsorted list |
| `Abac.PossibleDecisions` | abac/abac.go:55-69 | over all orders of the map, the possible decisions are exactly those of the matching policies of maximal priority, or the default if none matches |
| `Abac.DecisionsExactly` | abac/abac.go:55-69 | the same by the policies' own fields: a policy without a condition, or whose condition holds, and that none such outranks, decides by its effect |
| `Abac.UnconditionalDecides` | abac/abac.go:60-67 | a policy without a condition that outranks all others decides every request |
| `Abac.SortIsStable` | abac/store.go:58-61 | sorting keeps all policies of each priority in their order |
| `Abac.TopPolicyMayDecide` | abac/store.go:51-63 | every matching policy of maximal priority decides under some order |
| `Abac.AnswerIsFixedExactly` | abac/store.go:51-63 | the allow/deny answer is the same for all orders iff those policies agree on the effect |
| `Abac.DenyTakesPrecedenceExactly` | abac/types.go:9-10 | Deny prevails at equal top priority in all orders iff those policies agree |
| `Abac.DecisionIsFixedExactly` | abac/store.go:58-61 | the whole decision, policy included, is the same for all orders iff at most one policy is top |
| `Abac.MemoryStore.AddPolicy` | abac/store.go:34-39 | overwrites the policy with the same ID |
| `Abac.MemoryStore.RemovePolicy` | abac/store.go:41-49 | removes the policy, or reports that there is none |
| `Abac.MemoryStore.Policies` | abac/store.go:51-63 | each policy once, in some order, then stably sorted by descending priority |
| `Abac.Evaluator.Evaluate` | abac/abac.go:55-69 | one of the possible decisions of the stored policies |
| `Jwt.Service.Sign` | auth/jwt/jwt.go:47-68 | signs the claims with times in whole seconds, or reports that there is no algorithm |
| `Jwt.Service.Verify` | auth/jwt/jwt.go:76-121 | the order of its checks and the error of each; nothing is changed |
| `Jwt.VerifyTokenExactly` | auth/jwt/jwt.go:76-121 | corollary: the exact interval in which any parsed token verifies, times left out included, and the error outside it |
| `Jwt.SignedTokenExactly` | auth/jwt/jwt.go:47-121 | corollary: a signed token verifies with its own claims exactly from the second it was signed in up to the second of its expiry unless revoked, and is invalid before and expired after |
| `Jwt.Service.Refresh` | auth/jwt/jwt.go:125-134 | revokes a verified token and signs its claims anew; the revocation stays when signing fails; an invalid token changes nothing |
| `Jwt.Service.Revoke` | auth/jwt/jwt.go:138-143 | adds the token to the blacklist, or reports that there is none |
| `Jwt.MemoryBlacklist.Revoke` | auth/jwt/blacklist.go:27-32 | adds just this token |
| `Jwt.MemoryBlacklist.IsRevoked` | auth/jwt/blacklist.go:35-40 | reports membership |
| `Jwt.RevokedNeverVerifies` | auth/jwt/jwt.go:100-134 | in every run a token once revoked or refreshed never verifies again |
| `Jwt.LiveTokensAreBounded` | auth/jwt/jwt.go:125-134 | in every run the unrevoked issued tokens never outnumber the direct signatures |
| `Jwt.ClaimsAreKept` | auth/jwt/jwt.go:107-133 | every issued token, refreshed however often, carries the subject, audience and custom claims of a direct signature |
| `Jwt.RefreshedTokenVerifies` | auth/jwt/jwt.go:123-134 | in any run, for any scheme, a refreshed token verifies iff it differs from the old one, was not revoked before, and has not expired |
| `Jwt.IssuedTokensAreSignatures` | auth/jwt/jwt.go:51-67 | with a deterministic scheme every issued token, refreshed however often, is the signature of the claims it parses to |
| `Jwt.RefreshWorksExactly` | auth/jwt/jwt.go:123-134 | in any run with a deterministic scheme, a refresh gives a working token iff the old token does not carry exactly the renewed claims, the token with those claims was not revoked or refreshed before, and the expiry has not come |
| `Jwt.SpentRenewalFails` | auth/jwt/jwt.go:123-134 | a run in which the refresh of a token returns a revoked one although the two share no second |
| `Jwt.RefreshWithinTheSecond` | auth/jwt/jwt.go:51-58 | corollary: two signatures of the same claims are one token iff they share the second of issue and of expiry |
| `Cors.Dedupe` | cors/cors.go:126-134 | the loop that writes into the array it reads leaves exactly the first occurrences, up to case, of the original contents in front |
| `Cors.FirstOccurrencesArePicked` | cors/cors.go:126-134 | they form a subsequence at exactly the positions that repeat nothing before them |
| `Cors.FirstOccurrencesAreComplete` | cors/cors.go:126-134 | up to case, no header is lost and none occurs twice |
| `Cors.AllowedHeaders` | cors/cors.go:122-136 | a lone star is kept, otherwise the three base headers and the configured ones without repetition; split at the separator it gives that list back if no header contains it; the configured list is unchanged |
| `Text.SplitOfJoin` | cors/cors.go:135 | splitting undoes joining where no part runs into the separator |

## Left out

- RateLimit.Bucket.Inc: for a zero window and a request no later than the bucket's start, the count is left open, because the Go code divides zero by zero and what the NaN becomes as an integer depends on the platform.
- SlidingWindow.CountOfRequest: exact rationals instead of float64, and unbounded counters.
- Otp.VerifyWithOptions: at most 9 digits, because from 10 on the power of ten does not fit the 32-bit conversion at otp/totp.go:192; skews beyond 63 bits are not modelled.
- Otp.DecodeSecretExactly: secrets with a line end or a padding character inside are decoded as the library does it, but no closed form is stated for them.
- Password.ParseEncodedHash: the scanning of fmt.Sscanf and the base64 decoder of the Go library are modelled on ASCII text only.
- Jwks.Source.KeyFunc: the HTTP request and the JSON decoder are one response value.
- ReqSign.SignedRequestIsAccepted: header names are compared as written, and a body that cannot be read is not modelled.
- ApiKey.Service.Issue: the random part is an input, so its length and alphabet are not modelled; maps and expiry times are values, so that copies share nothing.
- Jwt.Service.Verify: errors of the JWT library other than expiry and early use are one error; custom claims are values that survive encoding.
- Abac.MemoryStore.Policies: the library's stable sort is a function, and a policy store that fails is not modelled.
- Rbac.MemoryStore.UnassignRole: lists are values, so the shift inside the backing array is not visible; a role store that fails is not modelled.
- Mutexes: methods are atomic. Only the key source is modelled with interleavings; that the limiter's Inc and the key store's GetByHash release a lock halfway is not, except that EpochBound allows clock readings out of order.
- HTTP handlers, header writing, request contexts and the framework adapters: they pass a request to one of the decisions modelled here and its outcome to the client.
- Audit logging: it writes SQL and JSON through libraries and keeps no state of its own.
- Secure headers, scope parsing and the combinators of conditions: each value is set or checked by one branch that no other part of the SDK relies on.
- The password policy: separate checks of length, character classes and known words, and an entropy estimate in floating point.
- Key generation, token generation, backup codes and provisioning addresses: randomness and formatting without further state.
