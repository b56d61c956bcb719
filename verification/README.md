# Verification of the Agent Name Service core

This project models the hard core of the Agent Name Service (ANS) repository in
Dafny and proves what its components promise. Each `.dfy` file models one
component; `Prelude`, `Text`, `Radix`, `Sorting` and `Sequences` hold shared
definitions.

- **Tile walk** (`Leaves`, `TileWalk`, `TileWalkRuns`, `LiveReduction`): the
  concurrent log walk of `ans-verify list` as a step system over producer,
  workers, cancel and first-error cell, and the reduction of its matches to the
  live agents.
- **Keys and signatures** (`Base58`, `P1363`, `Jws`): base58btc and multibase,
  ECDSA signature formats, detached and standard JWS.
- **Checkpoints** (`LogNote`): the signed-note parser and checkpoint verification.
- **DNS records** (`Svcb`): printing, parsing and matching SVCB/HTTPS records.
- **Credential chains** (`AcdcScan`, `LeafFrame`): finding ACDC credentials in a
  CESR export and choosing the presented one.
- **Finder** (`Projection`, `Poller`, `RateLimiter`): projecting lifecycle events,
  the cursor protocol of the poller, the token bucket.
- **Registry domain** (`AnsName`, `Registration`, `Identity`, `IdentityLifecycle`):
  names, registration and identity aggregates.
- **Catalog documents** (`Catalog`, with the text rules of `Ard`), the identifier
  they share with the Finder (`Lineage`), and the **pinning dialer**
  (`PinningDialer`).

Code the repository takes from libraries (JSON, base64, ECDSA, ASN.1, DNS,
Unicode categories, URL policy) appears as function-valued parameters. Where a
theorem needs a law of such a function, the law is a named `Lawful` or
`CorrectSigner` predicate in its `requires`. A concurrent component is a step
system: `Enabled` and `Step` give one atomic action, and theorems range over
every run.

Results that differ from what a caller might expect:

- The tile count is computed in 64-bit arithmetic. `WalkIsSequentialScan` shows
  the walk is the sequential scan exactly up to 2^64 - 256 leaves; above, every
  walk that succeeds is empty (`HugeLogIsLost` gives a run).
- `SplitNote` cuts a note at its first blank line, while the note framing signs any
  newline-terminated body and cuts at the last one. A note therefore comes back
  whole exactly when its body has no blank line inside and no signature blob is
  empty (`NoteRoundTrip`); `BlankLineLosesText` gives a body that is cut.
- `SignDetachedJWS` signs headers that carry `crit`, and verification then
  rejects them (`SignedIsAccepted`).
- `EncodeMultibase` prints an Ed25519 key of any length, and `DecodeMultibase`
  accepts 32 bytes only (`MultibaseRoundTrip`).
- `ParseSemVer` drops the range error of `Atoi`: a component above 2^63 - 1 is read
  as 2^63 - 1. `PrintOfParse` gives the exact condition under which a parsed name
  prints back, `OverflowSaturates` the input.
- The leaf of a credential chain depends on the order of its frames as soon as two
  different frames are unreferenced, and only then (`LeafForgetsOrderExactly`, with
  an input in `TwoLeavesDisagree`).
- The feed's contract lets a page repeat events before the cursor. The poller's
  progress guard fires exactly on a page that claims more and brings nothing new
  (`StallsExactly`).
- Callers spaced 1/rate apart are all served exactly when the calls before the
  limiter's creation reading fit into the bucket and the first later call finds a
  token (`SpacedCallersServed`); with a bucket below one token nobody is ever
  served (`SmallBucketStarves`).
- The did:web values `host` and `host:.well-known` resolve to one URL, and no
  other two canonical values do (`UrlsCollideOnlyAtWellKnown`).
- `StageSubjectAID` succeeds on a revoked identity; the staged value is the only
  thing that can still change there (`SoundRun`).
- Different entries with equal identifier and version keep their input order in a
  host document (`TiesKeepInputOrder`), so determinism needs distinct names.
- Pins are kept per host text: spellings of one name that differ in case can hold
  two pins (`OneAddressPerHost` speaks of host texts).

## Model

| member | source | states |
|---|---|---|
| Leaves.ProviderMatchesLabels | cmd/ans-verify/walk.go:71-81 | a host passes the provider filter exactly when the suffix's DNS labels end the host's labels |
| Leaves.ScanExact | cmd/ans-verify/walk.go:270-294 | the sequential scan reports exactly the picked leaves, each under its own index, in strictly increasing index order |
| TileWalk.ClampConcurrency | cmd/ans-verify/walk.go:300-312 | the worker count is always between 1 and 64; zero selects 8, a value in range is kept, below it is 1 and above it 64 |
| TileWalk.ScanTile | cmd/ans-verify/walk.go:275-292 | the inner loop over one tile's entries is the scan numbered from the tile's base |
| TileWalk.MergeTiles | cmd/ans-verify/walk.go:270-294 | the loop over slots computes `Merge`: the first failed slot's error, or all matches in tile order |
| TileWalk.FirstFailureWins | cmd/ans-verify/walk.go:271-274 | once a prefix of the slots fails, later slots do not change the error |
| TileWalk.TilesCoverLog | cmd/ans-verify/walk.go:169-170 | the tiles cover the log exactly when treeSize is at most 2^64 - 256; above, the count is zero |
| TileWalk.MergeIsScan | cmd/ans-verify/walk.go:270-294 | full-size tiles concatenate to treeSize leaves and merging them is one sequential scan from index 0 |
| TileWalkRuns.PlacesStep | cmd/ans-verify/walk.go:198-257 | every action keeps each sent tile in exactly one place: queue, worker, drained, or requested |
| TileWalkRuns.InvStep | cmd/ans-verify/walk.go:157-295 | every action of every goroutine keeps the invariant: tiles conserved, slots explained by a worker or an error, workers gone only after the channel closed, the result explained by its cause |
| TileWalkRuns.SuccessMeansAllTiles | cmd/ans-verify/walk.go:257-268 | a walk that returns no error requested every tile exactly once and holds full-size entries for all of them |
| TileWalkRuns.WalkIsSequentialScan | cmd/ans-verify/walk.go:157-295 | for every interleaving with failures and cancellation, a result without error is the sequential scan of treeSize leaves if and only if treeSize is at most 2^64 - 256; otherwise it is empty |
| TileWalkRuns.HonestWalkScansLog | cmd/ans-verify/walk.go:157-295 | when delivered bundles of the right size are the log's tiles, a result without error is the scan of the log itself |
| TileWalkRuns.ProviderWalk | cmd/ans-verify/walk.go:71-295 | end to end: a success against an honest log reports a leaf if and only if its bytes decode to an agent event whose host's labels end in the provider's labels, under its own index and with its own identity |
| TileWalkRuns.WalkSucceedsIffClean | cmd/ans-verify/walk.go:184-268 | a finished walk returns no error if and only if no bundle failed and the caller did not cancel before the last check |
| TileWalkRuns.FirstErrorSticks | cmd/ans-verify/walk.go:184-196 | in every run the first-error cell holds the error whose recording came first, computed from the actions alone, and never changes once set |
| TileWalkRuns.RootCauseIsReported | cmd/ans-verify/walk.go:184-268 | a finished walk reports exactly the error recorded first in the run, whatever failed after it; without any it succeeds or reports the caller's cancellation |
| TileWalkRuns.CancelStopsRequests | cmd/ans-verify/walk.go:200-256 | after a cancellation no run starts another request, and the producer may close at once |
| TileWalkRuns.EmptyLogIsDone | cmd/ans-verify/walk.go:164-166 | an empty log ends the walk before any action, without an error |
| TileWalkRuns.NeverStuck | cmd/ans-verify/walk.go:198-258 | no deadlock: in every reachable unfinished state the producer, a worker or the final checks can act without a cancellation; where that action is a request coming back, any answer is accepted |
| TileWalkRuns.RunsAreBounded | cmd/ans-verify/walk.go:198-258 | every action strictly lowers a bound on the remaining actions |
| TileWalkRuns.WalkTerminates | cmd/ans-verify/walk.go:157-295 | every run has at most 6 actions per tile, plus one per worker, plus 5 |
| TileWalkRuns.HugeLogIsLost | cmd/ans-verify/walk.go:169-170 | above 2^64 - 256 leaves, for every number of workers, there is a run with no failure that returns an empty list and requests nothing |
| LiveReduction.ReplayMembers | cmd/ans-verify/walk.go:314-343 | replaying the log leaf by leaf keeps exactly the unnamed leaves and the non-terminal latest leaf of each name, in index order |
| LiveReduction.ReplayForgetsOrder | cmd/ans-verify/walk.go:323-343 | sorting first makes the replay independent of the order of the matches |
| LiveReduction.CollectLatest | cmd/ans-verify/walk.go:324-334 | the first loop leaves, per name, the latest match, the first in input order among equal indices, and every unnamed match in the list |
| LiveReduction.AppendLive | cmd/ans-verify/walk.go:335-340 | in whatever order the map is visited, exactly the non-terminal latest matches are added, none twice |
| LiveReduction.ReduceToLive | cmd/ans-verify/walk.go:323-343 | for distinct leaf indices the result is the replay of the log in index order; in any case it is sorted, live, and keeps unnamed matches |
| LiveReduction.ScanIsReplayed | cmd/ans-verify/walk.go:270-343 | the walk's matches have distinct indices in log order, so reducing them is replaying the scanned log leaf by leaf |
| Base58.ConvertBack | internal/crypto/jwk.go:308-347 | radix conversion with leading-zero bookkeeping is undone by converting back |
| Base58.DecodeOfEncode | internal/crypto/jwk.go:308-347 | decoding undoes encoding on every non-empty byte string; the empty string encodes to the text the decoder rejects |
| Base58.EncodeOfDecode | internal/crypto/jwk.go:308-347 | a text decodes exactly when it is non-empty and over the alphabet, and encoding then gives the text back |
| Base58.EncodeNumber | internal/crypto/jwk.go:335-342 | the divide loop yields the number's base-58 digits, most significant first |
| Base58.PrependOnes | internal/crypto/jwk.go:343-346 | one '1' is put in front for each leading zero byte |
| Base58.Base58Encode | internal/crypto/jwk.go:334-347 | the loops together compute `Encode` |
| Base58.DecodeNumber | internal/crypto/jwk.go:312-321 | the multiply-and-add loop yields the text's base-58 value, or fails at a character outside the alphabet |
| Base58.PrependZeros | internal/crypto/jwk.go:322-330 | one zero byte is put in front for each leading '1' |
| Base58.Base58Decode | internal/crypto/jwk.go:308-331 | the loops together compute `Decode`, the error cases included |
| Base58.KnownTexts | internal/crypto/jwk.go:334-347 | two known encodings fix digit order, alphabet and leading zeros |
| Multibase.MultibaseRoundTrip | internal/crypto/jwk.go:208-285 | decoding undoes encoding of a public key, except for an Ed25519 key that is not 32 bytes |
| Multibase.MultibaseCanonical | internal/crypto/jwk.go:208-285 | encoding undoes decoding: a key has one multibase text |
| Multibase.MultibaseExactly | internal/crypto/jwk.go:208-256 | a text decodes to a key exactly when it is z and the base58 of the code ed01 and 32 bytes, or of 8024 and a compressed point that decompresses |
| P1363.CopyRight | internal/crypto/p1363.go:56-59 | a scalar is copied right-aligned into its half and nothing else is touched |
| P1363.DerToP1363InPlace | internal/crypto/p1363.go:36-60 | filling the preallocated buffer gives the two fixed-width halves, the error cases included |
| P1363.DerScalarsSurvive | internal/crypto/p1363.go:36-94 | conversion succeeds exactly for a positive width, a DER value without trailing bytes and two positive scalars that fit; then r and s are recovered exactly |
| P1363.P1363Survives | internal/crypto/p1363.go:36-78 | converting a fixed-width signature to DER and back gives the same bytes |
| Jws.FindDots | internal/crypto/jws.go:381-455 | the scan finds the two dots of a three-segment string and reports a third one exactly when there are more segments |
| Jws.SplitDetachedScan | internal/crypto/jws.go:427-455 | the dot scan computes the detached split, error cases included |
| Jws.SplitStandardScan | internal/crypto/jws.go:381-410 | the dot scan computes the standard split, error cases included |
| Jws.DetachedExactly | internal/crypto/jws.go:427-455 | the splitter returns (h, g) exactly for h..g with h and g non-empty and dot-free |
| Jws.StandardExactly | internal/crypto/jws.go:381-410 | the splitter returns (h, p, g) exactly for h.p.g with the three parts non-empty and dot-free |
| Jws.FormsAreDisjoint | internal/crypto/jws.go:381-455 | no string is accepted by both splitters; one of them accepts exactly the three-segment strings with non-empty ends |
| Jws.WireSignatureVerifies | internal/crypto/jws.go:479-542 | a signature brought into wire format verifies under the signer's key, for ECDSA and RSA |
| Jws.SignedIsAccepted | internal/crypto/jws.go:91-140 | what SignDetachedJWS returns splits back into its header and is accepted for every payload with the same canonical form exactly when the header has no crit; the header comes back as sent |
| Jws.StandardIsAccepted | internal/crypto/jws.go:150-377 | what SignStandardJWS returns is accepted under the signing key exactly when the header has no crit, keeps a key id the caller set, and carries the canonical payload in its own segment; it is never a detached JWS |
| Jws.DetachedAcceptedExactly | internal/crypto/jws.go:292-519 | verification returns header h exactly for two non-empty segments around an empty one, the first encoding h without crit, h naming the key's algorithm, a payload that canonicalizes, and a signature the key's scheme accepts over header and canonical payload |
| Jws.StandardAcceptedExactly | internal/crypto/jws.go:317-410 | the same for the standard form, over its own payload segment |
| Jws.SignsExactly | internal/crypto/jws.go:91-208 | either form is signed exactly for a known supported key, no algorithm or the key's own, a canonicalizable payload, a header that marshals, and a signature that has a wire form |
| LogNote.SplitNoteScan | internal/lognote/lognote.go:158-177 | the line loop computes `SplitNote`; without a separator the whole input is the body |
| LogNote.SignatureLineRoundTrip | internal/lognote/lognote.go:184-200 | a printed signature line is read back exactly when its blob is non-empty |
| LogNote.SplitOfPrint | internal/lognote/lognote.go:158-177 | for any newline-terminated body and any lines after it, splitting gives back the body and the signatures of the well-formed lines exactly when the body has no blank line inside |
| LogNote.NoteRoundTrip | internal/lognote/lognote.go:158-200 | splitting undoes printing (same body, same signatures, same order) exactly when the body has no blank line inside and no blob is empty |
| LogNote.BrokenBodyIsCut | internal/lognote/lognote.go:159 | a body with a blank line inside comes back as a proper prefix of itself |
| LogNote.BlankLineLosesText | internal/lognote/lognote.go:159 | the body of two paragraphs "a" and "b" comes back as the first alone |
| LogNote.CheckpointRoundTrip | internal/lognote/lognote.go:276-294 | a printed checkpoint body, extension lines included, parses to the same origin, size and root |
| LogNote.KeyHashHexFaithful | internal/lognote/lognote.go:92-109 | two signatures have the same key-hash text exactly when their first four blob bytes agree |
| LogNote.AnyClears | internal/lognote/lognote.go:248-268 | the loop succeeds exactly when some line has a known key hash and verifies |
| LogNote.VerifyCheckpointNote | internal/lognote/lognote.go:235-269 | succeeds exactly when the body parses and some line verifies over that body; size and root come from the same bytes |
| LogNote.AnyGoodLineSuffices | internal/lognote/lognote.go:235-294 | a printed checkpoint under arbitrary signature lines is authentic exactly when one line is good, and yields the printed checkpoint |
| LogNote.SignatureLineExactly | internal/lognote/lognote.go:184-200 | a line is a signature exactly when, trimmed, it is the dash, a name, a space and space-free base64 that decodes to the blob |
| LogNote.SplitNoteExactly | internal/lognote/lognote.go:158-177 | for every input: the body is the text up to the first blank line and the signatures are those of the well-formed lines after it |
| LogNote.CheckpointExactly | internal/lognote/lognote.go:276-294 | a body parses exactly when it has at least three lines, a decimal size below 2^64 and a base64 root |
| LogNote.KeyHashHexDenotes | internal/lognote/lognote.go:92-109 | the key-hash text is eight lower-case hex digits that denote the big-endian number of the first four blob bytes |
| LogNote.GateExactly | internal/lognote/lognote.go:248-320 | a line clears the gate exactly when its key hash is known and the rest of the blob is a DER signature of the body, or two coordinate-wide non-zero scalars, that verify under that key |
| Svcb.CollectParams | internal/adapter/dns/lookup.go:423-432 | the loop over the parameter fields builds the key/value map, later keys winning |
| Svcb.ParseSvcbValue | internal/adapter/dns/lookup.go:409-434 | the parser computes `Parse`, with its two error cases |
| Svcb.ParsesExactly | internal/adapter/dns/lookup.go:409-434 | a value parses exactly when it has two fields and the first is a number |
| Svcb.ParamsExactly | internal/adapter/dns/lookup.go:423-432 | a key has a value exactly when the last field that names the key gives it |
| Svcb.FieldSays | internal/adapter/dns/lookup.go:423-432 | a field is key=value, split at its first equals sign, or a bare key with an empty value |
| Svcb.AtoiExactly | internal/adapter/dns/lookup.go:414-417 | a number is an optional sign and decimal digits within 64 bits |
| Svcb.FormatParses | internal/adapter/dns/lookup.go:326-333 | every live record with white-space-free fields and distinct '='-free keys prints to a value that parses back to the same content |
| Svcb.SplitAlpnScan | internal/adapter/dns/lookup.go:506-524 | the start/i scan computes the alpn segments |
| Svcb.AlpnJoin | internal/adapter/dns/lookup.go:506-524 | joining the segments with commas gives the input back |
| Svcb.AlpnSegmentsStand | internal/adapter/dns/lookup.go:506-524 | splitting a segment again yields just that segment |
| Svcb.AlpnSegmentCount | internal/adapter/dns/lookup.go:506-524 | there is one more segment than commas behind an even run of backslashes |
| Svcb.LiveRecordMatches | internal/adapter/dns/lookup.go:448-541 | format, parse and match accept a live record exactly when the priority is equal, the targets name one host ("." standing for the owner in service mode) and every expected parameter is advertised (alpn by id subset, others by equality) |
| Svcb.MatchReflexive | internal/adapter/dns/lookup.go:448-489 | every record matches itself |
| Svcb.MatchTransitive | internal/adapter/dns/lookup.go:448-489 | matching is transitive for a fixed owner |
| Svcb.ExtraParamsKeepMatch | internal/adapter/dns/lookup.go:448-464 | extra parameters never break a match |
| Svcb.DotIsOwner | internal/adapter/dns/lookup.go:536-541 | in service mode the target "." and the owner name match each other; in alias mode only for the root owner |
| Svcb.CanonicalNamesAgree | internal/adapter/dns/lookup.go:536-541 | canonical names are equal exactly when the names agree up to ASCII case and a final unescaped dot |
| Svcb.FqdnExactly | internal/adapter/dns/lookup.go:536-541 | a final dot is dropped exactly when an even number of backslashes stands before it |
| RateLimiter.Limiter.Request | internal/finder/handler/ratelimit.go:56-77 | one call refills, grants and pays as `Allow` and `Grants` say, the disabled limiter included |
| RateLimiter.WindowBudget | internal/finder/handler/ratelimit.go:56-77 | grants plus the tokens left are at most the tokens before plus the refill of the clock's advance |
| RateLimiter.WindowBound | internal/finder/handler/ratelimit.go:34-77 | for any clock readings, any window grants at most burst + rate times the advance of the latest reading, and tokens stay within [0, burst] |
| RateLimiter.TokensAreConserved | internal/finder/handler/ratelimit.go:34-77 | over any readings, tokens left plus grants plus overflow equal the tokens before plus what the clock earned: no refusal costs a token |
| RateLimiter.WaitingPays | internal/finder/handler/ratelimit.go:56-77 | once tokens and earnings since the last grant reach one, the next call is granted, however many refused calls lie between |
| RateLimiter.PollingIsServed | internal/finder/handler/ratelimit.go:56-77 | a caller refused at 0.5 s is served at 1 s |
| RateLimiter.DisabledGrantsAll | internal/finder/handler/ratelimit.go:34-61 | a limiter without rate or burst grants every call |
| RateLimiter.SpacedCallersServed | internal/finder/handler/ratelimit.go:34-77 | calls spaced 1/rate apart are all granted exactly when the calls before creation fit and the first later one finds a token; without early calls, exactly when burst is at least 1 |
| RateLimiter.SmallBucketStarves | internal/finder/handler/ratelimit.go:56-77 | with burst below one token no call is ever granted |
| RateLimiter.StalledClock | internal/finder/handler/ratelimit.go:63-71 | while the clock does not pass the last reading, all calls are granted exactly when the tokens at hand suffice |
| RateLimiter.SpacingBeforeCreationFails | internal/finder/handler/ratelimit.go:63-71 | two calls spaced one second apart before the creation reading of a 1/s limiter with burst 1 are not both granted |
| PinningDialer.FirstPermitted | internal/adapter/didresolver/web.go:286-308 | the chosen address is the first answer that is public or allowed; none is chosen exactly when no answer is |
| PinningDialer.ChooseAddress | internal/adapter/didresolver/web.go:286-308 | the loop over the answers finds the first permitted one |
| PinningDialer.PinTable.Pin | internal/adapter/didresolver/web.go:286-308 | a host is pinned once; the call returns the address that stands |
| PinningDialer.PinTable.DialContext | internal/adapter/didresolver/web.go:253-308 | a whole call, beside any earlier dials, is a run of the step system, and the address it returns is the one its dial ends connected to; otherwise the dial ends refused |
| PinningDialer.PinnedStep | internal/adapter/didresolver/web.go:253-308 | every action keeps pins permitted, dials on their pins, and set pins unchanged |
| PinningDialer.OneAddressPerHost | internal/adapter/didresolver/web.go:246-325 | under every interleaving and any DNS answers, all dials to a host text go to port 443 of one address, which never changes and is public unless private networks are allowed |
| Registration.NewRegistration | internal/domain/agent.go:104-174 | an object is created exactly when no check of the request fails, and otherwise the first failing check is reported |
| Registration.FirstFailedCheckRefuses | internal/domain/agent.go:104-174 | a request is accepted exactly when its nine checks pass, and refused with the code of the first that fails |
| Registration.AgentRegistration.TransitionTo | internal/domain/agent.go:375-381 | moves along the transition table or leaves the status alone with an error |
| Registration.AgentRegistration.Activate | internal/domain/agent.go:209-220 | succeeds exactly from a pending status, both of them; then the agent is ACTIVE with one more event; a failed call changes nothing |
| Registration.AgentRegistration.AdvanceToPendingDns | internal/domain/agent.go:238-240 | succeeds exactly from PENDING_VALIDATION, raises no event; a failed call changes nothing |
| Registration.AgentRegistration.Deprecate | internal/domain/agent.go:243-249 | succeeds exactly from ACTIVE and raises the event naming the successor; a failed call changes nothing |
| Registration.AgentRegistration.Revoke | internal/domain/agent.go:264-279 | succeeds exactly for a known reason on an ACTIVE or DEPRECATED agent, reports the three refusals in the source's order; a failed call changes nothing |
| Registration.AgentRegistration.Cancel | internal/domain/agent.go:291-310 | succeeds exactly while pending, unless validation and order are both still pending; the event carries cessation of operation; a failed call changes nothing |
| Registration.AgentRegistration.CancelForHostConflict | internal/domain/agent.go:320-329 | succeeds exactly while pending and raises no event; a failed call changes nothing |
| Registration.AgentRegistration.Fail | internal/domain/agent.go:332-341 | succeeds exactly while pending, then FAILED; a failed call changes nothing |
| Registration.AgentRegistration.Expire | internal/domain/agent.go:344-353 | succeeds exactly while pending, then EXPIRED; a failed call changes nothing |
| Registration.AgentRegistration.SubmitIdentityCsr | internal/domain/agent.go:184-194 | replaces the identity CSR exactly while ACTIVE; a failed call changes nothing |
| Registration.AgentRegistration.SubmitServerCsr | internal/domain/agent.go:202-206 | replaces the server CSR in every status and nothing else |
| Registration.AgentRegistration.MarkIssuing | internal/domain/order.go:235-247 | succeeds exactly on a pending or issuing order, touches only the order |
| Registration.AgentRegistration.MarkCompleted | internal/domain/order.go:252-261 | succeeds exactly on a pending or issuing order, touches only the order |
| Registration.AgentRegistration.MarkFailed | internal/domain/order.go:267-276 | succeeds exactly on a pending or issuing order, touches only the order |
| Registration.StatusChangesDescend | internal/domain/status.go:62-91 | every status change lies in the transition table or is Activate's fast track, leaves no terminal state and strictly lowers a rank |
| Registration.FewStatusChanges | internal/domain/agent.go:104-385 | over any run the number of status changes is at most the rank lost, and terminal states absorb |
| Registration.CallsSucceedExactly | internal/domain/agent.go:184-353 | for each of the calls, the statuses, order states and reasons it succeeds on |
| Registration.RefusalsNameTheirCause | internal/domain/agent.go:184-353 | the code each refused call returns |
| Registration.StatusTellsHistory | internal/domain/agent.go:104-385 | over any run, FAILED, EXPIRED and REVOKED hold exactly when a call for them succeeded, and every other new status was reached by its own call |
| Registration.OrderTellsHistory | internal/domain/order.go:235-276 | over any run the order is COMPLETED or FAILED exactly when it was or when that call succeeded |
| Registration.CsrsAreTheLatest | internal/domain/agent.go:184-206 | over any run each CSR is the one submitted last |
| Registration.TrailFitsStep | internal/domain/agent.go:209-385 | every call keeps the trail of cleared and pending events among those its status allows, all about this agent |
| Registration.TrailFollowsStatus | internal/domain/agent.go:104-385 | over every run of calls and ClearEvents the event trail is fixed by the status, up to the four ways of being revoked |
| Registration.OrderAndCancelAreStable | internal/domain/order.go:231-276 | finished certificate orders never change, and a registration that could be cancelled stays cancellable while pending |
| Identifier.InferredParts | internal/domain/identity.go:198-244 | an accepted did:web value canonicalizes to the print of a valid lower-case host and valid path segments |
| Identifier.CanonicalIsFixed | internal/domain/identity.go:134-244 | a canonical value infers to the same kind and to itself, for all three kinds |
| Identifier.DidWebExactly | internal/domain/identity.go:134-275 | a value is a did:web identifier exactly when it is the prefix, a host that lower-cases to a DNS name, and valid path segments; the canonical form lower-cases the host alone |
| Identifier.DnsNameExactly | internal/domain/identity.go:248-275 | a host is valid exactly as 1 to 253 characters of LDH labels of 1 to 63 |
| Identifier.OtherKindsExactly | internal/domain/identity.go:134-194 | did:key and LEI: exactly which texts are accepted and their canonical form |
| Identifier.UrlOfParts | internal/domain/identity.go:281-294 | the resolution URL of host and path, well-known for an empty path |
| Identifier.UrlsCollideOnlyAtWellKnown | internal/domain/identity.go:281-294 | two canonical did:web values have the same resolution URL exactly when they are equal or are host and host:.well-known |
| IdentityLifecycle.VerifiedIdentity.IssueChallenge | internal/domain/identity.go:327-344 | a fresh challenge replaces the old one, for a nonce, a positive lifetime and an identity that is not revoked; a failed call changes nothing |
| IdentityLifecycle.VerifiedIdentity.CheckChallenge | internal/domain/identity.go:350-364 | passes exactly for an unconsumed challenge that has not expired |
| IdentityLifecycle.VerifiedIdentity.StageRotation | internal/domain/identity.go:380-396 | stages the canonical form of a same-kind value exactly while VERIFIED and leaves the proven value alone; a failed call changes nothing |
| IdentityLifecycle.VerifiedIdentity.StageSubjectAid | internal/domain/identity.go:412-419 | stages any non-empty subject and leaves the proven one alone |
| IdentityLifecycle.VerifiedIdentity.CompleteVerification | internal/domain/identity.go:432-458 | promotes staged value and subject, clears the staging, sets the kind's proof method, and returns the old value exactly when it was replaced; a revoked identity is unchanged |
| IdentityLifecycle.VerifiedIdentity.Revoke | internal/domain/identity.go:465-476 | succeeds exactly while VERIFIED and clears staging and challenge; a failed call changes nothing |
| IdentityLifecycle.SoundStep | internal/domain/identity.go:300-476 | every call keeps the identity sound; the value changes only by completing a verification, to the staged value |
| IdentityLifecycle.SoundRun | internal/domain/identity.go:300-476 | over every run the kind never changes, value and staged value stay canonical, staging needs VERIFIED, the proof method is empty exactly while control is pending, and REVOKED absorbs with no challenge |
| IdentityLifecycle.NewIdentityIsSound | internal/domain/identity.go:300-320 | every identity that is created starts sound |
| IdentityLifecycle.NewIdentityExactly | internal/domain/identity.go:300-320 | an identity is created exactly for two ids and a text that infers, and starts unproven with the canonical value |
| IdentityLifecycle.CallsSucceedExactly | internal/domain/identity.go:327-476 | for each call, when it succeeds |
| IdentityLifecycle.RefusalsNameTheirCause | internal/domain/identity.go:327-476 | the code each refused call returns |
| IdentityLifecycle.RotationIsPromoted | internal/domain/identity.go:380-458 | a staged rotation becomes the value with the next completed proof, whatever challenges and signers come between |
| IdentityLifecycle.SubjectIsPromoted | internal/domain/identity.go:412-458 | a staged signer becomes the proven one with the next completed proof |
| IdentityLifecycle.ChallengeIsIssued | internal/domain/identity.go:327-344 | an issued challenge stands, with its nonce and expiry, until another is issued or the identity is revoked |
| IdentityLifecycle.NothingChangesUntilProven | internal/domain/identity.go:376-458 | staging and challenges never change the verified value, subject, method or status before completion |
| AnsName.FindThirdDot | internal/domain/ansname.go:38-93 | the dot-counting loop finds the third dot, which ends the version |
| AnsName.NewNameIsFixed | internal/domain/ansname.go:29-35 | the host stored in a name is valid, and rebuilding the name from it changes nothing |
| AnsName.HostAcceptedExactly | internal/domain/ansname.go:29-170 | a host is accepted exactly when, trimmed and lower-cased, it is two or more LDH labels of at most 253 characters in all and not an IPv4 address |
| AnsName.NewSemVerExactly | internal/domain/semver.go:21-60 | a version is built exactly from three non-negative components, and its text parses back to the same three numbers |
| AnsName.SemVerRoundTrip | internal/domain/semver.go:32-60 | parsing undoes printing for every version |
| AnsName.NameRoundTrip | internal/domain/ansname.go:29-113 | parsing undoes printing for every name NewAnsName builds |
| AnsName.PrintOfParse | internal/domain/ansname.go:38-113 | printing undoes parsing exactly when the text and its host carry no outer white space, the host is lower-case, and every component is at most 2^63 - 1 |
| AnsName.OverflowSaturates | internal/domain/semver.go:41-43 | version 9223372036854775808.0.0 parses to 9223372036854775807.0.0, so that name does not print back and two names parse to one |
| AnsName.NamesPrintUniquely | internal/domain/ansname.go:111-113 | names print to the same text exactly when they are equal |
| AnsName.VersionsPrintUniquely | internal/domain/semver.go:58-60 | versions print to the same text exactly when they are equal |
| Catalog.CollectEligible | internal/catalog/generate.go:197-219 | the loop keeps the eligible endpoints in their order |
| Catalog.EligibleAreChecked | internal/catalog/generate.go:197-219 | an endpoint is kept exactly when it is listed and passes the protocol and URL checks |
| Catalog.EntryIsWellFormed | internal/catalog/generate.go:80-184 | an entry carries a URL or at least two children, never both; every URL passed the policy; the manifest names the entry; the agent is active |
| Catalog.EntryExactly | internal/catalog/generate.go:80-125 | a registration gets an entry exactly with a version, active, with a label and an eligible endpoint; otherwise the first missing one is reported |
| Catalog.EntryCarries | internal/catalog/generate.go:80-320 | the entry carries the sanitized texts, one artifact per eligible endpoint in order, children named after entry and protocol, and the log's links exactly when a log is configured |
| Catalog.EntryIsClean | internal/catalog/sanitize.go:21-68 | no text, tag or artifact URL of an entry or of its children carries a control or format character; badge and receipt URLs do not when the configured base and the agent id do not |
| Catalog.BuildHostDocumentLoop | internal/catalog/document.go:39-61 | the loop skips registrations without an entry and sorts the rest |
| Catalog.NoTies | internal/catalog/document.go:67-74 | registrations with distinct names on one host never tie in the document's order |
| Catalog.DocumentForgetsOrder | internal/catalog/document.go:39-74 | such registrations give the same document in every order |
| Catalog.DocumentIsSorted | internal/catalog/document.go:67-74 | entries stand in order of identifier, then of version |
| Catalog.TiesKeepInputOrder | internal/catalog/document.go:67-74 | a list of entries sorts alike in all its orders exactly when no two different entries share identifier and version |
| Projection.DedupSortCap | internal/finder/project/project.go:381-403 | the seen-map loop, sort and cut compute `LeastList` |
| Projection.LeastListIsLeast | internal/finder/project/project.go:357-403 | capability and tag lists are the least `limit` distinct non-empty sanitized values, and depend only on that set of values |
| Projection.LeastOfUnique | internal/finder/project/project.go:381-403 | a set has only one list of its least `limit` members |
| Projection.ProjectEndpoints | internal/finder/project/project.go:151-197 | the endpoint loop collects entries and skips in endpoint order |
| Projection.RetirementAlwaysTombstones | internal/finder/project/project.go:90-145 | a revoked or deprecated event succeeds exactly when its identity keys are valid, and then yields exactly one tombstone with the event's keys, its lifecycle and no other content, whatever its other fields |
| Projection.EventErrorsExactly | internal/finder/project/project.go:90-114 | an event is an error exactly when its identity keys are invalid or an active event lacks its version; a missing host is already a bad key |
| Projection.EventsAcceptedExactly | internal/finder/feed/feed.go:176-263 | an event is projected exactly when it has a log id, a UUID, a timestamp, a name that parses and names the event's host, and, if it publishes, a version |
| Projection.UuidExactly | internal/finder/feed/feed.go:238-263 | a UUID is five groups of 8, 4, 4, 4 and 12 hex digits with hyphens between |
| Projection.WholeEventSkips | internal/finder/project/project.go:90-165 | an unknown event type and a label that does not mint each leave no entry and exactly their own skip |
| Projection.ActivePartitionsEndpoints | internal/finder/project/project.go:151-261 | for a valid active event whose label mints, the entries, ordered by media type and URL, correspond one to one to the publishable endpoints, the skips one to one and in order to those with a bad URL or an unknown token, and the rest is HTTP-API |
| Text.StringLeExactly | internal/finder/project/project.go:410-421 | the order of texts: a beginning comes first, otherwise the first different character decides |
| Projection.ProjectionIsClean | internal/finder/project/sanitize.go:35-56 | no identifier, text, URL, capability or tag of a projected entry, tombstones included, carries a control or format character |
| Lineage.OneIdentifier | internal/ard/urn.go:19-57 | whatever the Finder projects from an event of an agent carries the identifier of the agent's catalog entry |
| Ard.UrnsSeparateAgents | internal/ard/urn.go:38-57 | two URNs are equal exactly when hosts, up to case, and labels are |
| Ard.LabelOfWords | internal/ard/urn.go:51-57 | the label of words with spaces between them is the same words with hyphens between |
| Projection.EndpointCases | internal/finder/project/project.go:220-314 | an entry exactly for A2A or MCP with a valid candidate URL, an invalid-URL skip exactly for A2A or MCP without one, an unknown-protocol skip exactly for an unknown token, nothing exactly for HTTP-API, never both; the entry carries the protocol's media type, the declared URL or the well-known one, the event's keys and sanitized texts, and the least capabilities and tags of its functions |
| Poller.InvStep | internal/finder/poller/poller.go:119-307 | every action, failure and restart keeps the cursor naming the end of an applied prefix, never moves it back, and loses no recorded batch |
| Poller.CursorIsSafe | internal/finder/poller/poller.go:119-214 | in every run the saved cursor names the end of a feed prefix that was projected without error and applied page by page in feed order, every entry at least once; no step of the run moved the cursor back |
| Poller.StallsExactly | internal/finder/poller/poller.go:159-170 | the progress guard fires exactly when a page claims more but ends where the cursor already is |
| Poller.NoRewind | internal/finder/poller/poller.go:299-307 | an empty page keeps the cursor, and saving a page never moves it back |
| Poller.RoundTerminates | internal/finder/poller/poller.go:119-214 | over a feed that stops growing every long enough run of a round reaches its end |
| Poller.Process.RecordFailureAt | internal/finder/poller/poller.go:221-234 | failures at one cursor are counted and escalate exactly at the threshold |
| Poller.Process.ProjectPage | internal/finder/poller/poller.go:273-290 | all entries of the page in order, or nothing when one event is malformed |
| Poller.Process.TakePage | internal/finder/poller/poller.go:147-200 | apply, progress guard, save and their failures are a run of the step system; the loop continues only past new events, and a page nothing fails on is saved |
| Poller.Process.RunOnce | internal/finder/poller/poller.go:119-214 | against a client that answers every cursor without a gap, one round terminates and, whatever fails, is a run of the step system that ends idle; when nothing fails it ends with the cursor behind the feed's last event and the failure streak cleared |
| Poller.WedgeIsCounted | internal/finder/poller/poller.go:221-234 | n rounds stuck on a malformed page raise the streak by n and change nothing else |
| Poller.RetirementsReachTheIndex | internal/finder/poller/poller.go:119-290 | every retirement before the saved cursor has its own tombstone in a recorded batch |
| Poller.ActiveEntriesReachTheIndex | internal/finder/poller/poller.go:119-290 | every publishable endpoint of every active event before the saved cursor has its own entry in a recorded batch |
| Poller.RecordedStandsForEvent | internal/finder/poller/poller.go:119-290 | whatever is recorded, in any run with failures and restarts, is the tombstone of a retirement of the feed or the entry of a publishable endpoint of an active event |
| Poller.WedgeStep | internal/finder/poller/poller.go:119-240 | which actions raise the failure streak, which clear it, and that no other touches it |
| AcdcScan.BalancedJsonObject | internal/adapter/leiverifier/verifier.go:509-534 | the depth/string/escape loop returns the text up to where the automaton stops, or nothing and the end |
| AcdcScan.StopsAtObject | internal/adapter/leiverifier/verifier.go:509-534 | on any printed JSON object, with any nesting, white space, strings and escapes, the automaton stops exactly at its closing brace |
| AcdcScan.ScanChain | internal/adapter/leiverifier/verifier.go:408-434 | the offset loop visits the objects of `ScanObjects` in order, keeps those that decode, and terminates |
| AcdcScan.MarkerAtCredential | internal/adapter/leiverifier/verifier.go:375-382 | every printed object whose first member is a version string starting with ACDC begins with the frame marker |
| AcdcScan.MarkerDoesNotStraddle | internal/adapter/leiverifier/verifier.go:382 | a marker that begins in one text cannot need the brace that opens the next |
| AcdcScan.MarkerExactly | internal/adapter/leiverifier/verifier.go:382 | a marker is exactly a brace, the key v, a colon and a value beginning with ACDC, with white space between |
| AcdcScan.ScanFindsCredentials | internal/adapter/leiverifier/verifier.go:408-534 | for printed credentials separated by marker-free text the scan visits exactly those credentials, in order |
| LeafFrame.EdgeNodesExactly | internal/adapter/leiverifier/verifier.go:473-503 | the collected SAIDs are exactly the non-empty `n` texts reachable within the depth limit |
| LeafFrame.LeafLoop | internal/adapter/leiverifier/verifier.go:446-454 | the loop returns the first unreferenced frame |
| LeafFrame.LeafIsUnreferenced | internal/adapter/leiverifier/verifier.go:446-454 | a found leaf is a frame nobody references; none is found only when all are referenced |
| LeafFrame.AcyclicHasLeaf | internal/adapter/leiverifier/verifier.go:436-454 | every non-empty acyclic chain has a leaf and it is found |
| LeafFrame.LeafForgetsOrder | internal/adapter/leiverifier/verifier.go:436-454 | with one unreferenced frame every permutation of the frames gives the same leaf |
| LeafFrame.LeafForgetsOrderExactly | internal/adapter/leiverifier/verifier.go:436-454 | all orders of the frames give the same leaf if and only if no two different frames are unreferenced |
| LeafFrame.TwoLeavesDisagree | internal/adapter/leiverifier/verifier.go:446-454 | two credentials that do not mention each other: either order presents its first |
| LeafFrame.PresentedCredentialSaid | internal/adapter/leiverifier/verifier.go:459-465 | scan and leaf search together compute `PresentedSaid`, empty when there is no leaf |
| LeafFrame.PresentedIsUnreferenced | internal/adapter/leiverifier/verifier.go:408-503 | the SAID presented is that of a credential of the export no credential mentions within 64 steps; nothing is presented exactly when every credential is mentioned, so never for a non-empty export without cycles |
| LeafFrame.PresentationForgetsOrder | internal/adapter/leiverifier/verifier.go:408-465 | two exports with the same credentials in different orders, and any attachments, present the same SAID |

## Left out

- The service layer, stores, HTTP handlers, CLI mains, ACME, key manager and OIDC
  code: plumbing around the modelled logic.
- Receipt and badge verification, renewal status, the pageToken codec and version
  ranges: they would only add easier members.
- JSON, base64, ASN.1, ECDSA, RSA, Ed25519, SHA-256, X.509, point compression,
  DNS, `url.Parse`, the public suffix list and Unicode tables: parameters of the
  model, with their laws as `requires`.
- Text is a sequence of characters. Malformed UTF-8 is not modelled, and lengths
  count characters. Lower-casing covers ASCII and the two characters that
  lower-case into ASCII.
- Error values keep which check failed, not the message texts; loggers and
  counters are not modelled.
- RateLimiter.Limiter.Request: uses exact reals, so float64 rounding of tokens and
  elapsed seconds is not modelled.
- PinningDialer.OneAddressPerHost: the address range tables behind the public
  test are a parameter.
- Endpoint lists, display fields and the order's challenges are not part of a
  registration's state, because no status method reads them.
- IdentityLifecycle.VerifiedIdentity.IssueChallenge: timestamps of the last update
  are not part of the state.
- Poller.Process.RunOnce: the feed holds still during the method, because a feed
  that keeps growing can keep a round going; growth between any two actions is
  covered by the step system.
- TileWalkRuns.NeverStuck: takes for granted that an HTTP request in flight comes
  back with some answer, as the client's timeout has it.
- Registration.NewRegistration: endpoint validation and the certificate's name
  match enter as outcomes, because they live in other packages.
- Catalog.EntryIsClean: does not cover `updatedAt`, which the code formats from a
  time value and the model takes as text.
- Catalog.EntryIsWellFormed: the publisher block is not modelled; it holds the
  sanitized host twice and does not enter the order of a document.
- Projection.EndpointCases: metadata and trust manifest of a projected entry are
  not modelled; no other field depends on them.
