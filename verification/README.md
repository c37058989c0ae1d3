# Gruff: a verified model of the issuing engine

Gruff issues short-lived VPN and SSH credentials, remembers which are live, lets
their holders revoke them, and tells the servers what has been revoked. This
project models that engine in Dafny 4.11 and proves what it promises over whole
runs. `dafny verify dfyconfig.toml` checks everything.

| file | part of Gruff |
|---|---|
| `Sessions.dfy`, `Store.dfy` | the bounded in-memory store of sessions and revocations |
| `RateLimit.dfy` | the per-user token-bucket limiter and its sweep |
| `Portal.dfy` | the handlers, the publishing ticks and scrapes over limiter, store, counters and files |
| `Answers.dfy`, `Tallies.dfy` | what each request is answered, and what the counters count, in terms of the configuration and the requests made |
| `AtomicFile.dfy` | replacing a file by rename: interleaved writers, failures, crashes |
| `Krl.dfy`, `Publish.dfy`, `Refresh.dfy` | the OpenSSH KRL, the CRL, and their publication over time |
| `EndToEnd.dfy`, `InPlace.dfy`, `Publishing.dfy` | from a request to revoke to the file a server reads |
| `Metrics.dfy`, `Exposition.dfy`, `Scrape.dfy` | counters, their flattened keys, and the scraped text |
| `Networks.dfy`, `Config.dfy` | CIDRs and route lines, accepted configurations, lifetimes |
| `Common.dfy` | results, the clock, filtering, text and decimal numerals |

## How it is modelled

Every stateful part has two layers. A pure *step* function says what one
operation does to the abstract state (`Store.Step`, `RateLimit.Served` and
`Swept`, `Portal.Respond`, `AtomicFile.Apply`); runs are folds of it, and the
theorems are about all runs. A class performs the same operation in place, with
the source's loops and fields, and its method contracts equate the new abstract
state with the step function. A run of the portal interleaves requests of every
kind, publishes at startup, on ticks and on revocation, and scrapes; each file
write goes through the protocol of `AtomicFile`. `MemoryStore` keeps its list in an array, so the
index sort and the in-place rebuild of `prune` are there slot by slot; the
limiter holds its buckets by reference, as the source does.

- Time is an `int` of nanoseconds and is always a parameter. A handler has one
  clock reading. Theorems about runs assume readings do not decrease; the source
  does not enforce that (`handlers.go:213` reads the clock before the lock).
- Tokens are `real`. Rounding is modelled where it is the point: the wait is
  truncated to nanoseconds and then rounded to seconds as `time.Duration` does.
- Issuing draws a serial and an expiry; keys and signatures are not modelled. The
  drawn serials are parameters. Where a result needs them distinct across both
  kinds, or SSH serials non-zero, it says so: `revoke.go:35` compares serials
  alone, and `sshca.go:201` can draw 0.
- A crash keeps the data of flushed files only, gives unflushed files any
  contents, and restores each directory entry from any state since the last
  directory sync.
- The KRL decoder follows sections 1 and 2 of OpenSSH's PROTOCOL.krl with the
  types of section 5 of RFC 4251. The CRL's thisUpdate and nextUpdate are those
  of section 5.1.2 of RFC 5280.

## Where the code and its promises part

- Retry-After can be early: the wait is rounded to the nearest second, so a
  caller who waits just as told may be refused again. `RetryAfterSuffices` says
  exactly when the call is allowed; `RetryAfterCanBeEarly` is a run in which it is
  refused.
- A revocation is dropped if another credential with the same serial is already
  revoked, even of the other kind. `RevokeTakesEffectIff` says exactly when;
  `SharedSerialIsNotRevoked` is an instance.
- Concurrent writers are safe if and only if no temporary name is given out while
  another writer is still building under it (`ReuseIsSafeIff`); the names of
  writers that have landed or stopped may be used again. A name can be free and
  yet held, because the deferred Remove also runs after the rename:
  `ReusedNameBreaks` is a run that gets there and ends with an unfinished file.
- Write can return an error after it has replaced the file, when only the sync of
  the directory failed. Publishing then stops before the KRL although the new CRL
  is in place (`PublishRevocations`).
- A revoked SSH credential with serial 0 withholds the whole KRL for as long as it
  lives. `KrlWithheldIff` says exactly when over runs of the portal;
  `RevokeRunPublishesIff` has runs on either side.
- An odd last label is silently dropped, so odd lists can share a key with even
  ones (`LabelsAreFaithful` says exactly which lists do).

## Model

| member | source | states |
|---|---|---|
| Sessions.BestIsGreatest | internal/portal/session.go:157-202 | Any selection of min(max, n) entries in which every dropped entry ranks below every kept one, by expiry and then recency, is the list eviction leaves: the outcome is unique and order-preserving |
| Sessions.BestMask | internal/portal/session.go:157-202 | Such a selection exists for every list, so what is left has length min(max, n), keeps its order, and gives up only what ranks below |
| Sessions.BestOfLive | internal/portal/session.go:164-171 | Evicting before expired entries are dropped leaves the same list as evicting after, because both follow expiry |
| Sessions.BestOfPrepend | internal/portal/session.go:123-130 | Evicting before a newer entry arrives leaves the same list as evicting after |
| Store.StreamingEqualsBatch | internal/portal/session.go:123-202 | After any sequence of operations with a nondecreasing clock the list is exactly the max greatest of everything ever added and unexpired at the last prune, newest first: early eviction never changes a later answer |
| Store.MemoryStore.Add | internal/portal/session.go:122-130 | The new entry goes to the front, then expired and surplus entries go; revocations are untouched |
| Store.MemoryStore.For | internal/portal/session.go:132-146 | Prunes, then answers the order-preserving filter of the whole list by user |
| Store.MemoryStore.All | internal/portal/session.go:148-155 | Prunes, then answers the whole list |
| Store.MemoryStore.Tracked | internal/portal/session.go:109-118 | Prunes, then reports how many are held against the bound |
| Store.MemoryStore.Prune | internal/portal/session.go:157-202 | Index sort, doomed set and in-place rebuild leave the greatest unexpired entries in order, and clear every slot of the tail |
| Store.MemoryStore.SortIndices | internal/portal/session.go:174-186 | Every index once, soonest expiry first, the older first at the same expiry |
| Store.MemoryStore.Rebuild | internal/portal/session.go:193-201 | Compacting in place keeps exactly the entries not doomed, reading no slot already overwritten, and clears the tail |
| Store.MemoryStore.Revoke | internal/portal/revoke.go:31-40 | Appends unless the serial is present, then drops lapsed entries; sessions are untouched |
| Store.MemoryStore.Revocations | internal/portal/revoke.go:42-55 | Drops lapsed entries and answers those of one kind, in order |
| Store.RevocationLastsAsLongAsCredential | internal/portal/revoke.go:31-62 | In every ordered run with distinct serials, a query lists a serial under its kind exactly once if it was revoked while valid and has not expired, and not at all otherwise, whatever comes between |
| Store.RevokeTakesEffectIff | internal/portal/revoke.go:35-38 | Without distinct serials a revocation of a live credential takes effect if and only if no entry has its serial, or one of its kind is already listed |
| Store.SharedSerialIsNotRevoked | internal/portal/revoke.go:35-38 | A VPN and an SSH credential sharing a serial: revoking the second has no effect |
| RateLimit.BucketRefinesHistory | internal/portal/ratelimit.go:45-65 | A user's call is allowed if and only if, counting from each of the user's earlier calls, the allowed calls since leave room for one more in the burst plus what has accrued |
| RateLimit.KeepingExplained | internal/portal/ratelimit.go:51-64 | The one stored token count is the least room left over all of the user's calls so far, for every user in every interleaving |
| RateLimit.SweepIsInvisible | internal/portal/ratelimit.go:37-83 | In every interleaving with nondecreasing times the limiter with its sweep and one that never forgets give the same reply and the same wait |
| RateLimit.TrackedAreRecent | internal/portal/ratelimit.go:68-83 | After any call fewer than 1024 users are tracked or each of them has called within the hour |
| RateLimit.WindowBound | internal/portal/ratelimit.go:51-65 | Over any interval a user is allowed at most the limit plus the limit times its length in hours |
| RateLimit.SpacedIsNeverRefused | internal/portal/ratelimit.go:51-65 | A user whose calls are 3600/limit seconds apart is never refused, whatever others do |
| RateLimit.RetryAfterIsExact | internal/portal/ratelimit.go:59-62 | Before rounding, the wait is the least delay after which the refused user's next call is allowed; it is positive and at most 3600/limit seconds |
| RateLimit.RetryAfterRounding | internal/portal/ratelimit.go:60-61 | The wait told is whole seconds within half a second of the exact one, and not below it if and only if rounding was upwards or unneeded |
| RateLimit.RetryAfterSuffices | internal/portal/ratelimit.go:59-62 | A refused user who makes the next call after just the wait told is allowed if and only if the wait was not rounded down, whatever other users do |
| RateLimit.RetryAfterCanBeEarly | internal/portal/ratelimit.go:60-61 | A run at seven an hour: the eighth of eight calls at once is told 514 seconds, and the same user's call after just that is refused again |
| RateLimit.Limiter.Allow | internal/portal/ratelimit.go:36-66 | Refill, charge and deferred sweep: the reply and the whole new map of buckets, other users' included |
| RateLimit.Limiter.Sweep | internal/portal/ratelimit.go:76-83 | At 1024 buckets deletes exactly those idle for more than an hour |
| RateLimit.NewLimiter | internal/portal/ratelimit.go:29-34 | No limiter if and only if the limit is not positive |
| Portal.NoForgottenCredential | internal/portal/handlers.go:94-117 | With a positive hourly limit P, at most U users and a capacity of at least 25·P·U, the list after any run is everything ever issued, VPN or SSH, that was live at the last prune |
| Portal.EveryLiveCredentialIsRevocable | internal/portal/revoke.go:77-102 | With that capacity every user's request to revoke a credential of theirs succeeds for as long as it is live |
| Portal.WhoCanRevoke | internal/portal/revoke.go:77-102 | A request succeeds if and only if the serial is among the max longest-lived unexpired credentials ever issued and, unless the caller is an administrator, is the caller's own |
| Portal.IssuedWithinAllowed | internal/portal/handlers.go:94-117 | Credentials issued to a user in an interval, of both kinds together, never outnumber the limiter's allowed calls in it |
| Portal.LivePerUser | internal/portal/handlers.go:94-117 | One user's live credentials never number more than 25 hours' worth of the limit |
| Portal.EverySessionWasAuthorized | internal/portal/handlers.go:163-186 | Every recorded credential comes from a request of its user whose roles the profile grants, with the serial drawn and the bounded expiry |
| Portal.BudgetIsForTheAuthorized | internal/portal/handlers.go:90-96 | The limiter is charged by authorized issue requests, in order, and by nothing else |
| Answers.IssueIsAnswered | internal/portal/handlers.go:72-118 | Over any run and for both kinds: a request is forbidden if and only if no configured profile of the name grants one of the caller's roles, turned away if and only if the requests admitted before leave no room in the limit, failed if and only if the CA cannot sign, and otherwise issued and recorded as asked |
| Answers.EverySessionWasEarned | internal/portal/ssh.go:100-118 | Every recorded credential of either kind comes from a request for a configured profile bearing its name that grants one of the request's roles, with the serial drawn and the expiry that profile's duration and the CA give |
| Answers.ToldToWait | internal/portal/handlers.go:212-223 | A user turned away has one exact delay from which on there is room, positive and at most 3600/limit seconds; the wait told is whole seconds within half a second of it, and not short of it if and only if rounding was upwards or unneeded |
| Answers.WaitingAsTold | internal/portal/handlers.go:212-223 | The user's next admissible request is turned away again if and only if less than the exact delay has passed, whatever anyone else has done |
| Answers.ViewShows | internal/portal/handlers.go:55-69 | A view shows, newest first, of the unexpired credentials ever issued the bound's worth that expires last, and of those all to an administrator and their own to anyone else |
| Answers.ViewShowsAllLive | internal/portal/handlers.go:156-161 | With capacity 25·P·U it shows every live credential of the caller's, or every live one to an administrator |
| Answers.RevokeIsAnswered | internal/portal/revoke.go:64-102 | A request to revoke is redirected if and only if the serial is among the credentials the caller can see, and is forbidden otherwise |
| Portal.Portal.HandleIssue | internal/portal/handlers.go:72-118 | Authorize, limit, issue, record, count, in that order: status and whole new state, for every branch; what the status is over a run is `IssueIsAnswered` |
| Portal.Portal.HandleSshIssue | internal/portal/ssh.go:38-85 | The same over the shared limiter and store, with the SSH CA missing only noticed after the limiter; what the status is over a run is `IssueIsAnswered` |
| Portal.Portal.HandleRevoke | internal/portal/revoke.go:64-118 | Looks the serial up among what the caller can see, records the revocation with the session's own kind and expiry, and publishes; the reply does not depend on how publishing goes |
| Portal.Portal.HandleIssued | internal/portal/handlers.go:55-69 | A view as an event of the run; what it shows is `ViewShows` |
| Portal.Portal.PublishRevocations | internal/portal/publish.go:22-82 | One publish as an event of the run, through both files; when it replaces them and what it returns are `CrlIsPutIff`, `KrlIsPutIff` and `PublishIsOkIff` |
| Portal.Portal.RefreshRevocations | internal/portal/publish.go:28-50 | Ticks and requests arriving in any order leave the portal in the state of the run they make, each write ending by its own first fault; a tick publishes only if publishing is enabled |
| Portal.Portal.CollectGauges | internal/portal/metrics.go:139-188 | Reports what the store tracks, its bound and the active revocations of each kind, as an event of the run |
| EndToEnd.RevokedIsListedUntilExpiry | internal/portal/revoke.go:64-106 | A credential is listed once, under its kind, exactly while some request to revoke it has succeeded and it has not expired |
| EndToEnd.KrlTracksThePortal | internal/portal/publish.go:95-114 | The decoded KRL holds an issued SSH credential's serial if and only if a request to revoke it succeeded and it is unexpired when the list is built |
| InPlace.CrlInPlaceTracksThePortal | internal/portal/publish.go:52-82 | The crl.pem in place lists an issued VPN credential if and only if a request to revoke it had succeeded and it was unexpired when that list was put there, over any run of requests, ticks, failed writes and scrapes |
| InPlace.KrlInPlaceTracksThePortal | internal/portal/publish.go:52-82 | The same for the decoded krl in place and SSH credentials |
| InPlace.RevokedStaysInCrl | internal/portal/publish.go:28-82 | Once a revocation has succeeded and a publish with it or after it has replaced crl.pem, every crl.pem in place until the credential expires lists it |
| InPlace.RevokedStaysInKrl | internal/portal/publish.go:28-82 | The same for krl, decoded |
| InPlace.CrlInPlaceIsCurrent | internal/portal/publish.go:32-82 | With a publish at startup, hourly ticks over well inside the hour and fewer than 23 failing in a row, the nextUpdate of the crl.pem in place is still to come at every moment of a run of the portal |
| InPlace.KrlWithheldIff | internal/sshca/krl.go:38-41 | Over any run and any serials drawn the KRL cannot be built if and only if an unexpired SSH credential with serial 0 has been revoked |
| InPlace.ZeroWithholdsFile | internal/portal/publish.go:72-80 | While such a credential lives no publish replaces krl |
| InPlace.RevokeRunPublishesIff | internal/sshca/sshca.go:195-202 | A family of runs, one for each 64-bit serial drawn: revoking the credential succeeds every time, and krl is replaced if and only if the serial is not 0 |
| InPlace.KrlFileDecodes | internal/portal/publish.go:84-93 | With any number of publishers at once, any failures and any crashes, readers of krl find what was there before or a list for the CA's key that decodes to its end |
| AtomicFile.TargetIsWhole | internal/atomicfile/atomicfile.go:19-58 | With any number of interleaved writers, any failures and any crashes, and no temporary name given out while a writer is still building under it, the target always holds its initial contents or one writer's complete render, the last to land |
| AtomicFile.ReturnedIsDurable | internal/atomicfile/atomicfile.go:54-73 | Once Write has returned nil, readers find that render or one that landed later whatever follows, crashes included |
| AtomicFile.StepKeeps | internal/atomicfile/atomicfile.go:25-58 | Every step of every writer, every failure and every crash keeps the protocol's invariant when no name is given out while held |
| AtomicFile.ReuseIsSafeIff | internal/atomicfile/atomicfile.go:22-34 | After any run, giving out one more temporary name keeps readers from ever finding an incomplete file, whatever follows, if and only if no writer is still building under that name |
| AtomicFile.TargetIsGood | internal/atomicfile/atomicfile.go:19-24 | If every render that ends satisfies a property, so does everything readers find, apart from the initial contents |
| AtomicFile.ReusedNameBreaks | internal/atomicfile/atomicfile.go:30-34 | A run in which every name given out was free of builders reaches a state where a held name is free, and giving it out ends with readers finding neither the initial contents nor a complete render |
| AtomicFile.Host.Write | internal/atomicfile/atomicfile.go:25-73 | For each first fault and each render: the steps taken are a run of the protocol, the result is nil exactly without a fault, the file is replaced exactly when the rename was done even if an error is returned, and a nil result is durable |
| Krl.KrlRoundTrip | internal/sshca/krl.go:29-69 | For non-zero 64-bit serials a decoder of PROTOCOL.krl recovers CA key, version, date, flags, comment and exact serials and consumes every byte, if and only if the certificate section's length fits 32 bits; the empty list included |
| Krl.StringRoundTrip | internal/sshca/krl.go:65-69 | A wire string is read back whole if and only if its length fits 32 bits |
| Krl.Encode | internal/sshca/krl.go:29-63 | Fails exactly when serial 0 is listed, otherwise writes the nested list byte for byte |
| Krl.KnownList | internal/sshca/krl.go:29-63 | One list byte for byte |
| Publish.CurrentKrl | internal/portal/publish.go:95-114 | Builds the list of the store's SSH revocations, failing where one does not parse or is 0 |
| Publish.CurrentCrl | internal/portal/publish.go:116-131 | Builds the list of the store's VPN revocations, failing where one is not a decimal integer |
| Publish.KrlRevokesExactlyTheRevoked | internal/portal/publish.go:95-114 | Printed at issue, stored, revoked, parsed back and encoded, a serial is in the decoded KRL if and only if it was revoked while valid and is unexpired |
| Publish.CrlRevokesExactlyTheRevoked | internal/portal/publish.go:116-131 | The CRL lists exactly the VPN serials revoked while valid and unexpired, and is current when built |
| Publish.KrlFailsIff | internal/portal/publish.go:104-113 | The KRL can be built if and only if every listed serial parses and is not 0 |
| Refresh.CrlIsAlwaysCurrent | internal/portal/publish.go:32-82 | With a publish at startup, hourly ticks each over well inside the hour and fewer than 23 failing in a row, every moment lies before the nextUpdate of the CRL in place, publishes on revocation included |
| Refresh.CurrentIff | internal/pki/crl.go:50-55 | At any moment the CRL in place is current if and only if some successful publish already over read its clock, in whole seconds, less than a day before |
| Refresh.LongerOutageLapses | internal/pki/crl.go:12-19 | An instance with 23 ticks failing in a row after one success, all else as required: the CRL in place lapses |
| Refresh.Publisher.PublishRevocations | internal/portal/publish.go:52-82 | What is put in place and what is returned for each combination of CAs, list errors and outcomes of the two writes, a replaced file with an error returned included; the KRL is not reached when the CRL's write returned an error; each file's bytes are the last list put there |
| InPlace.NextUpdateInPlace | internal/portal/publish.go:28-82 | The nextUpdate the timing results speak of is that of the CRL in place after the run |
| Publishing.CrlIsPutIff | internal/portal/publish.go:57-70 | An event of a run replaces crl.pem if and only if it is a publish or a revocation that succeeded, publishing is enabled, there are VPN profiles, every VPN serial then revoked is a decimal integer, and the write does not leave the file as it was |
| Publishing.KrlIsPutIff | internal/portal/publish.go:72-81 | It replaces krl if and only if besides there is an SSH CA, every SSH serial then revoked is a positive 64-bit integer, its own write does not leave the file as it was, and, where there is a VPN CA too, the CRL was built and written without an error |
| Publishing.IssuedCrlIsPutIff | internal/portal/publish.go:57-70 | With serials as issued only the write can keep a publish from replacing crl.pem |
| Publishing.IssuedKrlIsPutIff | internal/portal/publish.go:72-81 | With serials as issued and not 0 only the writes can keep it from replacing krl |
| Publishing.PublishIsOkIff | internal/portal/publish.go:57-82 | A publish returns nil if and only if publishing is disabled or each list there is a CA for could be built and was written without an error |
| Publishing.PublishedFileSays | internal/portal/publish.go:84-93 | After a publish that replaces crl.pem its readers find the encoding of a list with an entry for each revocation then listed, in order and dated to the second, current for 24 hours |
| Publishing.PublishedKrlSays | internal/portal/publish.go:84-114 | After a publish that replaces krl its readers find bytes that decode to the serials then listed, in order, for the CA's key, dated to the second |
| Publishing.EntriesAreOfRequests | internal/portal/revoke.go:95-106 | Every revocation listed carries the credential's kind, user and expiry and the time of a request that revoked it |
| Metrics.EscapeRoundTrip | internal/portal/metrics.go:115-125 | Escaping any label value is undone exactly up to the closing quote, whatever follows |
| Metrics.LabelsRoundTrip | internal/portal/metrics.go:96-113 | Parsing a formatted label set returns its pairs and what follows it |
| Metrics.LabelsAreFaithful | internal/portal/metrics.go:96-113 | Two label lists share a flattened form if and only if their complete pairs are equal and both or neither is empty |
| Metrics.WriteLabels | internal/portal/metrics.go:96-113 | The builder loop writes the label set, dropping an odd last element |
| Metrics.CountsAreOccurrences | internal/portal/metrics.go:35-39 | After any run of increments each stored count is the number made with exactly that name and label list |
| Exposition.Registry.Inc | internal/portal/metrics.go:35-39 | Adds one under the flattened key and changes no other count |
| Exposition.Registry.SortedNames | internal/portal/metrics.go:54-56 | Every key once, by name and then labels |
| Exposition.Registry.WriteTo | internal/portal/metrics.go:48-78 | The two loops write the counters in sorted order and then the gauges in the order given, each with its headers; what that text says is `GaugesRecovered` and `CountersRecovered` |
| Exposition.ExpositionParsesBack | internal/portal/metrics.go:49-78 | A line parser reads the text back as exactly its headers and samples; no help text, label or number is mistaken for structure |
| Exposition.CountersRecovered | internal/portal/metrics.go:58-65 | The counter samples read back give every series once, with its value |
| Exposition.GaugesRecovered | internal/portal/metrics.go:67-76 | The gauge samples read back are every gauge with its labels and value, in order and nothing else; their header lines carry a gauge's help or the type gauge |
| Exposition.CountersTyped | internal/portal/metrics.go:58-64 | The counters' header lines carry a counter's help or the type counter |
| Exposition.OneHeaderPerName | internal/portal/metrics.go:58-76 | Each metric name has one HELP and one TYPE line, both before its first sample, given grouped gauges sharing no name with a counter |
| Scrape.ScrapeIsWellFormed | internal/portal/metrics.go:128-188 | After any run of the portal a scrape with the gauges the store reports then parses back, is headed once per metric, and carries the counters exactly |
| Scrape.ServeMetrics | internal/portal/metrics.go:130-137 | Collects the gauges and writes counters and gauges as one exposition; what it says is `ScrapeSays` |
| Scrape.GaugesAreExact | internal/portal/metrics.go:139-188 | The gauges reported are the number of unexpired credentials up to the bound, the bound, and, of each kind, the number of revoked unexpired credentials |
| Scrape.ScrapeSays | internal/portal/metrics.go:128-188 | The text served, parsed, holds the counters' samples and then the five gauges under their names and labels with the numbers of credentials tracked, the bound and the active revocations of each kind; every TYPE line says counter of a counter and gauge of a gauge |
| Tallies.CountersSay | internal/portal/metrics.go:80-94 | Each counter, under its name and labels, is the number of requests of that kind and profile issued, of that kind refused for the caller's roles, of requests turned away, of revocations recorded of that kind, and of failed sign-ins |
| Scrape.IssuedCounterIsExact | internal/portal/handlers.go:107-118 | The issued counter of a kind and profile is the number of credentials ever recorded for it |
| Networks.MaskMatchesNetwork | internal/config/config.go:132-140 | An address ANDed with the mask gives the route's address if and only if it lies in the network |
| Networks.AcceptedIsCanonical | internal/config/config.go:99-113 | Accepted networks covering the same addresses are the same network |
| Networks.RefusedIffNotFirst | internal/config/config.go:109-111 | A prefix is refused if and only if it is not its block's first address, and the suggestion offered is accepted and covers the same addresses |
| Networks.RoutesRoundTrip | internal/openvpn/openvpn.go:59-70 | The route lines read back as the same list of networks |
| Networks.WriteRoutes | internal/openvpn/openvpn.go:63-70 | The loop writes one push line per route, in order |
| Config.Validate | internal/config/config.go:450-549 | Reports no fault if and only if settings and profiles are valid and names unique; otherwise the first fault, with everything checked before it sound |
| Config.AcceptedLookup | internal/config/config.go:349-356 | In an accepted configuration a name finds the one profile bearing it |
| Config.SshAcceptedLookup | internal/config/config.go:374-381 | And the same for SSH profiles |
| Config.LookupBounds | internal/config/config.go:349-356 | A lookup succeeds if and only if the name is configured, and what it finds lasts at most 24 hours and names a role |
| Config.VpnExpiryBounds | internal/pki/pki.go:138-194 | A VPN certificate outlives neither its CA nor its duration, gets all of it when the CA leaves room, and is refused exactly when the CA has lapsed |

## Left out

- Store.MemoryStore: the mutex. Operations are taken one at a time, each with one reading of the clock.
- Portal.Portal: one event at a time, each with one reading of the clock. A sign-in is only counted when it fails.
- Portal.Portal.HandleIssue: the response body, headers and log lines, and the error a store other than the in-memory one could return.
- Refresh.CrlIsAlwaysCurrent: assumes attempts to publish follow one another. With concurrent publishers the last rename wins, so an older list may land after a newer one; completeness under concurrency is `AtomicFile.TargetIsWhole`.
- AtomicFile.Host.Write: one process at a time and a single first fault; interleavings are the step system's. A suffix whose name exists counts as CreateTemp failing, rather than being drawn again. File modes are not modelled, and crl.pem and krl are two systems although they share a directory.
- Publish.CurrentCrl: the CRL as its entries and dates; DER, PEM, the random CRL number and the signature are an encoding `pem` of these, and a failure to sign has the effect of a write that leaves the file untouched.
- Krl.Encode: serials and dates are unbounded integers wrapped to 64 bits as written.
- Networks.WriteRoutes: a writer that fails part-way.
- Config.Validate: header names, links, the auth section, the template's syntax and the description check, which needs Unicode tables; the settings checked before the profiles are one fault.
- printableUsername is a parameter of the handlers, for the same reason.
- Counters are unbounded integers, not int64.
- X.509, key generation, OIDC, cookies, HTTP routing, templates, the firewall script, connect.sh and the SSH installer: libraries and plumbing, or text whose meaning is a shell's.
- Role parsing, display of durations and initials: each is a single expression nothing else here depends on.
