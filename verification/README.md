# VaulTLS: what the certificate store, the agent and the ACME server guarantee

A Dafny model of the parts of VaulTLS whose guarantees depend on several functions agreeing
with each other, with proofs of those guarantees.

* **Certificate store** (`CertStore`, `CertDatabase`, `CertHandlers`, `CertEffects`, `CertRuns`,
  `Revocation`, `RenewalClock`, `Hex`). A certificate row is replaced in place by four paths: a
  manual upload, renewal by the internal CA, the ACME watcher and the ACME user interface. The
  displaced content moves into a version history. `CertStore` gives each database operation as a
  function on the two tables; the class `CertDatabase.Database` does the same in place, with the
  transaction and its rollback, and is proved equal to those functions. `CertHandlers` says which
  operations each request performs; `CertEffects` says of each request, field by field, when it goes
  through and what it leaves; `CertRuns` and `Revocation` prove what holds over every run of
  requests.
* **Agent** (`Agent`, `AgentEffects`). One pass of the deployment agent over a domain pinned to a
  certificate id, with arbitrary requests served by the store before each of the pass's steps and a
  failure or a crash possible at each of them.
* **Trust-store sync** (`TrustBundle`, `TrustSync`, `TrustRuns`). The bundle parser, the anchor
  directory and the ownership record, changed file by file with an error possible at every step.
  `TrustSync.Machine` is the run itself; what it may leave behind is the relation `MayLeave`;
  `TrustRuns` proves what holds over any sequence of runs.
* **ACME server** (`AcmeOrders`, `AcmeHandlers`, `AcmeEffects`, `AcmeInterleaving`, `DomainMatch`,
  `AcmeRateLimit`, `AcmeQuotaRaces`, `AcmeNonces`). `AcmeOrders` interleaves the single database
  steps of any number of challenge and finalize requests; `AcmeHandlers` proves what holds when each
  handler runs without interruption; `AcmeInterleaving` gives the exact conditions under which the
  same holds otherwise, and `AcmeQuotaRaces` does so for the order quota.
* **Sessions and SSH revocation lists** (`Sessions`, `Krl`). The sliding session with its grace
  window, and the KRL encoder with a decoder written from OpenSSH's PROTOCOL.krl.

Functions describe effects, classes hold the state the program updates in place, and each
method's `ensures` ties its new state to the function that describes it. Choices the program
does not control (errors, map order, the order in which a query yields rows) are
nondeterministic.

## Assumptions

* Clocks do not go backwards. Row ids, token identifiers and nonces are not reused; a lemma that
  needs this says so in a `requires` (`Ordinary`, `Orderly`, `NoncesFresh`, `FreshIds`), and
  `AcmeOrders.Place` ignores an order under an id that was ever used. For row ids this is an
  assumption: the primary keys (`backend/migrations/01-initial/up.sql:19`,
  `backend/migrations/10-acme/up.sql:20`) do not rule out that a deleted row's id is handed out
  again. `Agent.RecreationIsNoticedIff` says what the agent makes of such a row.
* A certificate request (create, replace, revoke, delete) is one uninterrupted sequence of database
  steps, except where a lemma speaks of single steps (`CertStore.DbStep`). ACME challenge and
  finalize requests are interleaved at the grain of database steps in `AcmeOrders`.
* CA ids are positive (`CertEffects.RealCa`).
* The serial number of newly stored material can be read and is not empty. `SerialsDistinct` is
  needed only where the public lookup by serial is compared with a revocation list.
* File names are a function of the fingerprint, and no two fingerprints share one, where a lemma
  says so (`Named`, `Naming`); `TrustBundle.FileNamesCollideIff` says exactly when two certificates
  do share one. Every write of the ownership record succeeds where a lemma asks for `recorded`.

## Findings

* **Expiry as the name of a version.** Of all requests exactly a local administrator's forced
  downgrade breaks the order of expiries (`OnlyForcedDowngradesBreakExpiry`; one is exhibited in
  `ForcedDowngradeHappens`). At the grain of database steps a replacement keeps it if and only if it
  ends later than the version it finds when it writes (`ReplaceKeepsExpiryIff`), so of two
  replacements checked against the same version the second must end later than the first, which its
  check did not look at (`StaleCheckKeepsExpiryIff`, `StaleCheckHappens`).
* **What the agent misses.** A replacement is deployed by the next pass if and only if it changes
  the expiry; only a forced one can leave it equal (`ReplacementIsNoticedIff`). The same holds of a
  certificate created under a deleted one's row id (`RecreationIsNoticedIff`). Runs in which one
  goes unnoticed are `ForcedReplacementGoesUnnoticed` and `RecreationGoesUnnoticed`.
* **A skip and the running service.** A reload command that fails is not retried: the new files are
  in place and recorded, the service runs something else, and the next pass skips
  (`FailedReloadIsNotRetried`). A skip therefore means that the service has loaded the current
  certificate if and only if the last pass that recorded another serial did not fail at the reload
  (`SkipMeansLoadedIff`); earlier failures do not matter once a later deployment got through.
* **One certificate per order.** It holds of uninterrupted handlers (`WholeHandlersAreConsistent`).
  When requests interleave, an order is safe from a second certificate, however the requests under
  way go on, exactly while there is at most one certificate or finalize request under way for it
  (`IssuesOnceFromIff`), and exactly one kind of step breaks that: letting a finalize request
  through for an order that has either (`StepKeepsAtMostOnceIff`, and over whole runs
  `CarefulRunsIssueOnce`). The program's check looks only at the order's status;
  `TwoCertificatesInSomeRun` shows a run that issues twice.
* **Valid is never left.** It holds of uninterrupted handlers (`ValidForever`). Otherwise a valid
  order stays valid in every continuation exactly when all its identifiers are valid and every
  request in flight for it is a finalize request about to write its result (`ValidStaysIff`); the
  steps that spoil it are exactly the late status writes of other requests (`StepLeavesValidIff`).
  `LateReadyIsReachable` and `ValidIsLeftInSomeRun` show a run in which it happens. What does hold
  in every interleaving is that each certificate's names were all validated and permitted.
* **Failed orders.** A failed order can become ready again if and only if some identifier of it is
  not valid (`FailedOrderCanRecoverIff`): a failed validation can be retried, an order whose
  issuance failed is stuck.
* **Wildcards and http-01.** `is_valid_dns_name` and `matches_domain` trim the name, the rule that a
  wildcard needs dns-01 looks at the name as sent. Trimming removes all white space of Unicode,
  vertical tab and form feed included. The rule therefore fails for exactly the valid wildcards sent
  with a blank in front: each of these, and no other, is accepted on an http-01 challenge in some
  run (`HttpAcceptsWildcardIff`; `SpacedWildcardIsAccepted` has the run for every blank in front of
  "*.a").
* **The order quota.** A request reads the clock three times, and the order's expiry comes from the
  first reading while its creation time comes from the last. Expiry cleanup changes no quota
  decision if and only if the readings are never more than one millisecond apart
  (`CleanupIsInvisibleIff`); with readings up to `skew` apart the quota bounds exactly the windows
  of `WINDOW + 1 - skew` milliseconds, and the full 24 hours when they agree (`WindowIsSafeIff`).
  Counting and storing are separate steps: with up to `most` requests of an account under way
  together the least bound those windows keep is `limit + most - 1` (`RacesKeepIff`), so the limit
  itself exactly when requests run one at a time. A given bound is broken by exactly one kind of
  step, a request let through while stored orders and requests under way fill it
  (`StepKeepsWithinIff`).
* **Trust store.** A run that succeeds leaves every anchor of the bundle in place exactly when no
  retired anchor shares its file name with a kept one (`SuccessMeansInSync`); two certificates for
  which it does not are exhibited (`CollisionLosesTheAnchor`, `CollisionHappens`). The next success
  with the same bundle repairs it (`SecondSuccessIsInSync`).
* **Sessions.** A user who always presents the newest cookie is never rejected exactly if requests
  are at most 899 seconds apart (`GapIsSafeIff`).
* `backend/src/certs/ssh_cert.rs:328-329` says the list holds pairs of serials; the code writes a
  plain list of single serials, which is what the format asks for. The model follows the code.

## Model

| member | source | states |
|---|---|---|
| `CertStore.ReplaceIsAllOrNothing` | backend/src/db.rs:506-571 | a replacement succeeds exactly when the row exists and its guard admits it; the history's unique key is never violated; any refusal leaves both tables unchanged |
| `CertStore.ReplaceAddsOneVersion` | backend/src/db.rs:525-562 | a replacement adds exactly one version, numbered one above the current, and forgets none: the displaced content stays readable under its old number |
| `CertStore.GetVersionReadsVersions` | backend/src/db.rs:619-645 | reading a version by number sees exactly the union of current row and history |
| `CertStore.RunStepsKeepsHistoryBelow` | backend/src/db.rs:501-656 | every run of database steps keeps historical numbers positive, below the current one and attached to a live row |
| `CertStore.ReplaceLeavesTheRest` | backend/src/db.rs:523-562 | every other row and version is untouched; owner, type, path, revocation and (unless chosen) renewal method stay; the displaced version records when and by whom |
| `CertStore.ReplaceInstallsTheInput` | backend/src/db.rs:550-562 | a replacement installs the input's bytes, password, dates, serial text and fingerprint, under the input's CA when that is positive and the row's old CA otherwise |
| `CertStore.HistoryIsAppendOnly` | backend/src/db.rs:525-656 | over every run that keeps the row, a filed version and its record of who replaced it never change; once deleted they never return |
| `CertStore.VersionNumberIsForever` | backend/src/db.rs:506-656 | over every run of database steps that deletes neither row nor version, a number denotes the same bytes and password, through its move into history |
| `CertStore.VersionNumberNeverReused` | backend/src/db.rs:533-562 | after any run that keeps the row, an old number denotes what it did or nothing, never something else |
| `CertStore.RevokedRowIsFrozen` | backend/src/db.rs:544-566 | at the grain of single database steps a revoked row keeps its version, bytes, CA, expiry and class and stays revoked |
| `CertStore.GuardsPartitionRows` | backend/src/db.rs:544-548 | the three guards are disjoint and together cover the unrevoked rows, one class each, and a replacement leaves the row in its class |
| `CertDatabase.Database.ReplaceCertificate` | backend/src/db.rs:506-571 | the transaction with its rollback: either the new content under the right CA with the old content filed, or both tables as they were |
| `CertDatabase.Database.ListCertificateVersions` | backend/src/db.rs:574-616 | the listing starts with the current version, describes each historical one once, is strictly descending, and lists exactly the numbers that can be read |
| `CertDatabase.Database.GetCertificateVersion` | backend/src/db.rs:619-645 | returns the specified version or nothing |
| `CertDatabase.Database.HistoryDescending` | backend/src/db.rs:598-601 | yields exactly the row's history keys in strictly descending order |
| `CertDatabase.Database.DeleteCertificate` | backend/src/db.rs:492-499 | removes the row and its whole history and nothing else |
| `CertDatabase.Database.DeleteCertificateVersion` | backend/src/db.rs:648-656 | removes one history entry and says whether it was there |
| `CertDatabase.Database.InsertCertificate` | backend/src/db.rs:478-489 | adds one row under a new id |
| `CertDatabase.Database.RevokeCertificate` | backend/src/db.rs:667-674 | marks one row revoked and touches no content |
| `CertDatabase.Database.SetCertSerial` | backend/src/db.rs:1212-1220 | sets the serial text of the current version only |
| `CertDatabase.Database.UpdateRenewMethod` | backend/src/db.rs:658-665 | changes nothing but the renewal method |
| `CertDatabase.Database.GetRevokedCerts` | backend/src/db.rs:365-394 | lists each revoked current row of the CA once and no other, in any order |
| `CertDatabase.Database.GetRevokedHistorySerials` | backend/src/db.rs:1344-1358 | lists each historical version of the CA whose row is revoked and whose serial text is present, by the version's own CA |
| `CertDatabase.Database.CreateCrlParams` | backend/src/api.rs:1981-2010 | computes exactly the specified entries, failing exactly when a listed current serial is unreadable and skipping malformed historical ones |
| `CertDatabase.Database.CreateKrlParams` | backend/src/api.rs:2012-2024 | computes exactly the serials of the CA's revoked current rows, failing exactly when one is unreadable |
| `CertDatabase.Database.GetCertStatus` | backend/src/db.rs:1291-1334 | answers with the dates, CA and revocation of a matching current row if there is one, else of a matching historical version, whose revocation is its row's, else with nothing |
| `CertDatabase.Database.ValidateCertificate` | backend/src/api.rs:2314-2352 | refuses an empty serial, otherwise judges an answer of the lookup at the current time |
| `CertHandlers.ReplacementsExtend` | backend/src/api.rs:1093-1108 | of the four paths, each asks for a replacement that ends later than the current version unless an administrator forces it, with its serial recorded, and never binds an ACME row to a CA |
| `CertHandlers.HandleKeepsInv` | backend/src/api.rs:953-1230 | every request keeps history below the current version, serials recorded, SSH rows without history and ACME rows without a CA, and expiry increasing with the version unless forced |
| `CertHandlers.ServeKeepsInv` | backend/src/notification/notifier.rs:30-118 | the same over every run of requests |
| `CertEffects.CreateStoresTheRequest` | backend/src/db.rs:478-489 | a new row holds what the request says, at version 1, unrevoked, and nothing else changes |
| `CertEffects.AcmeCreateStoresTheRequest` | backend/src/db.rs:1739-1759 | a certificate from an ACME provider starts without password and CA, as a TLS server certificate with a notice armed |
| `CertEffects.ManualReplacement` | backend/src/api.rs:982-1205 | exactly which uploads go through, and the content, dates, CA, renewal method and filed version they leave |
| `CertEffects.InternalRenewal` | backend/src/notification/notifier.rs:92-100 | exactly which rows the internal CA renews at a tick, and the content, dates and CA they then have |
| `CertEffects.AcmeRenewalByWatcher` | backend/src/notification/notifier.rs:53-63 | exactly which rows the watcher renews by ACME, and what they then hold |
| `CertEffects.AcmeRenewalByOperator` | backend/src/acme_client/routes.rs:205-266 | the same for an operator's request, who is recorded as the actor |
| `CertEffects.RevocationMarksTheRow` | backend/src/api.rs:2028-2042 | revocation goes through exactly for an unrevoked row, through the API only with a usable CA, and sets the mark alone |
| `CertEffects.DeletionTakesOneVersion` | backend/src/api.rs:1701-1723 | one filed version of an unrevoked row goes and nothing else |
| `CertEffects.DeletionTakesTheRow` | backend/src/db.rs:492-499 | the row and its history go and no other |
| `CertEffects.NoticeIsSpentOnce` | backend/src/notification/notifier.rs:65-108 | exactly which rows spend their notice at a tick |
| `CertEffects.BackfillFillsTheText` | backend/src/db.rs:1222-1241 | exactly the missing serial texts are filled in from the certificate |
| `CertEffects.ListIsWhatTheCaSigned` | backend/src/api.rs:1981-2010 | in every reachable state a CA's list holds exactly the serials this CA signed, as the requests have it, whose row is revoked, wherever renewals moved the row |
| `CertEffects.LookupNamesTheSigner` | backend/src/db.rs:1291-1334 | the public lookup names the CA that signed the version, as the requests have it, and calls it revoked exactly when the row is |
| `CertEffects.NewVersionsAreTheRequests` | backend/src/db.rs:525-562 | every version a request adds is under the CA that signed the request's material |
| `CertRuns.ExpiryNamesVersion` | backend/src/notification/notifier.rs:93-95 | over every unforced run that keeps the row, version and expiry grow together, so row id and expiry identify a version |
| `CertRuns.ReplaceKeepsExpiryIff` | backend/src/api.rs:1100-1108 | a replacement keeps expiry increasing with the version if and only if it ends later than the version it replaces |
| `CertRuns.OnlyForcedDowngradesBreakExpiry` | backend/src/api.rs:1100-1108 | a request breaks increasing expiry if and only if it is a forced replacement that goes through without extending the validity |
| `CertRuns.ExpiryIncreasesUnlessForced` | backend/src/api.rs:1100-1108 | over every run without such a request, on all four paths, expiry increases with the version |
| `CertRuns.ForcedDowngradeHappens` | backend/src/api.rs:1100-1108 | a run with one: a certificate ending at 200 replaced by one ending at 100 |
| `CertRuns.StaleCheckKeepsExpiryIff` | backend/src/acme_client/routes.rs:205-266 | of two replacements checked against one version before either writes, the second keeps expiry increasing if and only if it ends later than the first |
| `CertRuns.StaleCheckHappens` | backend/src/acme_client/routes.rs:205-266 | such a pair in a reachable state |
| `CertRuns.HistoryGrowthIsBounded` | backend/src/notification/notifier.rs:92-100 | over every run up to a time, a row of the internal CA gains at most one version a week counted from its end, and two more |
| `CertRuns.InternalRenewalsAreSpaced` | backend/src/notification/notifier.rs:46-48 | two internal renewals of one row that both replace it are more than a week apart, whatever is served in between |
| `CertRuns.VersionsComeFromOwnPath` | backend/src/db.rs:544-548 | over every run a row keeps its class, and only its own class's path gives it a new version |
| `CertRuns.RenewalKeepsFiring` | backend/src/notification/notifier.rs:53-110 | over every run that keeps it, a row that renews by itself and is not imported keeps its renewal method |
| `CertRuns.ReplacementRearmsNotice` | backend/src/api.rs:1110-1122 | after a manual replacement the row is silent about expiry only if the operator chose so |
| `CertRuns.KrlFromCurrentRowsIsComplete` | backend/src/api.rs:2012-2024 | in every reachable state all revoked versions of an SSH row are current, so the list built from current rows misses none |
| `CertRuns.ServedVersionIsForever` | backend/src/api.rs:1701-1723 | at the grain of requests, a version number denotes the same content until that version or the row is explicitly deleted |
| `CertRuns.RevocationIsFinal` | backend/src/api.rs:1709-1723 | once a row is revoked, the serials it contributes to any CA's list stay on it over every run that keeps the row |
| `CertRuns.VersionsAfter` | backend/src/db.rs:506-571 | after a request each version is an old one with the same bytes, password, dates and CA, or the request's own new material under a new number |
| `CertRuns.ServeKeepsDistinct` | backend/src/db.rs:506-571 | with fresh serials every run keeps serials distinct over rows and history together |
| `CertRuns.ReachableCrlIsExact` | backend/src/api.rs:1981-2010 | in every reachable state a CA's computed list can be built and is exactly the serials of the current and surviving historical versions it signed whose row is revoked |
| `CertRuns.ReachableCrlAgreesWithLookup` | backend/src/db.rs:1291-1358 | in every reachable state with fresh serials, a serial is on a CA's list if and only if the lookup reports it revoked and names that CA, even after a renewal moved the row to another CA |
| `CertRuns.ReachableCrlAgreesWithValidation` | backend/src/api.rs:2314-2352 | the same for the public endpoint's reply, whether the serial is typed in stored form or in upper-case pairs with colons |
| `Revocation.CrlIsExact` | backend/src/api.rs:1981-2010 | the two queries together find exactly the revoked versions the CA signed |
| `Revocation.LookupFindsTheVersion` | backend/src/db.rs:1291-1334 | with distinct serials every possible answer to a lookup is the version that has the serial |
| `Revocation.CrlAgreesWithLookup` | backend/src/data/api.rs:281-296 | list and lookup agree in both directions, whichever matching row the query yields |
| `Revocation.NormaliseOfEncode` | backend/src/api.rs:2318-2323 | a serial queried in stored form is looked up as it is |
| `Revocation.NormaliseOfDisplayed` | backend/src/api.rs:2318-2323 | a serial in upper-case pairs with colons is looked up in stored form |
| `Revocation.NormaliseIgnores` | backend/src/api.rs:2318-2323 | white space and colons anywhere in what was typed make no difference |
| `Revocation.StatusMeans` | backend/src/data/api.rs:281-296 | revoked exactly when the row is; otherwise expired, not yet valid or valid by where the moment lies between the version's dates |
| `Hex.DecodeOfEncode` | backend/src/api.rs:1932-1945 | rendering a serial and decoding it gives the bytes back, for every non-empty serial |
| `Hex.EncodeOfDecode` | backend/src/api.rs:1932-1945 | whatever text decodes is the rendering of its bytes up to letter case |
| `Hex.EncodeInjective` | backend/src/api.rs:1190-1191 | different serials have different texts |
| `Hex.TwoBytes` | backend/src/api.rs:1952-1955 | high digit first and in lower case |
| `RenewalClock.NestedDivisions` | backend/src/certs/tls_cert.rs:78-87 | the four truncating divisions are one division by a day, cut off below at 14, also for negative lifetimes |
| `RenewalClock.RenewalExtends` | backend/src/notification/notifier.rs:93-95 | a row found due and renewed afterwards always ends more than a week later than before |
| `RenewalClock.DaysNeverShrink` | backend/src/certs/tls_cert.rs:382-395 | the day count never shrinks over a renewal and is unchanged if and only if the builder took less than a day |
| `RenewalClock.DaysOverAllRenewals` | backend/src/certs/tls_cert.rs:78-87 | the same over any number of renewals |
| `RenewalClock.RenewalsAreSpaced` | backend/src/notification/notifier.rs:46-48 | in any chain of renewal dates two renewals are more than a week apart per renewal between them |
| `Agent.Reconciler.Domain` | api-client/internal/reconcile/reconcile.go:89-167 | the pass, step by step and with a failure anywhere, is the specified pass |
| `AgentEffects.MissingOrRevokedIsNotFound` | api-client/internal/reconcile/reconcile.go:181-187 | a certificate missing or revoked when the list is answered is not found, no other is, and the host stays as it was |
| `AgentEffects.OnlyLiveCertificatesAreDeployed` | api-client/internal/reconcile/reconcile.go:181-187 | whatever is deployed or skipped was there and unrevoked when the list was answered |
| `AgentEffects.SkippedIff` | api-client/internal/reconcile/reconcile.go:113-125 | skipped exactly when certificate id and expiry are the saved ones, some serial is saved and nothing failed on the way |
| `AgentEffects.DeployedMeans` | api-client/internal/reconcile/reconcile.go:139-177 | what was downloaded is saved with the id and the listed expiry, and if new is in place and loaded |
| `AgentEffects.FailedMeans` | api-client/internal/reconcile/reconcile.go:89-177 | which failures leave a new record or other files, and that none changes what the service runs |
| `AgentEffects.QuietPassIs` | api-client/internal/reconcile/reconcile.go:89-177 | the whole of an undisturbed pass, case by case |
| `Agent.PassKeepsSound` | api-client/internal/reconcile/reconcile.go:113-165 | whatever the store serves between the steps and wherever the pass fails, the saved serial and expiry stay those of versions of the row and the destination matches the saved serial or the store is ahead of it |
| `Agent.SkipMeansUpToDate` | api-client/internal/reconcile/reconcile.go:113-125 | the cheap skip implies the destination is intact and holds exactly the serial of the version that was current when the list was answered |
| `Agent.SkipIsAlwaysSound` | api-client/internal/reconcile/reconcile.go:113-125 | the same after any number of passes from an empty store and an untouched destination |
| `Agent.RunsWhatIsRecordedIff` | api-client/internal/reconcile/reconcile.go:146-177 | after any passes with any failures the service runs what the record names if and only if the last pass that recorded another serial did not fail at the reload command |
| `Agent.SkipMeansLoadedIff` | api-client/internal/reconcile/reconcile.go:113-177 | a skip means that the service has loaded the current certificate if and only if the same holds |
| `Agent.PassKeepsOwing` | api-client/internal/reconcile/reconcile.go:146-177 | each pass keeps the service at a recorded version no later than the saved one, and settles whether a reload is owed exactly when it records another serial |
| `Agent.FailedReloadIsNotRetried` | api-client/internal/reconcile/reconcile.go:163-177 | after a pass that failed at the reload the destination is current, the service runs another serial, and the next pass skips |
| `Agent.ReachableFailedReload` | api-client/internal/reconcile/reconcile.go:163-177 | the same wherever a new serial is due after any passes from an empty store |
| `Agent.ReplacementIsNoticedIff` | api-client/internal/reconcile/reconcile.go:113-125 | a replacement on any path, forced or not, is deployed by the next pass if and only if it changes the expiry, which unforced ones always do |
| `Agent.RecreationIsNoticedIff` | api-client/internal/reconcile/reconcile.go:113-125 | a certificate created under a deleted one's row id is deployed by the next pass if and only if the two end at different times |
| `Agent.ForcedReplacementGoesUnnoticed` | backend/src/api.rs:1093-1108 | a run: a forced replacement that ends when its predecessor did, and a pass that skips it |
| `Agent.RecreationGoesUnnoticed` | api-client/internal/reconcile/reconcile.go:113-125 | a run: a certificate deleted, another created under its row id with the same end, and a pass that skips it |
| `Agent.UndisturbedPassConverges` | api-client/internal/reconcile/reconcile.go:127-165 | after any history of failures one undisturbed pass deploys the current serial and the next one skips |
| `Agent.ServeAllKeepsSound` | backend/src/db.rs:533-562 | what the store serves keeps later versions ending later with serials of their own |
| `TrustBundle.Slug` | api-client/internal/catrust/bundle.go:76-98 | the loop with its dash flag computes the specified slug |
| `TrustBundle.SlugIsTidy` | api-client/internal/catrust/bundle.go:74-98 | every slug is 1 to 40 lowercase letters, digits and single inner dashes |
| `TrustBundle.SlugFixesTidy` | api-client/internal/catrust/bundle.go:74-98 | a name is its own slug if and only if it is such a fragment |
| `TrustBundle.SlugIsWords` | api-client/internal/catrust/bundle.go:76-98 | the slug is the name's words, lowered and joined by dashes, "ca" if there are none, cut after forty characters |
| `TrustBundle.FileNamesCollideIff` | api-client/internal/catrust/bundle.go:54-57 | two certificates share a file name exactly when slug and the first eight fingerprint digits agree |
| `TrustBundle.FileNameParts` | api-client/internal/catrust/bundle.go:54-57 | mark, slug, fingerprint start and extension, with dashes between |
| `TrustBundle.ParseBundle` | api-client/internal/catrust/bundle.go:31-72 | the loop yields the first certificate of every fingerprint in order, or the error of the first bad block or of trailing bytes |
| `TrustBundle.ParsedIff` | api-client/internal/catrust/bundle.go:31-72 | accepted exactly when every block is a certificate and nothing follows; otherwise which error |
| `TrustBundle.DedupIsDistinct` | api-client/internal/catrust/bundle.go:50-53 | no fingerprint is installed twice |
| `TrustBundle.DedupCovers` | api-client/internal/catrust/bundle.go:50-58 | every certificate of the bundle is represented |
| `TrustBundle.DedupOrigin` | api-client/internal/catrust/bundle.go:50-58 | every anchor stands for the first certificate of its fingerprint |
| `TrustBundle.DedupInOrder` | api-client/internal/catrust/bundle.go:50-58 | the anchors come in the order of their blocks |
| `TrustSync.SameSizeSameMap` | api-client/internal/catrust/catrust.go:182-196 | equal counts and distinct fingerprints leave no room for an extra entry in the record |
| `TrustSync.PlaceHolds` | api-client/internal/catrust/catrust.go:103-119 | the file of an anchor holds that anchor's certificate unless a later one has its name |
| `TrustSync.StemDropsExtension` | api-client/internal/catrust/catrust.go:241-243 | the temporary name drops exactly the extension |
| `TrustSync.Machine.NeedsSync` | api-client/internal/catrust/catrust.go:182-196 | false if and only if nothing is pending, the record is exactly the bundle's map and every file is there |
| `TrustSync.Machine.SweepStaleTempAnchors` | api-client/internal/catrust/catrust.go:211-225 | only half-written files of the agent's own are removed, all of them on success |
| `TrustSync.Machine.WriteAnchor` | api-client/internal/catrust/catrust.go:240-254 | the anchor is in place whole or not at all; a failure leaves at most a temporary file |
| `TrustSync.Machine.PlaceAnchors` | api-client/internal/catrust/catrust.go:103-119 | each placed file holds its own anchor; on a failure the record is made to own what was placed and everything the previous run left |
| `TrustSync.Machine.RetireAnchors` | api-client/internal/catrust/catrust.go:123-143 | on a failure exactly the retired anchors not yet removed stay on record, whatever the map order |
| `TrustSync.Machine.Sync` | api-client/internal/catrust/catrust.go:74-158 | every outcome of a run, with an error at any step, leaves what the relation allows for it |
| `TrustRuns.SuccessMeansInSync` | api-client/internal/catrust/catrust.go:120-157 | a success leaves the record equal to the bundle's map, retired files gone, the command applied, and every named file present exactly when no retired name collides |
| `TrustRuns.SyncedHoldsTheBundle` | api-client/internal/catrust/catrust.go:103-157 | with file names of their own, after a success every anchor of the bundle is in place with its own bytes |
| `TrustRuns.FinishedHoldsTheAnchors` | api-client/internal/catrust/catrust.go:103-157 | in general: the last anchor of a name, or nothing when a retired one had the name, whether or not the recording and the command succeed |
| `TrustRuns.WriteFailedHoldsThePlaced` | api-client/internal/catrust/catrust.go:104-119 | after a failure while placing, the anchors before it are in place with their own bytes |
| `TrustRuns.RemoveFailedHoldsTheRest` | api-client/internal/catrust/catrust.go:123-143 | after a failure while removing, all are but for names already removed |
| `TrustRuns.SuccessIsInSync` | api-client/internal/catrust/catrust.go:144-157 | with injective names a success always ends in sync |
| `TrustRuns.CollisionLosesTheAnchor` | api-client/internal/catrust/catrust.go:120-143 | two certificates with one file name, the second replacing the first in the bundle: both runs succeed and the anchor is missing |
| `TrustRuns.CollisionHappens` | api-client/internal/catrust/bundle.go:54-57 | two such certificates |
| `TrustRuns.SecondSuccessIsInSync` | api-client/internal/catrust/catrust.go:120-157 | a second success with the same bundle always ends in sync |
| `TrustRuns.RepeatIsQuiet` | api-client/internal/catrust/catrust.go:90-92 | a repeated run in that state changes nothing and runs no command |
| `TrustRuns.NoAnchorIsOrphaned` | api-client/internal/catrust/catrust.go:104-148 | over any sequence of runs with errors anywhere, every anchor ever written that is still there is on record |
| `TrustRuns.QuietMeansApplied` | api-client/internal/catrust/state.go:18-20 | whenever the next run finds nothing to do, the update command has succeeded since the agent last changed a file |
| `TrustRuns.RunSparesForeign` | api-client/internal/catrust/catrust.go:120-143 | no run, whatever its outcome, removes, changes or claims a file that is not the agent's |
| `TrustRuns.ForeignFilesUntouched` | api-client/internal/catrust/state.go:14-16 | nor does any sequence of runs |
| `TrustRuns.StepKeepsTracked` | api-client/internal/catrust/catrust.go:94-158 | each run or outside change keeps ownership of what was written and the pending flag's meaning |
| `DomainMatch.MatchesDomainMeansLabels` | backend/src/acme/domain.rs:12-36 | for every valid name and every pattern the string matcher means what the label lists say: one label for `*.`, one or more for `**.`, otherwise equality ignoring case |
| `DomainMatch.CheckDomainsMeansLabels` | backend/src/acme/domain.rs:73-83 | a request passes if and only if it is not empty and each name is under some pattern of the list |
| `DomainMatch.WildcardDepth` | backend/src/acme/domain.rs:5-11 | a single wildcard reaches exactly one label deep, a double one deeper too, neither the bare suffix |
| `DomainMatch.WildcardsOnAnyText` | backend/src/acme/domain.rs:20-32 | what the two wildcards ask of any text, valid name or not |
| `DomainMatch.ValidNameHasLabels` | backend/src/acme/domain.rs:41-69 | a valid name has no empty label once trimmed and lowered |
| `DomainMatch.ValidLabelListIff` | backend/src/acme/domain.rs:41-69 | exactly which label lists make a valid name: letters, digits and inner hyphens, 1 to 63 each, 253 in all, not four numbers, a wildcard in front allowed |
| `DomainMatch.ValidNameIsALabelList` | backend/src/acme/domain.rs:41-69 | every valid name is such a list, blanks around it aside |
| `DomainMatch.CaseDoesNotMatter` | backend/src/acme/domain.rs:13-14 | matching ignores the case of both sides |
| `DomainMatch.ExactPatternMatches` | backend/src/acme/domain.rs:33-35 | a pattern without wildcard matches exactly the same characters, case and surrounding blanks aside |
| `DomainMatch.TrimIs` | backend/src/acme/domain.rs:42-45 | trimming takes the blanks off both ends and nothing else |
| `AcmeOrders.RunIsSound` | backend/src/acme/routes.rs:354-692 | every interleaving of database steps keeps rows as created, valid identifiers proved and issued names those ordered |
| `AcmeOrders.ValidatedBeforeReadyOrIssued` | backend/src/acme/routes.rs:609-680 | in every interleaving an order is ready or valid, or a certificate exists for it, only if each of its identifiers had a validation accepted earlier in the run |
| `AcmeOrders.IssuedNamesWereOrderedAndPermitted` | backend/src/acme/routes.rs:403-471 | a certificate row carries exactly the ordered names and the order's end date, each name valid and under a pattern of the account as it was when the order was created |
| `AcmeOrders.SignedEndIsNearStoredEnd` | backend/src/acme/routes.rs:445-471 | the end the certificate itself carries, whole days from the clock at signing, is less than a day and a second before the row's and never after it by more than the time between check and signing |
| `AcmeOrders.WildcardsNeedDns` | backend/src/acme/routes.rs:618-621 | in every interleaving a wildcard, blanks around it not counted, is accepted on an http-01 challenge only if it was sent with a blank in front |
| `AcmeOrders.WildcardRuleAppliesIff` | backend/src/acme/routes.rs:618-621 | the rule applies to a wildcard if and only if no blank comes first |
| `AcmeOrders.HttpAcceptsWildcardIff` | backend/src/acme/routes.rs:618-621 | some run accepts a valid wildcard on an http-01 challenge if and only if it begins with a blank |
| `AcmeOrders.SpacedWildcardIsAccepted` | backend/src/acme/domain.rs:41-47 | for every blank, the run that accepts "*.a" with that blank in front |
| `AcmeOrders.SpaceAndFormFeedAreAccepted` | backend/src/acme/domain.rs:41-47 | the two names with a space and a form feed |
| `AcmeOrders.FirstRefusalFindsAll` | backend/src/acme/routes.rs:279-293 | the check passes exactly when every identifier is an acceptable DNS name |
| `AcmeOrders.AcceptedMeansAStep` | backend/src/acme/routes.rs:625-666 | an accepted validation goes back to one step of the run, with the lookup's answer or an account exempt from it |
| `AcmeHandlers.ChallengeSteps` | backend/src/acme/routes.rs:579-694 | the uninterrupted steps of a challenge request have the handler's effect |
| `AcmeHandlers.FinalizeSteps` | backend/src/acme/routes.rs:392-509 | the uninterrupted steps of a finalize request have the handler's effect |
| `AcmeHandlers.WholeHandlersAreConsistent` | backend/src/acme/routes.rs:457-502 | after whole handlers: ready or valid means all identifiers valid, pending means some is not, a certificate is set exactly when valid, at most one certificate per order |
| `AcmeHandlers.SettledOrdersStay` | backend/src/acme/routes.rs:410-412 | no whole handler changes a valid order, or one whose issuance failed |
| `AcmeHandlers.ValidForever` | backend/src/acme/routes.rs:502-503 | over any run of whole handlers valid is never left and the certificate never changes |
| `AcmeHandlers.WholeHandlersAreARun` | backend/src/acme/routes.rs:392-694 | runs of whole handlers are among the interleavings, so everything proved for those applies |
| `AcmeHandlers.FailedOrderCanRecoverIff` | backend/src/acme/routes.rs:672-680 | a failed order can still become ready if and only if some identifier of it is not valid |
| `AcmeEffects.ChallengeAnswers` | backend/src/acme/routes.rs:592-621 | whose order it is, whether the identifier is there and unvalidated, and the wildcard rule, each with its error, in that order |
| `AcmeEffects.ValidationAnswers` | backend/src/acme/routes.rs:625-630 | the account has to exist and to have a usable key; otherwise which error |
| `AcmeEffects.FinalizeAnswers` | backend/src/acme/routes.rs:403-420 | whose order it is, whether it is ready and unexpired; otherwise which error |
| `AcmeEffects.NewOrderAnswers` | backend/src/acme/routes.rs:254-318 | an order is taken exactly for a known account, acceptable permitted names and room in the account's own quota |
| `AcmeEffects.NewOrderErrors` | backend/src/acme/routes.rs:254-318 | the error of the first check that fails, in the order of the checks |
| `AcmeEffects.RefusalIsTheFirst` | backend/src/acme/routes.rs:279-293 | the first bad identifier decides the error |
| `AcmeEffects.StrangersChangeNothing` | backend/src/acme/routes.rs:596-600 | a challenge or finalize request of another account changes nothing |
| `AcmeEffects.AcceptedFromTheOwner` | backend/src/acme/routes.rs:596-666 | in every interleaving each validation is accepted from the account that placed the order, with a usable key, and by the lookup's answer or its exemption |
| `AcmeEffects.OwnerValidatedBeforeIssued` | backend/src/acme/routes.rs:596-680 | so each identifier of a ready, valid or certified order was accepted from its owner |
| `AcmeEffects.PlacedOrderIs` | backend/src/acme/routes.rs:320-350 | every field of a new order |
| `AcmeEffects.ChallengeChanges` | backend/src/acme/routes.rs:609-685 | exactly when a challenge is decided, and every field of the order afterwards |
| `AcmeEffects.FinalizeChanges` | backend/src/acme/routes.rs:403-503 | exactly when a finalize request gets to the signing, and order and certificate afterwards |
| `AcmeEffects.CleanupChanges` | backend/src/db.rs:1155-1168 | exactly the expired orders go |
| `AcmeInterleaving.StepKeepsOneEachIff` | backend/src/acme/routes.rs:484-503 | the only step that gives an order a second certificate is storing one for an order that has one |
| `AcmeInterleaving.StepKeepsAtMostOnceIff` | backend/src/acme/routes.rs:403-420 | certificates and finalize requests under way stay at most one per order under exactly the steps that do not let a finalize request through for an order that has either |
| `AcmeInterleaving.CarefulRunsIssueOnce` | backend/src/acme/routes.rs:403-503 | in every interleaving that lets none through for such an order, crashes included, no order gets two certificates |
| `AcmeInterleaving.CarefulIff` | backend/src/acme/routes.rs:403-503 | that care is exactly what keeps certificates and requests to one per order all through the run |
| `AcmeInterleaving.IssuesOnceFromIff` | backend/src/acme/routes.rs:403-503 | no continuation without new finalize requests gives an order two certificates if and only if there is at most one certificate or request under way for each |
| `AcmeInterleaving.StepLeavesValidIff` | backend/src/acme/routes.rs:672-685 | a step takes an order out of valid if and only if it is another request's late write of ready or invalid |
| `AcmeInterleaving.ValidStaysIff` | backend/src/acme/routes.rs:609-685 | a valid order stays valid in every continuation if and only if all its identifiers are valid and every request in flight for it is about to write a certificate's result |
| `AcmeInterleaving.InterleavedFinalizesIssueTwice` | backend/src/acme/routes.rs:402-503 | from any ready order two interleaved finalize requests issue two certificates |
| `AcmeInterleaving.TwoCertificatesInSomeRun` | backend/src/acme/routes.rs:402-503 | a run from nothing in which they do |
| `AcmeInterleaving.LateReadyUndoesValid` | backend/src/acme/routes.rs:672-680 | a challenge request's late write takes a finalized order out of valid |
| `AcmeInterleaving.LateReadyIsReachable` | backend/src/acme/routes.rs:609-680 | two challenges of one name, advanced in turn, leave such a write outstanding beside a ready order |
| `AcmeInterleaving.ValidIsLeftInSomeRun` | backend/src/acme/routes.rs:609-680 | a run from nothing in which valid is left |
| `AcmeHandlers.StepsFollowQuota` | backend/src/acme/routes.rs:302-321 | the order table moves exactly as the quota model says |
| `AcmeHandlers.OrderDesk.NewOrder` | backend/src/acme/routes.rs:247-371 | refuses with the first applicable error and no change, else stores a pending order |
| `AcmeHandlers.OrderDesk.CheckIdentifiers` | backend/src/acme/routes.rs:279-293 | the loop returns the first bad identifier's error |
| `AcmeHandlers.OrderDesk.GetChallenge` | backend/src/acme/routes.rs:579-694 | the handler's in-place updates are its uninterrupted steps; a stranger is refused and changes nothing; which of its answers it gives in every case |
| `AcmeHandlers.OrderDesk.RecordVerdict` | backend/src/acme/routes.rs:669-686 | identifier first, then the order: ready once all are valid, invalid after a failed validation |
| `AcmeHandlers.OrderDesk.FinalizeOrder` | backend/src/acme/routes.rs:392-509 | succeeds exactly when the order is the account's, ready and unexpired, the payload parses, account and CA exist and the CA signs; then the order is valid with the new certificate; otherwise which error |
| `AcmeHandlers.OrderDesk.UpdateOrderStatus` | backend/src/db.rs:1075-1089 | sets status and certificate of one row, nothing if it is gone |
| `AcmeHandlers.OrderDesk.UpdateIdentifierStatus` | backend/src/db.rs:1139-1153 | sets one identifier's status in place |
| `AcmeHandlers.OrderDesk.CleanupExpiredOrders` | backend/src/db.rs:1155-1168 | deletes exactly the orders whose expiry has passed |
| `AcmeRateLimit.CleanupIsInvisibleIff` | backend/src/db.rs:1155-1168 | removing every cleanup changes no quota decision of any run if and only if no request's clock readings are more than a millisecond apart |
| `AcmeRateLimit.WindowIsSafeIff` | backend/src/acme/routes.rs:302-321 | the longest window that holds at most the limit's orders per account over every run, deleted ones counted: 24 hours when the readings agree, else shorter by one less than their distance |
| `AcmeRateLimit.WindowsAreBounded` | backend/src/db.rs:1024-1062 | the bound itself, for every run, account and window |
| `AcmeRateLimit.OrderQuota.PlaceOrder` | backend/src/acme/routes.rs:307-321 | admits exactly while fewer than the limit are recent |
| `AcmeRateLimit.OrderQuota.CountRecent` | backend/src/db.rs:1047-1062 | counts the account's orders created within the window |
| `AcmeQuotaRaces.RacesKeepIff` | backend/src/acme/routes.rs:307-350 | in every interleaving of counting, storing, failing and cleanup, the least bound on a window is the limit plus one less than the number of an account's requests ever under way together |
| `AcmeQuotaRaces.StepKeepsWithinIff` | backend/src/acme/routes.rs:307-350 | exactly which step breaks a bound: a request let through while stored orders and requests under way fill the window that ends now |
| `AcmeQuotaRaces.RunKeepsWithin` | backend/src/db.rs:1024-1062 | the bound itself, for every run, account and window |
| `AcmeNonces.AcceptedWithinItsHour` | backend/src/db.rs:1185-1199 | in every interleaving an accepted nonce was issued less than an hour before |
| `AcmeNonces.AcceptedAtMostOnce` | backend/src/db.rs:1185-1199 | and is never accepted again |
| `AcmeNonces.AcceptedIff` | backend/src/db.rs:1170-1199 | in every interleaving a consumption is accepted exactly when the nonce was issued less than an hour before and nothing was accepted for it since |
| `AcmeNonces.SweepsAreInvisible` | backend/src/db.rs:1370-1384 | removing every sweep from any run changes no verdict |
| `AcmeNonces.ReplayIsRejected` | backend/src/acme/jws.rs:385-440 | presenting the same request again never authenticates, whatever is issued, consumed and swept in between, and fails on the nonce if it got that far the first time |
| `AcmeNonces.AuthenticIff` | backend/src/acme/jws.rs:385-440 | authentic exactly when the request parses, names one key by id, carries a live nonce and the right URL, and its signature holds |
| `AcmeNonces.VerdictIsTheFirstFailure` | backend/src/acme/jws.rs:385-440 | the first check that fails names the verdict; the nonce is gone exactly when it was found live |
| `AcmeNonces.NonceTable.ValidateAndDelete` | backend/src/db.rs:1185-1199 | one conditional delete decides and consumes |
| `AcmeNonces.NonceTable.AuthenticateJws` | backend/src/acme/jws.rs:380-440 | the nonce is consumed before URL, key and signature are looked at, and all of them have to hold |
| `AcmeNonces.NonceTable.OnResponse` | backend/src/acme/nonce.rs:17-34 | a fresh nonce survives the sweep that follows its insertion |
| `Sessions.GapIsSafeIff` | backend/src/auth/session_auth.rs:236-270 | a user who always presents the newest cookie is never rejected, over runs of any length, if and only if requests are at most 899 seconds apart |
| `Sessions.EveryFifteenMinutesIsTooSeldom` | backend/src/auth/session_auth.rs:82-84 | visits every 900 seconds end in a rejection |
| `Sessions.ReplacedTokenDies` | backend/src/auth/session_auth.rs:261-267 | a replaced token is never accepted 60 seconds or more after its replacement, however often replayed |
| `Sessions.ReplacedTokenHasGrace` | backend/src/auth/session_auth.rs:249-267 | from the end of the replacing request until then it is accepted exactly as long as its own entry would have stood |
| `Sessions.AcceptedExactly` | backend/src/auth/session_auth.rs:224-240 | a service token is accepted exactly until its own expiry, a human one exactly while its entry is alive too |
| `Sessions.ReplacedExactly` | backend/src/auth/session_auth.rs:236-259 | a token is replaced exactly when it is an accepted human's from a cookie with less than fifteen minutes left and a new one can be minted |
| `Sessions.ReplacementLeaves` | backend/src/auth/session_auth.rs:252-269 | an hour for the new token, at most sixty seconds more for the old, and no change to any other that is alive |
| `Sessions.OtherEventsLeave` | backend/src/auth/session_auth.rs:272-328 | what a login, a logout and any other request leave of every entry |
| `Sessions.StoredExpiryOnlyShrinks` | backend/src/auth/session_auth.rs:59-64 | over every run that does not register it again, an entry never grows and, once gone, stays gone |
| `Sessions.EntriesDieWithTheirTokens` | backend/src/auth/session_auth.rs:59-64 | over every run no entry outlives its token's expiry |
| `Sessions.PruningIsInvisible` | backend/src/auth/session_auth.rs:73-79 | dropping dead entries changes no verdict of any run |
| `Sessions.SessionStore.AuthenticateToken` | backend/src/auth/session_auth.rs:211-247 | accepts exactly unexpired service tokens and live registered ones, and renews exactly late cookies as far as minting works |
| `Sessions.SessionStore.RenewIfNeeded` | backend/src/auth/session_auth.rs:252-270 | hands out a fresh token and shortens the old one's entry, never lengthening it; a failure to mint leaves the old one alone |
| `Sessions.SessionStore.GenerateToken` | backend/src/auth/session_auth.rs:277-298 | registers the identifier first and leaves it registered when signing fails |
| `Sessions.SessionStore.RegisterJti` | backend/src/auth/session_auth.rs:74-79 | drops exactly the dead entries and adds the new one |
| `Krl.Authority.CreateKrl` | backend/src/certs/ssh_cert.rs:286-344 | the growing buffers end up as the specified nested format, with the list number raised by one |
| `Krl.DecodeOfKrl` | backend/src/certs/ssh_cert.rs:286-344 | decoding gives back exactly version, date, CA key and serials, for every list of 8-byte serials, if and only if the framed section's length fits in 32 bits |
| `Krl.BodyRoundTripIff` | backend/src/certs/ssh_cert.rs:309-341 | the certificate section round-trips under exactly that condition |
| `Krl.SerialsOfFlatten` | backend/src/certs/ssh_cert.rs:330-333 | the serial list is recovered from the concatenation of 8-byte serials |
| `Krl.FirstByteCountsMost` | backend/src/certs/ssh_cert.rs:291-300 | numbers are read most significant byte first |

## Left out

- X.509, PKCS#12, PEM, signatures, JWT encoding and OIDC: certificate data is a value with a serial; signature checks are booleans.
- HTTP, SQL text, SQLite, mail, DNS and HTTP validation, settings, audit records, metrics, the frontend: plumbing; their answers are parameters.
- Accounts, groups, users, service accounts and providers: easy create, read, update and delete.
- Integer width: versions, list numbers and times are unbounded; the KRL's list number and date are assumed to fit in 64 bits.
- The CRL and KRL files cached on disk: claims are about the lists as computed, not about when they are rewritten.
- Deletion of an ACME provider or of a certificate an order points to: foreign-key actions are in migrations that are not modelled.
- The surrogate `version_id` of a history row and fingerprint backfilling: never consulted by the modelled operations.
- Agent.Reconciler.Domain: the target's apply is one step that leaves the destination intact, untouched or mixed; metrics, status reports and the time stamps in the saved state are left out, and the serial is the serial number itself, not its text.
- Domains selected by name instead of certificate id: the skip is claimed for pinned ids only.
- Agent.SkipIsAlwaysSound: assumes no forced downgrade and no reuse of a deleted certificate's row id; `Agent.ReplacementIsNoticedIff` and `Agent.RecreationIsNoticedIff` say exactly what happens otherwise.
- TrustSync.Machine.Sync: a stat error other than absence is left out. Process death in mid-run has no outcome of its own: it leaves what a failure at the same point with an unwritten record leaves, and the claims over many runs assume there is none.
- Lowercasing of text outside ASCII: letters beyond ASCII are not lowered, including the few whose lower case is an ASCII letter.
- Hex texts are sequences of characters where the program decodes bytes; the two differ only on non-ASCII text, which neither accepts.
- AcmeHandlers.OrderDesk.NewOrder: the account lookup, the count and the insertion are one step there; `AcmeQuotaRaces` separates count and insertion.
- AcmeNonces.NonceTable.OnResponse: the expired-order cleanup that the same hook runs is `AcmeHandlers.OrderDesk.CleanupExpiredOrders`.
- AcmeHandlers.WholeHandlersAreConsistent: assumes handlers run uninterrupted and no write fails; `AcmeInterleaving` says exactly what holds otherwise.
- Sessions.SessionStore.AuthenticateToken: the signature library's leeway is a parameter, and what a service token may do is left out.
