# Gordon, verified models

Gordon is a self-hosted container platform: a registry with a garbage collector, a proxy with a traffic graph and public
certificates, zero-downtime deploys, and the timers around them. This project models its stateful algorithms in Dafny and
proves what each of them is for. `dafny verify dfyconfig.toml` checks everything.

The parts, each in the modules named:

- **Registry garbage collection** (`ManifestGraph`, `Marking`, `Ownership`, `Retention`, `Registry`, `RegistryState`,
  `RegistryService`, `PruneLaws`, `RegistryRuns`). A prune marks from the kept tags, depth first, over a manifest graph
  that may be cyclic, shared or incomplete, and sweeps the rest; a breadth-first worklist decides ownership. Manifest bytes
  are what JSON decoding makes of them: not at all, only for the collector's smaller struct, or fully. `RegistryRuns`
  interleaves uploads, pushes, deletions, prunes and daemon restarts under the read/write lock. A step of a writer is one
  storage call, one clock reading or one critical section; a repository's retention and marking is one step, because
  nothing else touches repositories while a prune holds the lock.
- **Traffic graph** (`ServerNames`, `Traffic`, `TrafficTerms`, `TrafficValidator`, `TrafficRouters`, `TrafficLaws`). The
  incremental validator over its maps accepts exactly the graphs that satisfy a pairwise specification, including
  wildcard server names (section 3 of RFC 6066); `TrafficTerms` says what that amounts to for the fields of a graph.
- **Public certificates** (`Certificates`, `ObtainCursor`, `PublicTLS`). Targets derived from routes cover their hosts, a
  reconcile with nothing missing serves every required host, and the rotating batch starves no target.
- **Deploy protocol** (`Deploy`, `DeployService`). One domain as a state machine: deploys under the lock, their finalisers,
  containers that change status at any moment, failing runtime calls, and restarts of the daemon. `DeployService` is the
  code of a deploy and of a finaliser, each call of which is logged as a step, so that its log is a run of the protocol.
- **Timed machines** (`Calendar`, `Cron`, `CrashMonitor`, `Secrets`). The scheduler over the whole Gregorian calendar, the
  crash-loop monitor, and the debounced secrets handler with late callbacks.
- **Order and chunk independence** (`LogLines`, `VolumeTargets`). The framed log decoder and the choice of volumes to back
  up.

`Options`, `Text`, `Sorting` and `Sums` hold what these share. `Sorting.SortSlice` promises a sorted permutation and
nothing more, so callers are proved for every behaviour of an unstable sort. Loops over Go maps take the keys in any
order.

Definitions that the code and its specification share are tied down by statements that use only fields of the data,
literal names and numbers: `ManifestGraph.OwnedByChain`, `Retention.KeptByTime`, `RegistryService.PrunedInPlainTerms`,
`TrafficTerms.AcceptedIff`, `Certificates.RouteDomainByLabels`, `PublicTLS.PossessionIff`, `DeployService.CleanedMeans`,
`Cron.SlotsInNumbers`, `LogLines.LineByLine`, `VolumeTargets.OnOfferIff` and others of their kind.

Some properties one might expect do not hold of the code. For each the project shows an input and the exact condition:

- a second prune may delete blobs when a tag list holds a digest (`PruneLaws.LegacyDigestLosesItsBlob`): listing does not
  filter digests, while every rewrite of a tag list does. `PruneLaws.SecondPrune` says exactly when it deletes none;
- a blob named only by a `blobs` descriptor is owned but collected (`PruneLaws.BlobsDescriptorIsNotCollected`).
  `PruneLaws.OwnedBlobsSurviveIff` says exactly when all owned blobs survive;
- an announced backoff may end early (`CrashMonitor.ClearedHistoryEndsABackoffEarly`): the comment on `lastSeen` calls it
  the last time the container was seen running, but it is the first time since the last recorded crash.
  `CrashMonitor.BackoffEndsEarlyIff` says exactly when;
- a callback may deploy after `Stop` (`Secrets.EventAfterStopRevivesALateCallback`). `Secrets.AttemptsIff` and
  `Secrets.AttemptAfterStopIff` say exactly when;
- a restart of the daemon ends the protection of uploads (`RegistryRuns.RestartForgetsUploads`).
  `RegistryRuns.PendingEntryLastsIff` says that nothing else does;
- a temporary container name may be taken after a failed removal (`Deploy.FailedRemovalKeepsTheName`).
  `Deploy.TemporaryNameIsFreeIff` says exactly when it is free;
- a slot may be served twice under a clock that is set back (`Cron.ClockSetBackServesASlotTwice`).
  `Cron.SlotComesRoundAgainIff` says exactly when.

## Model

| member | source | states |
|---|---|---|
| Marking.CollectReferencedDigests | internal/usecase/images/service.go:421-460 | The depth-first mark over a store with cycles, shared and missing manifests: on success everything newly visited is reached from the reference and has its children visited, and exactly the digests of the newly visited manifests are added; it fails only when a reached manifest does not decode. It terminates on the number of stored manifests not yet visited. |
| Marking.CollectChildren | internal/usecase/images/service.go:452-457 | The loop over child manifests keeps the same account, each child digest being referenced whether or not it is stored. |
| Marking.FreshTraversalIsReachability | internal/usecase/images/service.go:421-460 | A traversal that started with nothing visited has visited exactly the references reachable from the tag and gathered exactly their marks. |
| Marking.CollectFromTag | internal/usecase/images/service.go:356-358 | Marking from a tag succeeds if and only if every stored manifest that a walk over `manifests` lists reaches decodes; it then adds precisely the non-empty config, layer and child digests of the manifests at the ends of such walks. |
| ManifestGraph.MarksAreNamed | internal/usecase/images/service.go:421-503 | The marks of a tag in terms of the fields `config`, `layers` and `manifests`: a digest is marked if and only if a walk from the tag ends in a stored manifest that names it in one of the three. |
| Ownership.AppendManifestDigests | internal/usecase/registry/service.go:378-385 | The queue gains exactly the non-empty descriptor digests. |
| Ownership.VisitReference | internal/usecase/registry/service.go:336-366 | One iteration of the worklist either returns a justified answer or keeps the walk invariant: everything seen was reached and does not name the target, the frontier is queued, and seen plus queue stays within 10000, so that the inner limit test is a dead branch. |
| Ownership.ExhaustedMeansUnowned | internal/usecase/registry/service.go:335-368 | When the queue is empty, no manifest reachable from a tag through child and subject edges references the target. |
| Ownership.RepositoryReferencesDigest | internal/usecase/registry/service.go:321-368 | True only when a walk from a tag over `manifests` lists and subjects ends in a manifest that names the target as its config or subject, or among its layers, manifests or blobs; false only when every such walk ends in a stored manifest that decodes and names it nowhere; too many tags exactly above 10000; every other error is justified by the branch that raises it. The loop terminates on the pair (10000 - seen, queue). |
| ManifestGraph.OwnedByChain | internal/usecase/registry/service.go:355-376 | Ownership in terms of the five fields: a digest is owned if and only if such a walk ends in a manifest that names it. |
| Ownership.MarkedIsOwned | internal/usecase/registry/service.go:311-376 | Whatever the collector marks from a tag over fully decoded manifests is owned. |
| Retention.BuildKeptTagSet | internal/usecase/images/service.go:309-328 | Keeps "latest" when present and exactly min(keepLast, count) other tags; a kept one was pushed after every one that goes, or at the same instant with the greater name. |
| Retention.KeptAreNewest | internal/usecase/images/service.go:299-327 | Every kept tag other than "latest" has a later time than every tag that is not kept, or the same time and the greater name. |
| Retention.KeptByTime | internal/usecase/images/service.go:299-328 | The tags with fewer than keepLast newer ones, and "latest", are the tags that rule keeps, whatever the times. |
| Retention.ListingDescends | internal/usecase/images/service.go:299-304 | In the loaded list times descend, and names do among equal times. |
| Retention.KeptStaysKept | internal/usecase/images/service.go:309-328 | Retention applied to any part of what it kept keeps all of it. |
| Registry.KeepTagsTwice | internal/adapters/out/filesystem/manifest.go:326-376 | Deleting references one after the other leaves the same tag list as deleting them together, although each rewrite also drops digests. |
| Registry.SortedTagsAreListing | internal/usecase/images/service.go:284-307 | Any sorted order of the loaded tags lists every tag once, newest first. |
| Text.LessByFirstDifference | internal/usecase/images/service.go:299-304 | The order of strings: a proper prefix comes first, otherwise the first difference decides. |
| Registry.DigestForm | pkg/validation/path.go:26-28 | A digest is "sha256" or "sha512", a colon, and 64 or 128 lower-case hexadecimal digits; nothing else is one. |
| Registry.PutEntryStores | internal/adapters/out/filesystem/manifest.go:336-357 | A push stores the manifest and lists its reference unless that is a digest; other manifests and other tags stay, apart from listed digests. |
| Registry.WithoutRemoves | internal/adapters/out/filesystem/manifest.go:359-376 | Deleting references removes exactly their manifests and their tags, along with listed digests. |
| Registry.PublishedAreNamed | internal/usecase/registry/service.go:387-407 | A publication ends the pending state of exactly the non-empty digests among config, layers, manifests, blobs and subject. |
| Registry.PrunedIsRetained | internal/usecase/images/service.go:230-244 | What retention makes of a repository, by tags, times and entries: of the listed tags exactly those the rule keeps remain, with their manifests. |
| RegistryState.State.AddPending | internal/usecase/registrystate/state.go:26-33 | Records the upload time of the digest, replacing an older one. |
| RegistryState.State.MarkPublished | internal/usecase/registrystate/state.go:36-42 | Forgets exactly the published digests. |
| RegistryState.State.PendingDigests | internal/usecase/registrystate/state.go:45-57 | Returns the entries that are at most 86,400 seconds old and drops exactly the others. |
| RegistryService.Service.PutBlob | internal/usecase/registry/service.go:434-453 | Stores the blob and records it as pending. |
| RegistryService.Service.PutManifest | internal/usecase/registry/service.go:170-240 | A digest reference must match the content; otherwise nothing changes. On success the manifest and its tag are stored, every digest the manifest names stops being pending, and tag lists stay free of duplicates. |
| RegistryService.Service.DeleteManifest | internal/adapters/out/filesystem/manifest.go:124-167 | Fails exactly when the reference is not stored; removes it and rewrites the tag list without it and without digests; tag lists stay free of duplicates. |
| RegistryService.Service.LoadRepositoryTagInfos | internal/usecase/images/service.go:284-307 | Fails exactly when a listed tag has no manifest; otherwise lists all tags by descending time, and by descending name among equal times. |
| RegistryService.Service.DeleteUnkeptManifests | internal/usecase/images/service.go:330-343 | Deletes exactly the tags outside the kept set and counts them. |
| RegistryService.CollectKeptTagDigests | internal/usecase/images/service.go:345-363 | Gathers exactly the marks of all kept tags, each with a fresh traversal; fails if and only if one of them reaches a manifest that does not decode. |
| RegistryService.Service.PruneRepository | internal/usecase/images/service.go:231-248 | One repository: retention, then marking in the store after deletion. |
| RegistryService.Service.PruneRepositories | internal/usecase/images/service.go:230-249 | All repositories in any order give the same tags, manifests, marks and counts. |
| RegistryService.Service.SweepBlobs | internal/usecase/images/service.go:255-270 | Deletes exactly the listed blobs that are neither marked nor pending; reclaimed plus remaining bytes equal the bytes before. |
| RegistryService.Service.PruneRegistry | internal/usecase/images/service.go:207-282 | The whole prune: a no-op for keepLast <= 0; success if and only if every repository can be listed and marked. Then every repository keeps "latest" and its keepLast newest other tags, a pending entry stays if and only if it is at most 24 hours old, and a blob stays if and only if it is not named by a digest, or is pending, or is named by the config, layers or children of a manifest that a kept tag leads to. Bytes and the number of blobs are conserved even on failure, when no blob is touched. |
| RegistryService.PrunedInPlainTerms | internal/usecase/images/service.go:207-282 | The same account of a successful prune as a statement about the states before and after it. |
| PruneLaws.WalksAgree | internal/usecase/registry/service.go:355-365 | When manifests use only config, layers and manifests, whatever the ownership walk reaches the collector reaches too. |
| PruneLaws.OwnedIsMarkedOrBeyond | internal/usecase/registry/service.go:311-376 | Every digest the ownership walk finds is marked, unless it is named by a blobs or subject descriptor or in a manifest reached over subject edges only. |
| PruneLaws.OwnedBlobsSurviveIff | internal/usecase/images/service.go:207-282 | After a successful prune every owned stored blob survives if and only if each stored digest of those two kinds is marked from elsewhere or freshly pending. |
| PruneLaws.OwnedBlobSurvives | internal/usecase/images/service.go:207-282 | In particular: after a successful prune over such manifests, every blob that existed before and that repositoryReferencesDigest accepts for some repository afterwards still exists. |
| PruneLaws.BlobsDescriptorIsNotCollected | internal/usecase/images/service.go:462-473 | The condition can fail: a blob named only by a blobs descriptor is owned by its repository and deleted by the prune. |
| PruneLaws.PruneRepositoryTwice | internal/usecase/images/service.go:230-244 | Retention of a pruned repository changes nothing. |
| PruneLaws.SecondPrune | internal/usecase/images/service.go:207-282 | A second prune at the same clock with no push between leaves tags, manifests and pending entries alone, and deletes no blob if and only if every stored blob that was marked only through a dropped digest reference is pending or reachable from a remaining tag. |
| PruneLaws.SecondPruneRemovesNothing | internal/usecase/images/service.go:207-282 | With no digest in a tag list the second prune removes nothing at all. |
| PruneLaws.LegacyDigestLosesItsBlob | internal/adapters/out/filesystem/manifest.go:359-376 | A digest in a tag list is kept by the first prune, dropped from the list by the rewrite, and its blob is lost by the second. |
| RegistryRuns.InvariantHolds | internal/usecase/registry/service.go:170-261 | In every interleaving of writers, uploads, prunes and daemon restarts under the read/write lock, from any stored state: the prune excludes writers, pending digests are stored, and what has been marked covers every remaining tag. |
| RegistryRuns.DeletedBlobsAreUnreachable | internal/usecase/images/service.go:207-270 | Every blob a prune deletes is, at that moment, unreachable from every remaining tag of every repository and not pending. |
| RegistryRuns.PendingEntryLasts | internal/usecase/registrystate/state.go:26-57 | A pending entry lasts 24 hours from the clock reading, unless a manifest naming the digest is published or the daemon restarts. |
| RegistryRuns.PendingEntryLastsIff | internal/usecase/registrystate/state.go:21-57 | An entry that is neither published nor recorded again is there for its 24 hours if and only if the daemon has not restarted. |
| RegistryRuns.UploadedBlobIsProtected | internal/usecase/registry/service.go:434-453 | A blob recorded as pending by PutBlob stays present for 24 hours, unless a manifest naming it is published or the daemon restarts; the hours count from the earliest clock reading that an upload of it has recorded or is about to record. |
| RegistryRuns.RestartForgetsUploads | internal/usecase/registrystate/state.go:21-23 | The proviso is needed: a run in which the daemon restarts and prunes right after an upload, and the blob is gone. |
| ServerNames.OverlapIsExact | internal/domain/traffic.go:762-777 | wildcardSNIOverlap holds for two wildcards if and only if some host matches both. |
| Text.SpacesAre | internal/domain/traffic.go:731-733 | The code points trimmed as white space. |
| Text.NormalFormOfHost | internal/domain/traffic.go:731-733 | The normal form of a host in ASCII: blanks around it, a final dot and capitals are gone, and nothing else changes. |
| TrafficTerms.ReferenceKinds | internal/domain/traffic.go:188-215 | What each kind of service reference looks like: `route:`, `external_route:` or `static:` and a rest, `network_service:` or `service:` and a name and port without further colons. |
| TrafficTerms.EntryPointValidIff | internal/domain/traffic.go:592-629 | An entry point is valid if and only if its protocol is one of the four, its addresses and networks parse, and a raw fallback is set exactly where its protection is, on smart_tcp only. |
| TrafficTerms.RouterValidIff | internal/domain/traffic.go:525-590 | A router fits its entry point and service if and only if: UDP on UDP with one UDP backend; TCP on TCP, or on smart_tcp as its raw fallback, with one TCP backend; passthrough on tls_mux or smart_tcp with one TCP backend and a server name; HTTP on those two with a route. |
| TrafficTerms.ContestIff | internal/domain/traffic.go:453-523 | Two routers conflict on an entry point if and only if both are TCP, both are UDP, or some name is claimed by both, not counting an exact server name under a wildcard. |
| TrafficTerms.AcceptedIff | internal/domain/traffic.go:217-230 | The pairwise specification holds if and only if the graph is acceptable by its fields: limits not negative, parts that fit, names and addresses apart, names claimed once, and every raw fallback a TCP router of its entry point. |
| TrafficTerms.EntryPointCarries | internal/domain/traffic.go:525-541 | In an accepted graph UDP routers sit on UDP entry points and nothing else does; TCP entry points carry TCP only; TCP sits on TCP or is the raw fallback of smart_tcp; passthrough and HTTP sit on tls_mux or smart_tcp. |
| TrafficTerms.TransportHasOneRouter | internal/domain/traffic.go:453-459 | A UDP or TCP entry point of an accepted graph carries one router at most. |
| TrafficTerms.FittingPartsAreAccepted | internal/domain/traffic.go:217-230 | One entry point, service and router of any kind that fit each other make an accepted graph. |
| TrafficValidator.ListenAddressSet.Add | internal/domain/traffic.go:697-709 | An address is accepted if and only if it conflicts with none registered before, a wildcard host conflicting with every host on its port. |
| TrafficValidator.ValidateEntryPoints | internal/domain/traffic.go:264-313 | The one-pass check accepts if and only if every entry point is valid and no two conflict by name or, within a protocol family, by listen address. |
| TrafficRouters.MatchingWildcardSNI | internal/domain/traffic.go:735-742 | Finds a matching wildcard exactly when there is one. |
| TrafficRouters.MatchingHTTPHost | internal/domain/traffic.go:744-751 | Finds a matching host exactly when there is one. |
| TrafficRouters.OverlappingWildcardSNI | internal/domain/traffic.go:753-760 | Finds an overlapping wildcard exactly when there is one. |
| TrafficRouters.RouterValidationState.HTTPHostIsFree | internal/domain/traffic.go:461-484 | An HTTP host is free if and only if its rule conflicts with no accepted router on the entry point. |
| TrafficRouters.RouterValidationState.WildcardIsFree | internal/domain/traffic.go:500-512 | A wildcard is free if and only if its rule conflicts with no accepted router on the entry point. |
| TrafficRouters.RouterValidationState.ExactIsFree | internal/domain/traffic.go:514-523 | An exact server name is free if and only if its rule conflicts with no accepted router on the entry point. |
| TrafficRouters.RouterValidationState.ValidateRouter | internal/domain/traffic.go:389-451 | The incremental check over the maps accepts a router if and only if it is valid and conflicts pairwise with none accepted before; the maps keep indexing exactly the accepted routers. |
| TrafficRouters.RouterValidationState.ValidateRawFallbacks | internal/domain/traffic.go:631-648 | Raw fallbacks are accepted if and only if each names a TCP router of its entry point. |
| TrafficLaws.ValidateServices | internal/domain/traffic.go:315-355 | Services are accepted if and only if each is valid and names are distinct. |
| TrafficLaws.ValidateRouters | internal/domain/traffic.go:357-375 | Routers are accepted if and only if each is valid, no two conflict pairwise, and raw fallbacks resolve. |
| TrafficLaws.Validate | internal/domain/traffic.go:217-230 | The graph is accepted if and only if the pairwise specification holds, and if and only if the graph is acceptable by its fields (see TrafficTerms). |
| TrafficLaws.NoConflictByElement | internal/domain/traffic.go:389-451 | Freedom from pairwise conflict says that distinct routers do not conflict and none occurs twice. |
| TrafficLaws.RouterOrderIsIrrelevant | internal/domain/traffic.go:357-375 | Acceptance of routers does not depend on their order. |
| TrafficLaws.GraphOrderIsIrrelevant | internal/domain/traffic.go:217-230 | Acceptance of a graph does not depend on the order of its entry points, services or routers. |
| TrafficLaws.HostHasOneOwner | internal/domain/traffic.go:461-523 | In an accepted graph a host on an entry point matches at most one wildcard and at most one exact passthrough router, and none if an HTTP router there owns it. |
| Certificates.AddHosts | internal/usecase/publictls/targets.go:44-72 | Collects the canonical form of every valid name once. |
| Certificates.RouteHosts | internal/usecase/publictls/targets.go:44-72 | The canonical hosts of routes, external routes and additional hosts, each once and in order, whatever the iteration order of the map. |
| Certificates.CanonicalComesOut | internal/domain/validation.go:20-102 | A canonicalised route domain is a valid public host name in lower case. |
| Certificates.LabelsJoin | internal/domain/validation.go:78-84 | Splitting at the dots is undone by joining with dots, and no label holds a dot. |
| Certificates.RouteDomainByLabels | internal/domain/validation.go:28-102 | A route domain has at most 253 characters and at least two labels of 1 to 63 letters, digits and inner hyphens; it is no dotted IPv4 address, does not start with the label localhost, and does not end in local, internal or localhost; every such name is one. |
| Certificates.OctetForm | internal/domain/validation.go:57-61 | The numbers of a dotted address run up to 255, without leading zeros. |
| Certificates.BlanksAndCapitalsDoNotMatter | internal/domain/validation.go:20-26 | A route domain is recognised with blanks around it and in any mixture of capitals. |
| Certificates.CoversIffNames | internal/domain/public_tls.go:71-89 | A certificate name covers a host if and only if it is the host, or a star in place of the first label of the host. |
| Certificates.BaseLacksOneLabel | internal/usecase/publictls/targets.go:132-157 | Below its zone the base of a host is the host without its first label; a zone is its own base. |
| Certificates.NoBaseOutsideTheZone | internal/usecase/publictls/targets.go:138-143 | There is a base if and only if the zone is the host or a domain above it. |
| Certificates.EnclosesIff | internal/usecase/publictls/targets.go:132-143 | When a zone encloses a host: it is the host or a domain above it. |
| Certificates.DeriveHTTP01Targets | internal/usecase/publictls/targets.go:75-85 | One target per host, with the id "http01-" and the host and with the host as its only name; together they cover all hosts. |
| Certificates.DeriveDNS01Targets | internal/usecase/publictls/targets.go:88-121 | One target per distinct wildcard base, in order, with the id "dns01-" and the base and with the base and its wildcard as names; fails if and only if a host has no base. |
| Certificates.BaseCoversHost | internal/usecase/publictls/targets.go:132-157 | For a canonical host and any enclosing zone, the base and its wildcard cover the host. |
| Certificates.BaseNamesCover | internal/domain/public_tls.go:71-89 | A base and its left-most-label wildcard (section 6.4.3 of RFC 6125) cover the base and its direct children. |
| Certificates.DNSTargetsCover | internal/usecase/publictls/targets.go:88-121 | For any resolver that returns enclosing zones every canonical host is covered by a derived target. |
| PublicTLS.ExactNamesCoverAll | internal/usecase/publictls/service.go:461-473 | True exactly when every required name occurs up to case and a trailing dot. |
| PublicTLS.Service.CertificateExists | internal/usecase/publictls/service.go:447-458 | True exactly when a certificate whose expiry date has not passed carries every name the target asks for, up to capitals and a final dot. |
| PublicTLS.PossessionIff | internal/usecase/publictls/service.go:447-473 | That a target has its certificate, in terms of expiry dates and names. |
| PublicTLS.Service.FilterMissing | internal/usecase/publictls/service.go:280-285 | The targets without such a certificate, in their order. |
| PublicTLS.Service.SelectMissingTargets | internal/usecase/publictls/service.go:274-304 | Returns the rotating batch, of one target by default and of all when fewer are missing, the count, and the next cursor. |
| PublicTLS.Service.ReconcileMissingTargets | internal/usecase/publictls/service.go:380-443 | Stores what each successful order returned, in order, and nothing else. |
| PublicTLS.DeriveCertificateTargets | internal/usecase/publictls/targets.go:22-40 | Succeeds exactly for a supported mode whose targets can be derived. |
| PublicTLS.Service.Reconcile | internal/usecase/publictls/service.go:159-268 | Required hosts are replaced even when targets cannot be derived, in which case certificates and cursor stay; otherwise the batch is ordered and the cursor moves on. |
| PublicTLS.Service.GetCertificateForHost | internal/usecase/publictls/service.go:487-513 | No certificate is needed exactly for hosts that are not required. What is served has an expiry date that has not passed and a name that is the host, or a star in place of its first label; a required host is refused only when no stored certificate in date has such a name. |
| PublicTLS.CarriesIff | internal/domain/public_tls.go:71-89 | That the names of a certificate cover a host, name by name. |
| PublicTLS.KeyOfPlain | internal/usecase/publictls/service.go:461-473 | The two ways the service normalises names agree on the names of derived targets. |
| PublicTLS.ExactCoverageServes | internal/usecase/publictls/service.go:461-479 | A certificate naming a target exactly covers every host the target covers. |
| PublicTLS.DerivedTargetsCover | internal/usecase/publictls/targets.go:22-157 | The derived targets cover every host, in both challenge modes. |
| PublicTLS.NoMissingTargetMeansEveryHostIsServed | internal/usecase/publictls/service.go:447-513 | When no target is missing at an instant, every required host is served at that instant. |
| PublicTLS.DerivedIdsAreDistinct | internal/usecase/publictls/targets.go:75-121 | No two derived targets share an id. |
| PublicTLS.ObtainsOnlyShrink | internal/usecase/publictls/service.go:380-443 | Ordering a batch with an honest issuer covers each target whose order succeeded and uncovers none. |
| PublicTLS.EveryTargetGetsItsTurn | internal/usecase/publictls/service.go:232-304 | Over consecutive reconciles each of n missing targets is ordered or has a certificate within (n + 1) * ceil(n / batch) of them, from any starting cursor and whatever the outcomes. |
| ObtainCursor.BatchIsDistinct | internal/usecase/publictls/service.go:297-303 | A batch holds min(size, n) distinct missing targets. |
| ObtainCursor.RoundApproaches | internal/usecase/publictls/service.go:297-303 | A reconcile attempts a target or brings the cursor a batch closer to it. |
| ObtainCursor.FixedSetIsCovered | internal/usecase/publictls/service.go:287-304 | With a fixed set of n missing targets any ceil(n / batch) consecutive reconciles attempt all of them. |
| ObtainCursor.TurnIsEnough | internal/usecase/publictls/service.go:287-304 | ceil(n / batch) batches go once around n targets, and one less would not. |
| ObtainCursor.NoTargetStarves | internal/usecase/publictls/service.go:274-304 | The same bound for missing sets that only shrink. |
| Deploy.FindExisting | internal/usecase/container/service.go:533-542 | The slow path settles on a canonically named candidate if there is one, else on the first candidate, and on none exactly when there is none. |
| Deploy.StepKeepsInv | internal/usecase/container/service.go:300-400 | Every step of deploys, finalisers, crashing containers and daemon restarts keeps the invariant. |
| Deploy.InvariantHolds | internal/usecase/container/service.go:300-400 | The invariant holds in every state of every interleaving: the map names the old container before activation and the new one after, finalisers only hold containers replaced for good, recorded names are current or canonical, and the cleanup accounts for every holder of a temporary name. |
| Deploy.TrackedContainerIsSpared | internal/usecase/container/service.go:861-977 | No step stops or removes the container the tracking map names at that moment, unless old and new were both found dead. |
| Deploy.OnlyKillsHarm | internal/usecase/container/service.go:300-400 | Apart from changes of status on their own, containers are removed or stopped only by the steps said to stop or remove them. |
| Deploy.TrackedContainerStaysUp | internal/usecase/container/service.go:861-977 | So the tracked container is there and in the same status after every step, unless it changes its status on its own or old and new were both found dead. |
| Deploy.UnsuccessfulDeploysKeepTheOld | internal/usecase/container/service.go:329-376 | Deploys that fail before activation or roll back leave the map naming the old container, whether it was tracked when they began or found by them on the slow path. |
| Deploy.FailedDeploysKeepTheOld | internal/usecase/container/service.go:329-376 | In terms of the map alone: what is tracked between deploys, or once resolved, is tracked when a later deploy is over or rolls back, if none in between became stable or lost both containers and the daemon was not restarted. |
| Deploy.BothDeadLeavesARemovedContainer | internal/usecase/container/service.go:924-938 | In the exception the map is left naming a container that has been removed. |
| Deploy.HeadIsDone | internal/usecase/container/service.go:2651-2676 | Skipping or removing one listed container leaves the rest of the list to account for every holder of a temporary name. |
| Deploy.TemporaryNameIsFree | internal/usecase/container/service.go:213-231 | The temporary name a replacing deploy picks, the canonical name with "-new", or with "-next" when the old container has that one, is held by no container at creation, in every interleaving with earlier finalisers, provided its listing and removals succeeded. |
| Deploy.TemporaryNameIsFreeIff | internal/usecase/container/service.go:2640-2679 | Whatever removals failed, the picked name is free if and only if every listed holder of it has been removed or renamed by then. |
| Deploy.FailedRemovalKeepsTheName | internal/usecase/container/service.go:2672-2674 | The proviso is needed: a complete run in which a removal fails and the picked name is still held. |
| DeployService.NewNameFits | internal/usecase/container/service.go:213-231 | A first deploy asks for the canonical name; a replacing one for a temporary name that is not that of the container it replaces. |
| DeployService.CleanedMeans | internal/usecase/container/service.go:2651-2676 | After the cleanup exactly those containers are gone whose removal succeeded among the leftovers: other than the existing one, under one of the three names, and down or, beside an existing container, under a temporary name. |
| DeployService.CleanupServes | internal/usecase/container/service.go:2640-2679 | A first deploy finds the canonical name free when only leftovers hold it and their removals succeed. |
| DeployService.Deployer.ResolveExistingContainer | internal/usecase/container/service.go:509-562 | What the tracking map names wins; otherwise the runtime is searched, and what is found is tracked from then on. |
| DeployService.Deployer.CleanupOrphanedContainers | internal/usecase/container/service.go:2640-2679 | Exactly the leftovers whose removal succeeds are gone; every other container, the existing one and foreign ones among them, is as it was; every call is a step of the protocol. |
| DeployService.Deployer.CreateStartedContainer | internal/usecase/container/service.go:626-668 | A new container results exactly when creation, start and readiness succeed and no container holds its name, which is canonical for a first deploy and temporary for a replacing one; otherwise it is discarded. No other container is touched. |
| DeployService.Deployer.ActivateDeployedContainer | internal/usecase/container/service.go:861-886 | The map names the new container from then on. |
| DeployService.Deployer.AskForPrevious | internal/usecase/container/service.go:920-943 | The old container is put back exactly when it is found running. |
| DeployService.Deployer.StabilizeNewContainer | internal/usecase/container/service.go:892-965 | Stable when the context ends or the new container runs, rolled back when only the old one runs, and an error when neither is found running; a finaliser starts only in the first case, the new container goes in the others, and no other is touched. |
| DeployService.Deployer.DeployContainer | internal/usecase/container/service.go:300-400 | A whole deploy is a run of the protocol from lock to release: a failure or rollback leaves the map naming whatever container was resolved, tracked before or found on the slow path; a success names the new one and hands the old one to a finaliser; finding both dead leaves the new one named; and a replacing deploy never fails for a taken name when its cleanup succeeds. A deployed container has the canonical name after a first deploy and otherwise a temporary one; a first deploy over leftovers whose calls succeed is not a failure; and no container but leftovers is touched, the one to be replaced least of all. |
| DeployService.Deployer.FinalizePreviousContainer | internal/usecase/container/service.go:1981-2004 | The finaliser removes the old container, or leaves it stopped when the removal fails, and renames the new one if and only if no other container holds the canonical name; all others are as they were, and every call is a step of the protocol. |
| Calendar.MonthLength | internal/usecase/cron/scheduler.go:320-325 | The month starts are those of the Gregorian calendar: month 0 starts at day 0, and every month has 31, 30 or 28 days, or 29 in a February of a leap year, over all years. |
| Calendar.MonthStartsGrow | internal/usecase/cron/scheduler.go:320-325 | Later months start at least 28 days later per month. |
| Calendar.MonthOf | internal/usecase/cron/scheduler.go:321 | The month a day falls in, for every day before and after 1970. |
| Cron.HourlyIsLeast | internal/usecase/cron/scheduler.go:301-306 | The hourly preset yields the least full hour strictly after now. |
| Cron.DailyIsLeast | internal/usecase/cron/scheduler.go:307-312 | The daily preset yields the least 02:00 UTC strictly after now. |
| Cron.WeeklyIsLeast | internal/usecase/cron/scheduler.go:313-319 | The weekly preset yields the least Sunday 03:00 UTC strictly after now. |
| Cron.MonthlyIsLeast | internal/usecase/cron/scheduler.go:320-325 | The monthly preset yields the least first-of-month 04:00 UTC strictly after now. |
| Cron.NextRunIsTheLeastSlot | internal/usecase/cron/scheduler.go:291-329 | calculateNextRun for every schedule and instant: the least slot of the preset strictly after now, or now plus the interval, or the error exactly when both or neither is usable. |
| Cron.SlotsInNumbers | internal/usecase/cron/scheduler.go:279-325 | The slots in nanoseconds since 1 January 1970: full hours; 02:00 of every day; 03:00 of 4 January 1970 and every seventh day from it; 04:00 of every first of a month. |
| Cron.Scheduler.Add | internal/usecase/cron/scheduler.go:72-101 | Registers an entry due at the next slot exactly when the id and job are given, the schedule is usable and the id is new; otherwise nothing changes. |
| Cron.Scheduler.Remove | internal/usecase/cron/scheduler.go:104-116 | Refuses exactly a running entry. |
| Cron.Scheduler.DueEntries | internal/usecase/cron/scheduler.go:264-276 | Exactly the entries whose slot has come, each once. |
| Cron.Scheduler.ExecuteEntry | internal/usecase/cron/scheduler.go:220-256 | A running entry is left alone; otherwise the next run is computed from the completion, clamped to the start when the clock was set back. |
| Cron.Scheduler.RunDue | internal/usecase/cron/scheduler.go:199-218 | A tick executes every due entry once and touches no other. |
| Cron.Scheduler.DriveByTicker | internal/usecase/cron/scheduler.go:138-152 | The ticker loop: the runs of an entry form a history of the ticker, and no tick at which the entry is due passes without a run. |
| Cron.NoSlotIsServedTwice | internal/usecase/cron/scheduler.go:199-276 | An entry driven only by the ticker never runs twice for one slot. |
| Cron.OnlyPassedSlotsAreSkipped | internal/usecase/cron/scheduler.go:220-256 | A slot is skipped only if it had passed before the previous run was over. |
| Cron.SlotComesRoundAgainIff | internal/usecase/cron/scheduler.go:237-242 | A slot comes round again if and only if, by the clock, the run is over before the slot begins. |
| Cron.ClockSetBackServesASlotTwice | internal/usecase/cron/scheduler.go:237-242 | A concrete clock reading for which that happens. |
| CrashMonitor.BackoffDoublesUpToTheCap | internal/usecase/container/monitor.go:250-265 | The backoff starts at a minute at the third crash, doubles with every further one, and is never more than 15 minutes. |
| CrashMonitor.PruneAttempts | internal/usecase/container/monitor.go:195-203 | Compacting the attempts in place keeps exactly those inside the window, in order. |
| CrashMonitor.RecordCrash | internal/usecase/container/monitor.go:181-222 | The in-place update of a restart record equals the specification of a crash. |
| CrashMonitor.Monitor.HandleCrash | internal/usecase/container/monitor.go:173-248 | Only the record of the domain changes, and a restart is issued exactly when the verdict allows it and the container is still tracked. |
| CrashMonitor.Monitor.HandleRunning | internal/usecase/container/monitor.go:129-164 | History is cleared after five minutes of healthy observations; unhealthy containers are restarted without a record, and exactly those still tracked. |
| CrashMonitor.ThreeRestartsTakeTheWindow | internal/usecase/container/monitor.go:129-248 | Of any three crash restarts the third comes at least five minutes after the first, even across a cleared history. |
| CrashMonitor.AtMostTwoRestartsInAnyWindow | internal/usecase/container/monitor.go:129-248 | At most two crash restarts of a domain fall into any window (t - 5min, t]. |
| CrashMonitor.BackoffNeverExceedsTheCap | internal/usecase/container/monitor.go:206-208 | An announced backoff ends at most 15 minutes after the last recorded crash. |
| CrashMonitor.NoRestartDuringBackoff | internal/usecase/container/monitor.go:181-188 | While its record lives, a domain is not restarted before the announced end of a backoff. |
| CrashMonitor.ClearedExactlyWhenStable | internal/usecase/container/monitor.go:148-162 | During a backoff the history is cleared if and only if two healthy observations are five minutes or more apart. |
| CrashMonitor.FirstCrashRestarts | internal/usecase/container/monitor.go:175-188 | A crash without a history is always answered by a restart. |
| CrashMonitor.IgnoredExactlyInBackoff | internal/usecase/container/monitor.go:181-193 | A crash is ignored exactly before the end of a backoff; from that instant on it is recorded and stops the stable timer. |
| CrashMonitor.ThirdCrashWithinTheWindow | internal/usecase/container/monitor.go:190-222 | The first two crashes are answered by restarts; the third starts a backoff of one minute if it comes within five minutes of the first, and otherwise is answered by a restart too. |
| CrashMonitor.HealthyObservationsClear | internal/usecase/container/monitor.go:148-162 | With or without a backoff, healthy observations after a recorded crash clear the history exactly when the last comes five minutes or more after the first. |
| CrashMonitor.BackoffEndsEarlyIff | internal/usecase/container/monitor.go:129-248 | The monitor decides on a restart before the announced end of a backoff if and only if a crash follows two healthy observations that are five minutes or more apart, whatever crashes lie between those two; it restarts under the same condition when crashed containers are still tracked. |
| CrashMonitor.ClearedHistoryEndsABackoffEarly | internal/usecase/container/monitor.go:150-161 | The proviso is needed: a complete run in which crashes during a backoff do not reset the stable timer, so that the history is cleared and a restart comes before the announced end. |
| Secrets.Handler.HandleEvent | internal/usecase/container/secrets_handler.go:106-120 | An event disarms the old timer, advances the generation and arms a callback that carries it. |
| Secrets.Handler.FireDeploy | internal/usecase/container/secrets_handler.go:123-155 | A callback attempts a deploy exactly when it carries the current generation, and then retires it. |
| Secrets.Handler.CancelContext | internal/usecase/container/secrets_handler.go:92-93 | Stopping cancels the context before anything else, and touches no timer. |
| Secrets.Handler.StopAllTimers | internal/usecase/container/secrets_handler.go:95-102 | All timers are disarmed and their generations forgotten; callbacks already started stay. |
| Secrets.LiveAlwaysHasCallback | internal/usecase/container/secrets_handler.go:106-139 | Until the handler is stopped, a live generation always has a pending callback carrying it, in every interleaving of events, late callbacks and fires. |
| Secrets.NoEventIsLost | internal/usecase/container/secrets_handler.go:59-139 | Once no callback is pending, every handled event has been followed by a deploy attempt. |
| Secrets.AttemptsNeverOutnumberEvents | internal/usecase/container/secrets_handler.go:106-139 | Attempts never outnumber events, and a live domain has an event to spare. |
| Secrets.GenerationCountsEvents | internal/usecase/container/secrets_handler.go:106-139 | The generation of a domain is the number of its events since the generation was last forgotten, by an attempt or by Stop. |
| Secrets.AttemptsIff | internal/usecase/container/secrets_handler.go:131-139 | In every run a callback attempts a deploy if and only if its generation equals that number. |
| Secrets.AttemptAfterStopIff | internal/usecase/container/secrets_handler.go:90-139 | After Stop the first attempt for a domain comes if and only if a callback carries as many generations as events of the domain have been handled since. |
| Secrets.NoAttemptAfterStop | internal/usecase/container/secrets_handler.go:90-103 | After Stop no callback of a domain attempts a deploy until an event of that domain is handled. |
| Secrets.EventAfterStopRevivesALateCallback | internal/usecase/container/secrets_handler.go:114-137 | Generations restart at 1: a run in which an event handled after Stop revives a callback that was past its check. |
| LogLines.LinesAreCompletePlusTail | internal/usecase/container/service.go:799-825 | The lines of a text are its complete lines and its unfinished tail: the reference and what the collector keeps agree. |
| LogLines.LineByLine | internal/usecase/container/service.go:799-825 | The lines of a text in bytes: each ends at a 10 or with the text, loses the 13s at its end, and counts if anything remains. |
| LogLines.LastAreAtTheEnd | internal/usecase/container/service.go:814-816 | The lines kept are the end of the list, maxLines of them when that is positive and there are more. |
| LogLines.SplitAfterJoins | internal/usecase/container/service.go:800 | Splitting after line feeds loses nothing. |
| LogLines.LogLineCollector.AddLine | internal/usecase/container/service.go:808-817 | Adds a non-empty stripped line and keeps the last maxLines. |
| LogLines.LogLineCollector.Flush | internal/usecase/container/service.go:819-825 | Turns the pending text into a line. |
| LogLines.LogLineCollector.AddChunk | internal/usecase/container/service.go:799-806 | Whatever the chunks, the collector holds the last lines and the tail of all text seen. |
| LogLines.LogLineCollector.Finish | internal/usecase/container/service.go:819-825 | The final flush yields the last maxLines non-empty lines of the text. |
| LogLines.ReadFrame | internal/usecase/container/service.go:732-758 | One round of the loop reads a frame, skips an empty one, or ends with what a cut frame delivers. |
| LogLines.ParseDockerFramedLogLines | internal/usecase/container/service.go:731-759 | For every stream of bytes the result is the last maxLines non-empty lines of the text its frames carry. |
| LogLines.BigEndianRoundTrip | internal/usecase/container/service.go:742 | Frame sizes are read as they are written. |
| LogLines.BigEndianPlaces | internal/usecase/container/service.go:742 | The most significant byte of a frame size comes first. |
| LogLines.DecodeEncode | internal/usecase/container/service.go:731-759 | Decoding a framed text gives back the text, however it is cut into frames. |
| LogLines.FramingIsIrrelevant | internal/usecase/container/service.go:731-759 | Two framings of one text yield the same lines, those of the text. |
| LogLines.CutFrameIsPadded | internal/usecase/container/service.go:747-752 | A stream cut inside a frame contributes what arrived, followed by zero bytes up to the announced size. |
| LogLines.CutHeaderIsDropped | internal/usecase/container/service.go:733-738 | A stream cut inside a header loses nothing that was complete. |
| LogLines.EncodedIsRecognised | internal/usecase/container/service.go:785-787 | Every non-empty framed stream is recognised as one. |
| LogLines.TextIsNotRecognised | internal/usecase/container/service.go:785-787 | A text without zero bytes is not recognised as framed. |
| VolumeTargets.SortedContainers | internal/usecase/backup/volume_targets.go:43-59 | The containers that are not nil, by domain and name. |
| VolumeTargets.SelectedMounts | internal/usecase/backup/volume_targets.go:72-91 | Exactly the eligible mounts, by name and destination. |
| VolumeTargets.OneMoreOffer | internal/usecase/backup/volume_targets.go:25-37 | A mount is taken exactly when its volume has not been seen, which keeps the choice least and in order. |
| VolumeTargets.SelectVolumeBackupTargetsForScope | internal/usecase/backup/volume_targets.go:16-41 | Every volume that a managed container of the scope mounts is taken exactly once, and nothing else; among distinct containers from the first place in the alphabetical order of domain, name, volume and path, and in that order. |
| VolumeTargets.OnOfferIff | internal/usecase/backup/volume_targets.go:61-115 | What is on offer in terms of labels and mounts: the label gordon.managed, the domain of an attachment, a domain or a route, the kind "volume", non-empty names and paths, the filters and the prefix. |
| VolumeTargets.PrecedesIff | internal/usecase/backup/volume_targets.go:43-80 | The order of the targets compares domain, container name, volume and path, each alphabetically. |
| VolumeTargets.LeastIsUnique | internal/usecase/backup/volume_targets.go:16-59 | That choice is the only one. |
| VolumeTargets.InputOrderIsIrrelevant | internal/usecase/backup/volume_targets.go:16-91 | Among distinct containers the selection is the same sequence for every permutation of the containers and of each mount list. |

## Left out

- RegistryService.Service.PruneRegistry: does not model transient storage errors, stale-upload cleanup and its counters, logging or telemetry; a storage call fails only where the stored data make it fail.
- RegistryService.Service.PutManifest: does not model hashing; whether the content matches a digest reference is a parameter, and events and metrics are left out.
- RegistryRuns.UploadedBlobIsProtected: is stated for PutBlob only, because FinishUpload takes neither the lock nor a pending entry; a finished chunked upload appears in the runs as an unprotected blob.
- Marking.CollectReferencedDigests: models the visited key by the reference alone, since the repository is fixed during a traversal.
- TrafficValidator.ValidateEntryPoints: takes listen addresses and trusted networks as already parsed or not; net.SplitHostPort and netip parsing are not modelled.
- TrafficRouters.RouterValidationState.Record: updates the indexes together at the end of an acceptance; the source fills each one at the point where its rule is checked.
- Text.ToLower: lowers the letters whose lower case is ASCII, which decides every route domain; other capitals stay as they are, so two traffic hosts, server names or certificate names that differ only in the case of such letters count as different here and as equal in the source.
- Certificates.RouteHosts: models IP literals made of host characters, which are dotted IPv4 addresses.
- Certificates.DeriveDNS01Targets: has a resolver always; a nil resolver is an immediate error in the source.
- PublicTLS.Service.Reconcile: reads the clock once where the source reads it once per target, and leaves out the error texts per certificate and route, loading and persisting of state, and the checks for missing collaborators.
- PublicTLS.EveryTargetGetsItsTurn: assumes that no certificate some target relies on expires between two reconciles and that an issuer answers with the names it was asked for; an expiry simply starts a new series.
- Deploy.TemporaryNameIsFree: concerns one domain; a second domain whose canonical name is this domain's temporary name is not part of this model.
- Deploy.TrackedContainerIsSpared: leaves out the startup synchronisation and the explicit removal calls, which change the tracking map by other rules; image pulls, networks, attachments, volumes, readiness and drain waits are failures or delays of a step.
- DeployService.Deployer.DeployContainer: runs without interference between its calls, as does each finaliser; the interleavings are those of Deploy. The lock's token channel is the idle phase.
- Cron.Scheduler.RunDue: executes due entries one after the other where the source runs up to maxJobs at once; entries share no state. Starting and stopping the ticker loop are left out.
- Cron.NoSlotIsServedTwice: concerns entries without RunNow calls, which DriveByTicker does not make.
- CrashMonitor.Monitor.HandleRunning: takes the answers of the runtime as parameters; restart records are values in the map, not shared objects.
- Secrets.LiveAlwaysHasCallback: generations are unbounded, so the wrap-around of a 64-bit counter is not modelled. No full quiet period is claimed, because a late callback may match a newer generation.
- LogLines.ParseDockerFramedLogLines: covers streams that end; read errors other than the end of the stream, and the plain-text branch with its scanner, are left out.
- The proxy target cache, configuration files, authentication, ACME, DNS, S3 and Docker adapters, HTTP handlers and the CLI: foreign calls or wiring.
- Counters and field validators such as port ranges outside the traffic graph: they would only add easy members.
