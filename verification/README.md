# Verified model of saltext.vcf's stateful clients

Most of this repository wraps REST and SOAP calls. This project models the parts
that hold logic of their own — protocols with failures, poll loops, in-place tree
writes, codecs, aggregations, allocators, scoped state — and proves what they
promise for every input, every server response and every interleaving.

| File | Models |
|---|---|
| `OvaSizes.dfy`, `LeaseProtocol.dfy`, `LeaseLog.dfy` | the upload block of `deploy_ova` interleaved with the lease ping thread |
| `OvaUpload.dfy` | `_upload_disks`, `_CountingReader` and `set_percent` as loops over mutable objects |
| `OvaDeploy.dfy` | the try/except/finally structure of `deploy_ova`, a failure possible at every call |
| `LeaseRefinement.dfy` | the two models of the upload block agree |
| `PollClock.dfy`, `PatchMonitor.dfy`, `TaskWaiters.dfy` | the poll loops over response traces, and how often they can go round |
| `VersionMatch.dfy` | matching of requested, pending and staged update versions |
| `ProfileDocument.dfy`, `ProfileHeap.dfy` | nested keys of configuration documents, as values and as mutable dictionaries |
| `StoragePolicy.dfy` | the codec between policy constraints and PBM subprofiles |
| `ResourcePools.dfy`, `VmInventory.dfy`, `Snapshots.dfy` | the inventory builders and tree searches |
| `VmDisks.dfy`, `TrafficTypes.dfy` | unit-number allocation, and replacing traffic types on an adapter |
| `FleetListing.dfy` | paged listing and expiry buckets |
| `LocalEnv.dfy`, `Strings.dfy` | the scoped environment of the command helpers |
| `InstallerSpec.dfy` | validation of the installer data and the deployment that consumes it |
| `Basics.dfy` | shared datatypes and sequence lemmas |

Servers, clocks, threads and files appear as parameters: a response trace, an
oracle that says how each call ends, a clock reading per round, or a small class
with the server's state. Exceptions are result values.

## Where the code falls short of its own promise

Nothing here is repaired. Each entry names the lemma or method with the exact
condition, and one with an input that fails.

- Lease percentages fall when a file is longer than declared; they never do exactly
  when `Steady` holds (`LeaseProtocol.PingsNeverDecreaseIffSteady`,
  `LeaseProtocol.OverlongFileRegresses`).
- 100 percent can be reported before the last file, when an earlier one is longer than
  declared (`OvaSizes.ReportedPercent`, `LeaseProtocol.FullOnlyAtTheEnd`,
  `OvaSizes.FullBeforeSecondFile`).
- A ping can start after the lease is completed or aborted, exactly when the join timed
  out with the ping thread past its check of the event; never more than one
  (`LeaseProtocol.PingAfterTheEnd`, `LeaseProtocol.PingAfterCompletion`).
- A granted lease is left open exactly when waiting for it fails, stopping the thread
  fails in the handler, or the abort fails (`OvaDeploy.LeaseReleased`,
  `OvaDeploy.FaultedAbortLeavesLease`, `LeaseProtocol.LeaseLeftOpen`).
- An interrupted download leaves its temporary file (`OvaDeploy.TempRemoved`,
  `OvaDeploy.InterruptedDownloadStays`).
- A pending item with an empty field matches every request, the same record staged
  does not (`VersionMatch.MatchersAgree`, `VersionMatch.EmptyFieldDisagrees`).
- A capability key without a dot does not survive the codec (`StoragePolicy.RoundTrip`,
  `StoragePolicy.UndottedKeyIsLost`), and an empty ruleset, which accepts every
  datastore, is lost (`StoragePolicy.MeaningKept`, `StoragePolicy.EmptyRulesetIsLost`).
- Pools on a parent cycle are in no tree (`ResourcePools.ForestIsExact`,
  `ResourcePools.TwoPoolCycle`).
- A server that claims no total is listed for one page only (`FleetListing.CompleteIff`,
  `FleetListing.NoTotalCutsOff`).
- Traffic types whose deselect faults stay selected, and a type the host rejects ends
  the call after the old types are gone (`TrafficTypes.ReplacesExactly`,
  `TrafficTypes.RejectedLosesOldTypes`, `TrafficTypes.ReplacementsThatFail`).
- A unit number given by hand is taken unchecked (`VmDisks.RunKeepsValidIff`,
  `VmDisks.HandGivenDuplicate`).
- A value that shares a dictionary with the document, or within itself, ends the tree
  shape (`ProfileHeap.TreeKeptIffFits`, `ProfileHeap.SharingLeavesNoTree`,
  `ProfileHeap.DoublingLeavesNoTree`).
- A prepended path entry with a separator comes back as two (`LocalEnv.PathListInside`,
  `LocalEnv.SeparatorSplitsEntry`).
- An empty or null backend is valid but cannot be deployed, nor can a host without a
  password key (`InstallerSpec.DeployValidated`, `InstallerSpec.ValidButNotDeployable`).

## Model

| member | source | states |
|---|---|---|
| LeaseProtocol.LeaseDiscipline | src/saltext/vcf/clients/ovf_deploy.py:97-117 | in every interleaving and for every failure point, in the handler too: completion is called only after every file was accepted below 400 in order and the stop event was set; a finished block has one returned completion, or one returned abort, or left the lease open because the abort faulted or the handler was left; never two of these; at most one ping starts after the event is set; `bytes_sent` is the sum of the effective sizes of the files accepted |
| LeaseProtocol.LeaseLeftOpen | src/saltext/vcf/clients/ovf_deploy.py:112-117 | for any files, runs that leave the lease open in either way |
| LeaseProtocol.PingAfterTheEnd | src/saltext/vcf/clients/ovf_deploy.py:458-472 | when the lease is about to be completed or aborted, some continuation starts a ping after that call if and only if the ping thread is past its check of the event; and never more than one |
| LeaseProtocol.PingThreadEnds | src/saltext/vcf/clients/ovf_deploy.py:463-472 | once the event is set, the ping thread takes at most four more steps in any interleaving, and can take none exactly when it has ended or never began |
| LeaseProtocol.StepKeepsInv | src/saltext/vcf/clients/ovf_deploy.py:454-472 | every step of either thread keeps the protocol invariant |
| LeaseProtocol.RunKeepsInv | src/saltext/vcf/clients/ovf_deploy.py:439-472 | the invariant holds after every run |
| LeaseProtocol.FaultsAnywhere | src/saltext/vcf/clients/ovf_deploy.py:98-117 | from every reachable state before the end a fault is possible: in the block it leads to the handler and changes nothing else, but for a completion call under way; in the handler it leaves the lease open |
| LeaseLog.ReadingIs | src/saltext/vcf/clients/ovf_deploy.py:97-117 | what is counted in the log are the completions, aborts, accepted files and pings in it, in their order |
| LeaseLog.OrderIs | src/saltext/vcf/clients/ovf_deploy.py:97-117 | the log is ordered exactly when the event is set before each completion and abort, and all files are accepted before each completion |
| LeaseLog.LateIs | src/saltext/vcf/clients/ovf_deploy.py:458-472 | late pings are exactly those after the first time the event is set |
| LeaseLog.TrailingIs | src/saltext/vcf/clients/ovf_deploy.py:458-472 | trailing pings are exactly those after the call that ended the lease |
| LeaseProtocol.PingsNeverDecreaseIffSteady | src/saltext/vcf/clients/ovf_deploy.py:463-472 | in every interleaving the percentages the lease receives stay within 0..100; and they never decrease if and only if no file read to its end reports more than the first byte of a later one |
| LeaseProtocol.RegressionIsSeen | src/saltext/vcf/clients/ovf_deploy.py:566-581 | from any pair of files that breaks the condition, an interleaving in which the lease receives a smaller percentage after a larger one |
| LeaseProtocol.WithinDeclaredIsSteady | src/saltext/vcf/clients/ovf_deploy.py:505-513 | files no longer than their announced size meet the condition |
| LeaseProtocol.OverlongFileRegresses | src/saltext/vcf/clients/ovf_deploy.py:505-513 | two concrete files, the first longer than declared, that do not |
| LeaseProtocol.FullOnlyAtTheEnd | src/saltext/vcf/clients/ovf_deploy.py:566-581 | in every interleaving the percentage stays below 100 until the last file is uploaded if and only if no available file before it reaches the total when read to its end |
| LeaseProtocol.CompletesAtFull | src/saltext/vcf/clients/ovf_deploy.py:111-113 | in every interleaving the thread is stopped, joined and the lease completed at 100 percent only |
| LeaseRefinement.FinishedRunIsPlanned | src/saltext/vcf/clients/ovf_deploy.py:97-117 | the calls of the main thread in every finished run of the protocol are those of the block and its handler in the deployment's plan, under some oracle |
| LeaseProtocol.PingAfterCompletion | src/saltext/vcf/clients/ovf_deploy.py:458-461 | a run in which a ping starts after the lease was completed, because the join timed out |
| OvaSizes.PercentMonotone | src/saltext/vcf/clients/ovf_deploy.py:454-456 | more bytes never report a smaller percentage, clamping included |
| OvaSizes.EffectiveIs | src/saltext/vcf/clients/ovf_deploy.py:513 | a file counts with its declared size, or with its member's when none or zero is declared |
| OvaSizes.PriorIsDeclared | src/saltext/vcf/clients/ovf_deploy.py:505-553 | with every size declared, `bytes_sent` before a file is what is declared for the files before it |
| OvaSizes.ReportedPercent | src/saltext/vcf/clients/ovf_deploy.py:576-581 | with every size declared and any number of bytes read, the percentage is the quotient clamped at 100, and 100 exactly when the bytes counted reach the total; within the declared size only at the declared end of the last file |
| OvaSizes.FullOnlyInLastFile | src/saltext/vcf/clients/ovf_deploy.py:576-581 | no read of a file before the last reports 100 if and only if each of these files leaves the total unreached when read to its end |
| OvaSizes.FullBeforeSecondFile | src/saltext/vcf/clients/ovf_deploy.py:505-513 | two files with declared sizes that report 100 before the second is read |
| OvaUpload.LeaseProgress.SetPercent | src/saltext/vcf/clients/ovf_deploy.py:454-456 | the cell holds the whole part of the percentage, clamped to 0..100 |
| OvaUpload.CountingReader.Read | src/saltext/vcf/clients/ovf_deploy.py:576-581 | serves what is asked, at most what is left; counts it; reports the percentage exactly when something was read |
| OvaUpload.ServedIs | src/saltext/vcf/clients/ovf_deploy.py:577 | no argument and -1 ask for four mebibytes, another negative number for the rest, and at most the rest is served |
| OvaUpload.PutFile | src/saltext/vcf/clients/ovf_deploy.py:544-547 | sending a file reports one percentage for each read that yields bytes, in order |
| OvaUpload.ResolveByBasename | src/saltext/vcf/clients/ovf_deploy.py:556-563 | a path resolves exactly when some member has its last component, and then to one that has |
| OvaUpload.ResolveIs | src/saltext/vcf/clients/ovf_deploy.py:557-562 | the exact name wins over any shared last component; of those the first name in the archive counts, and of equal names the last member |
| OvaUpload.BasenameIs | src/saltext/vcf/clients/ovf_deploy.py:559 | the last component is what follows the last slash, or the whole path |
| OvaUpload.ContentTypeIs | src/saltext/vcf/clients/ovf_deploy.py:525-529 | paths that end in `.vmdk`, in capitals or not, and no others, get the stream type |
| OvaUpload.IndexDevices | src/saltext/vcf/clients/ovf_deploy.py:500-503 | the index finds the last device with a key, import key first |
| OvaUpload.DeviceForIs | src/saltext/vcf/clients/ovf_deploy.py:500-503 | the device of an id is the last one in the list whose import key, or whose own key when that is missing or empty, is the id |
| OvaUpload.SumDeclared | src/saltext/vcf/clients/ovf_deploy.py:505 | the total is the sum of declared sizes, or 1 |
| OvaUpload.SendFile | src/saltext/vcf/clients/ovf_deploy.py:507-553 | one item is refused for the first of its reasons, or sent with member, effective size, content type and cookie to the device's URL with the host in the place of each star, and judged by the answer |
| OvaUpload.UploadDisks | src/saltext/vcf/clients/ovf_deploy.py:488-553 | requests go out in item order with the right member, length, content type and cookie, to the URL `a + host + b` for a device URL `a + "*" + b`, to the URL itself when it has no star, and in general to its parts between stars joined by the host; they stop at the first item that fails for the reason returned, and report exactly the percentages of their reads |
| OvaUpload.SentTo | src/saltext/vcf/clients/ovf_deploy.py:507-511 | a request goes to its device's URL as it is when it has no star, and with the host in the place of the star when it has one |
| OvaUpload.ReplacedStars | src/saltext/vcf/clients/ovf_deploy.py:511 | replacing puts the host in the place of every star and changes nothing else |
| OvaUpload.FileReportsAdvance | src/saltext/vcf/clients/ovf_deploy.py:566-581 | the reports of one file never decrease and stay within its member |
| OvaUpload.ReportsNeverDecrease | src/saltext/vcf/clients/ovf_deploy.py:506-553 | nor do those of the whole upload when no member is longer than announced |
| OvaUpload.UploadIsARun | src/saltext/vcf/clients/ovf_deploy.py:506-553 | the sequential upload with its reports is a run of the lease protocol |
| OvaUpload.RequestsAreARun | src/saltext/vcf/clients/ovf_deploy.py:506-553 | so are the requests the upload sent and had accepted, with the last percentage they reported |
| OvaUpload.AvailableIffSendable | src/saltext/vcf/clients/ovf_deploy.py:508-516 | a file item can be uploaded exactly when it has a device, a member and readable content |
| OvaDeploy.DeployOva | src/saltext/vcf/clients/ovf_deploy.py:69-138 | for every way each call may end, the calls made are the planned ones up to the first failure, then the handlers and finally clauses that apply, then the disconnect; the result is that of the last exception not swallowed |
| OvaDeploy.UploadBlock | src/saltext/vcf/clients/ovf_deploy.py:98-117 | a failure in the block is followed by stopping the thread and, if that returns, by the abort |
| OvaDeploy.Materialize | src/saltext/vcf/clients/ovf_deploy.py:267-290 | a download that faults is removed, one that is interrupted is not |
| OvaDeploy.WithArchive | src/saltext/vcf/clients/ovf_deploy.py:76-120 | whatever happens after the fetch, the downloaded file is removed next |
| OvaDeploy.LeaseReleased | src/saltext/vcf/clients/ovf_deploy.py:94-117 | a granted lease is never both completed and aborted, and neither call returns exactly when waiting for it failed, the handler's stop did not return, or the abort did not |
| OvaDeploy.FaultedAbortLeavesLease | src/saltext/vcf/clients/ovf_deploy.py:433-436 | a run in which only the upload and the abort fault, and the lease stays open |
| OvaDeploy.TempRemoved | src/saltext/vcf/clients/ovf_deploy.py:118-120 | a downloaded file is removed exactly once on every path, but for an interrupted download |
| OvaDeploy.InterruptedDownloadStays | src/saltext/vcf/clients/ovf_deploy.py:276-286 | a run in which an interrupted download leaves its file |
| OvaDeploy.SessionClosed | src/saltext/vcf/clients/ovf_deploy.py:134-138 | once connected, the disconnect is made exactly once and last, on every path |
| OvaDeploy.PowerOnAfterCompletion | src/saltext/vcf/clients/ovf_deploy.py:122-126 | power-on only follows a completed lease, every earlier call having returned |
| OvaDeploy.ReturnsIffAllReturned | src/saltext/vcf/clients/ovf_deploy.py:128-138 | a result is returned exactly when every call returned, a fault of the disconnect apart |
| PollClock.StrictDeadline | src/saltext/vcf/clients/vc_patch.py:392-404 | a loop that stops past its deadline polls at most max(floor(timeout/pace) + 2, 1) times |
| PollClock.InclusiveDeadline | src/saltext/vcf/clients/sddc_tasks.py:65-76 | one that stops at its deadline polls at most max(ceil(timeout/pace) + 1, 1) times |
| PollClock.BoundsAreReached | src/saltext/vcf/clients/installer_bringup.py:125-135 | both bounds are attained by a clock that advances by the pace |
| PatchMonitor.MonitorStage | src/saltext/vcf/clients/vc_patch.py:407-461 | the loop ends in the first round whose verdict, read off the trace, is not to go on; the session is invalidated once per transient failure met |
| PatchMonitor.MonitorInstall | src/saltext/vcf/clients/vc_patch.py:464-498 | the same for the install monitor |
| PatchMonitor.WaitForStaged | src/saltext/vcf/clients/vc_patch.py:385-404 | the same for the fallback wait, which tolerates every HTTP error |
| PatchMonitor.StageErrorLimit | src/saltext/vcf/clients/vc_patch.py:441-456 | at every loop head the run of transient failures is below the maximum; too many errors is raised exactly when a failure makes the run reach it |
| PatchMonitor.InstallErrorLimit | src/saltext/vcf/clients/vc_patch.py:480-495 | the same for the install monitor |
| PatchMonitor.ErrorRunIsMaximal | src/saltext/vcf/clients/vc_patch.py:434-444 | the counted run is the longest run of consecutive transient failures |
| PatchMonitor.StageOutcomes | src/saltext/vcf/clients/vc_patch.py:420-460 | over the trace up to the last poll: each outcome holds exactly when the last round calls for it — success a first match, a first failed state as the counting record says it, too many errors, any other error, a timeout after a tolerated observation — with what it carries, and no round before called for any |
| PatchMonitor.InstallOutcomes | src/saltext/vcf/clients/vc_patch.py:470-497 | the same for the install monitor, whose success is the first `UP_TO_DATE` |
| PatchMonitor.InstallStates | src/saltext/vcf/clients/vc_patch.py:376-382 | the installation ends well in the first round whose status is `UP_TO_DATE`, and badly for `INSTALL_FAILED`, where the record under `value` counts whatever is around it, and the outer one only when there is none; for any other state it ends in neither way |
| PatchMonitor.StageStates | src/saltext/vcf/clients/vc_patch.py:376-382 | the same for the two failure states of the staging |
| PatchMonitor.NoRecordGoesOn | src/saltext/vcf/clients/vc_patch.py:376-382 | a status that is no record ends neither monitor but by the clock |
| PatchMonitor.LastReads | src/saltext/vcf/clients/vc_patch.py:392-404 | the status and the staged update remembered are those of the last round that read one |
| PatchMonitor.TransientCountIs | src/saltext/vcf/clients/vc_patch.py:434-450 | sessions are invalidated once for each round that met one of six HTTP codes |
| PatchMonitor.WaitOutcomes | src/saltext/vcf/clients/vc_patch.py:393-403 | success is the first match; a timeout the first round past the deadline, with the last update read |
| PatchMonitor.PollsAreBounded | src/saltext/vcf/clients/vc_patch.py:385-498 | none of the three loops outlives its bound on polls, whatever the server answers, and each polls at least once |
| TaskWaiters.Wait | src/saltext/vcf/clients/sddc_tasks.py:51-76 | every poll but the last saw a running task before the deadline; a returned record is the last one fetched and successful; a timeout follows a running task |
| TaskWaiters.SddcOutcomes | src/saltext/vcf/clients/sddc_tasks.py:66-75 | the SDDC waiter returns exactly on Successful, fails exactly on Failed and Cancelled, and waits on every other status until the deadline |
| TaskWaiters.BringupOutcomes | src/saltext/vcf/clients/installer_bringup.py:126-135 | the bringup waiter waits exactly on three statuses, and returns on three others only |
| TaskWaiters.ValidationOutcomes | src/saltext/vcf/clients/installer_bringup.py:68-77 | the validation waiter reads the execution status, and then the result status, each before the plain status, which counts when they are missing or empty |
| TaskWaiters.WaitIsBounded | src/saltext/vcf/clients/installer_bringup.py:60-77 | the three task waiters poll at least once and at most max(ceil(timeout/pace) + 1, 1) times |
| VersionMatch.MatchVersion | src/saltext/vcf/clients/vc_patch.py:309-322 | the first exact item beats every comparable one, otherwise the first comparable item is returned; none exactly when none is comparable |
| VersionMatch.ItemsMatchByFields | src/saltext/vcf/clients/vc_patch.py:305-322 | an item is exact when one of its four fields is the request, comparable when one starts it or is started by it |
| VersionMatch.MatchersAgree | src/saltext/vcf/clients/vc_patch.py:251-290 | both matchers agree on a flat record exactly when no field is empty or some non-empty field is comparable with the request |
| VersionMatch.EmptyFieldDisagrees | src/saltext/vcf/clients/vc_patch.py:309-322 | a record with an empty field on which they disagree |
| VersionMatch.StagedByFields | src/saltext/vcf/clients/vc_patch.py:259-290 | a version is staged by a text, or by a record one of whose non-empty fields, own or nested, starts it or is started by it; an empty response stages nothing |
| VersionMatch.AnythingStaged | src/saltext/vcf/clients/vc_patch.py:259-266 | with no version asked for, everything but an empty response or an empty text is staged |
| VersionMatch.ResolveUpdateVersion | src/saltext/vcf/clients/vc_patch.py:293-368 | which item of the listing, in any of its shapes, is chosen; a chosen record resolves to its version if that is not empty, else to its name, else to its id, and to an error exactly when all three are empty or missing; the detail is a lookup exactly when the resolved version is known; and when each other error is raised |
| VersionMatch.GivenIs | src/saltext/vcf/clients/vc_patch.py:336 | a version is given unless it is missing, empty, or the word none or null in any capitals |
| VersionMatch.ResolvedIsRecognised | src/saltext/vcf/clients/vc_patch.py:361-363 | a version resolved from a record is recognised once the record is staged |
| ProfileDocument.GetSet | src/saltext/vcf/clients/cluster_config.py:156-183 | a set followed by a get returns the value |
| ProfileDocument.GetSetBelow | src/saltext/vcf/clients/cluster_config.py:156-183 | reading below the written path reads in the written value |
| ProfileDocument.GetSetAbove | src/saltext/vcf/clients/cluster_config.py:156-183 | reading above it finds the old dictionary, or an empty one, with the value set |
| ProfileDocument.GetSetDiverging | src/saltext/vcf/clients/cluster_config.py:178-182 | a diverging path reads as before, even when values in the way were replaced |
| ProfileDocument.SetSet | src/saltext/vcf/clients/cluster_config.py:171-183 | a second set overwrites the first |
| ProfileDocument.SetsCommute | src/saltext/vcf/clients/cluster_config.py:171-183 | sets at diverging paths commute |
| ProfileDocument.SetGetIsNoOp | src/saltext/vcf/clients/cluster_config.py:171-183 | writing back what is read changes nothing exactly when the path leads somewhere |
| ProfileDocument.SetThrough | src/saltext/vcf/clients/cluster_config.py:178-181 | making room for a path first does not change what the write amounts to |
| ProfileHeap.GetProfileValue | src/saltext/vcf/clients/cluster_config.py:156-168 | on any dictionaries, shared or cyclic, the loop walks as far as it can and returns what stands at the path's end, or null |
| ProfileHeap.GetReads | src/saltext/vcf/clients/cluster_config.py:156-168 | on a tree that holds a document, what was got is the document's value |
| ProfileHeap.SetProfileValue | src/saltext/vcf/clients/cluster_config.py:171-183 | for any value, shared, doubled or cyclic: walking the path afterwards ends at the very value; the dictionaries are still a tree if and only if the value is a tree of its own that shares none with what remains; where it shows a document they then hold theirs with that document set; a value that contains no dictionary above the path's end is untouched; where the path leads somewhere exactly one entry is assigned; a root that is no dictionary raises |
| ProfileHeap.SetThenGet | src/saltext/vcf/clients/cluster_config.py:156-183 | a get after a set at the same path returns the very value, whatever it is |
| ProfileHeap.Descend | src/saltext/vcf/clients/cluster_config.py:176-181 | the loop reaches the dictionary for the last part, assigns to dictionaries above the path's end only, and to none where the path leads somewhere |
| ProfileHeap.WriteBack | src/saltext/vcf/clients/cluster_config.py:156-183 | writing back the very object that was read leaves every dictionary as it was |
| ProfileHeap.TreeKeptIffFits | src/saltext/vcf/clients/cluster_config.py:182 | after writing any value some index shows the dictionaries as a tree if and only if the value is a tree of its own that shares none with what remains |
| ProfileHeap.SharingLeavesNoTree | src/saltext/vcf/clients/cluster_config.py:182 | a dictionary written under a second key of its parent, after which no index shows a tree |
| ProfileHeap.DoublingLeavesNoTree | src/saltext/vcf/clients/cluster_config.py:182 | a fresh value with one dictionary under two keys, after which no index shows a tree |
| ProfileHeap.WriteEntry | src/saltext/vcf/clients/cluster_config.py:182 | one entry write of any value: still a tree if and only if the value is a tree that shares nothing with what remains, and then the document with the value set |
| ProfileHeap.Enter | src/saltext/vcf/clients/cluster_config.py:178-181 | one round steps into the named dictionary, made empty if need be, without changing what the whole write amounts to |
| ProfileHeap.SpliceKeepsTree | src/saltext/vcf/clients/cluster_config.py:178-182 | writing a value that shares nothing with what remains keeps the tree shape |
| ProfileHeap.SpliceShows | src/saltext/vcf/clients/cluster_config.py:178-182 | afterwards every path shows the document with the value set |
| StoragePolicy.ToSubprofiles | src/saltext/vcf/clients/vcenter_storage_policy.py:180-233 | one subprofile per ruleset with a rule, capabilities before tags, in order |
| StoragePolicy.FromSubprofiles | src/saltext/vcf/clients/vcenter_storage_policy.py:236-261 | the rulesets read back, or the error of the first rule that cannot be read |
| StoragePolicy.ReadsIff | src/saltext/vcf/clients/vcenter_storage_policy.py:241-254 | reading succeeds exactly when every rule has a first property, and every tag rule a discrete set there |
| StoragePolicy.RoundTrip | src/saltext/vcf/clients/vcenter_storage_policy.py:236-237 | decoding what was encoded gives the original back, empty rulesets dropped and tag values sorted, exactly when every capability key has a dot |
| StoragePolicy.RulesLookLike | src/saltext/vcf/clients/vcenter_storage_policy.py:190-228 | the namespaces, ids, property ids and negations of the rules for a capability and for a required and an excluded tag category |
| StoragePolicy.FirstUnreadable | src/saltext/vcf/clients/vcenter_storage_policy.py:241-254 | the first rule that cannot be read decides which error is raised |
| StoragePolicy.PutOver | src/saltext/vcf/clients/vcenter_storage_policy.py:252-254 | a key read twice keeps its first place and its last value |
| StoragePolicy.UndottedKeyIsLost | src/saltext/vcf/clients/vcenter_storage_policy.py:190 | a ruleset with a key without a dot that does not come back |
| StoragePolicy.CategorySurvives | src/saltext/vcf/clients/vcenter_storage_policy.py:208-211 | a tag category survives, however many negation marks it starts with |
| StoragePolicy.CapabilityIsNoTag | src/saltext/vcf/clients/vcenter_storage_policy.py:25-28 | a capability is never read back as a tag |
| StoragePolicy.SortTextsSorts | src/saltext/vcf/clients/vcenter_storage_policy.py:252 | sorting orders the values and loses none |
| StoragePolicy.TextLeqIs | src/saltext/vcf/clients/vcenter_storage_policy.py:252 | texts are ordered by the first character in which they differ, a text before its extensions |
| StoragePolicy.SameMeaning | src/saltext/vcf/clients/vcenter_storage_policy.py:79-81 | a ruleset and its rules are met by the same datastores |
| StoragePolicy.MeaningKept | src/saltext/vcf/clients/vcenter_storage_policy.py:79-81 | the OR of ANDs is preserved for a datastore exactly when no ruleset is empty or another one is met |
| StoragePolicy.EmptyRulesetIsLost | src/saltext/vcf/clients/vcenter_storage_policy.py:231-232 | an empty ruleset, which every datastore meets, and its policy, which none does |
| ResourcePools.Tree | src/saltext/vcf/clients/vcenter_resource_pool.py:38-64 | the child lists and roots built in place are those of the parent relation, in listing order |
| ResourcePools.BuildNodes | src/saltext/vcf/clients/vcenter_resource_pool.py:46-56 | one fresh node per distinct id, with the name of its last entry |
| ResourcePools.NameIsListed | src/saltext/vcf/clients/vcenter_resource_pool.py:53 | a pool has the name its last entry is listed with, or the one in its details when that is missing or empty |
| ResourcePools.RootIdsAre | src/saltext/vcf/clients/vcenter_resource_pool.py:59-63 | a pool is a root exactly when its parent is missing, empty or unlisted |
| ResourcePools.PathsAreUnique | src/saltext/vcf/clients/vcenter_resource_pool.py:57-64 | no pool is reached by two paths |
| ResourcePools.ForestIsExact | src/saltext/vcf/clients/vcenter_resource_pool.py:57-64 | every pool is reached, by one path, if and only if the parent relation has no cycle |
| ResourcePools.CycleIsUnreached | src/saltext/vcf/clients/vcenter_resource_pool.py:57-64 | below a cycle no chain of parents starts at a root |
| ResourcePools.TwoPoolCycle | src/saltext/vcf/clients/vcenter_resource_pool.py:57-64 | two pools that are each other's parents: no root, and neither is reached |
| ResourcePools.NodePathsAreIdPaths | src/saltext/vcf/clients/vcenter_resource_pool.py:57-64 | ways down through the built child lists are exactly the paths of the parent relation |
| ResourcePools.NodeCount | src/saltext/vcf/clients/vcenter_resource_pool.py:47-56 | there are as many nodes as distinct ids |
| VmInventory.Tree | src/saltext/vcf/clients/vcenter_vm.py:176-211 | the four passes leave exactly the buckets the listings call for, with their names and VMs; what that means is `VmsSitByListings` and `HostHoldsItsVms` |
| VmInventory.ApplyReflects | src/saltext/vcf/clients/vcenter_vm.py:191-210 | one more entry changes its own bucket only, and drops none |
| VmInventory.BucketsAreExact | src/saltext/vcf/clients/vcenter_vm.py:191-211 | every listed datacenter, cluster and host has a bucket; a host bucket holds exactly the VMs that belong there, in listing order |
| VmInventory.VmsSitByListings | src/saltext/vcf/clients/vcenter_vm.py:188-210 | a bucket is there exactly where a listed host's own entry puts it or a VM sits, and holds exactly the VMs that sit there, in listing order: under the cluster the last entry of their host names, in the datacenter the last entry of that cluster names, none where there is no entry |
| VmInventory.HostHoldsItsVms | src/saltext/vcf/clients/vcenter_vm.py:188-210 | the bucket of a host at that cluster and datacenter exists and holds exactly the VMs that name the host, in listing order; every other bucket of the host is empty; an unlisted host or cluster counts as under none |
| VmInventory.HostlessAreUnbound | src/saltext/vcf/clients/vcenter_vm.py:203-210 | the VMs without a host are exactly those in the unbound bucket under no datacenter and no cluster |
| VmInventory.VmsAreConserved | src/saltext/vcf/clients/vcenter_vm.py:202-211 | over all host buckets together every VM occurs as often as it is listed |
| VmInventory.Summary | src/saltext/vcf/clients/vcenter_vm.py:214-234 | the counts are those of each power state and CPU count, the memory is the sum |
| VmInventory.SummaryAddsUp | src/saltext/vcf/clients/vcenter_vm.py:217-230 | the power-state counts add up to the number of VMs |
| VmDisks.VirtualMachine.NextUnitNumber | src/saltext/vcf/clients/vim_vm_disk.py:145-156 | the least usable unit number that no disk on the controller has, if there is one |
| VmDisks.VirtualMachine.Add | src/saltext/vcf/clients/vim_vm_disk.py:56-105 | a success appends one disk with the next key on the given or else the first SCSI controller, with the given number or else the least usable one no disk there carries; without a controller, or with all usable numbers carried, it fails and changes nothing |
| VmDisks.VirtualMachine.Remove | src/saltext/vcf/clients/vim_vm_disk.py:121-135 | removed exactly when some disk has the key: then the devices before were `a + [d] + b` with `d` the first such disk, and are `a + b`; otherwise nothing changes |
| VmDisks.DiskAtFinds | src/saltext/vcf/clients/vim_vm_disk.py:159-163 | the lookup finds the first disk with a key, and fails only if there is none |
| VmDisks.RunKeepsValid | src/saltext/vcf/clients/vim_vm_disk.py:56-156 | over every run of automatic adds and removes the unit numbers on each controller stay distinct, within 0..15 and never 7 |
| VmDisks.UnitsValidIs | src/saltext/vcf/clients/vim_vm_disk.py:145-156 | what holds of the unit numbers, in terms of the device list: usable ones, and no two disks of one controller with the same |
| VmDisks.RunKeepsValidIff | src/saltext/vcf/clients/vim_vm_disk.py:72-74 | with unit numbers given by hand they do so at every moment if and only if each given one is usable and free on its controller when its turn comes |
| VmDisks.HandGivenDuplicate | src/saltext/vcf/clients/vim_vm_disk.py:72-74 | a number given by hand that another disk has |
| VmDisks.AddKeepsValidIff | src/saltext/vcf/clients/vim_vm_disk.py:72-86 | the same for one add |
| VmDisks.AddFailsIffFull | src/saltext/vcf/clients/vim_vm_disk.py:138-156 | after every run whose given numbers fit, an automatic add on the given or default controller fails for want of a number exactly when it carries 15 disks, which no controller exceeds |
| TrafficTypes.SelectTrafficTypes | src/saltext/vcf/clients/vim_host_network.py:517-532 | what is selected after the nested deselect loops and the select loop, also when a deselect raises no fault of the host but something else, or a type is rejected midway |
| TrafficTypes.DeselectAll | src/saltext/vcf/clients/vim_host_network.py:523-530 | the nested loops deselect what can be, up to the first entry whose deselect breaks |
| TrafficTypes.InterruptedKeepsRest | src/saltext/vcf/clients/vim_host_network.py:523-530 | a call that breaks there has given up the types shown before and keeps the others |
| TrafficTypes.ReplacesExactly | src/saltext/vcf/clients/vim_host_network.py:507-532 | the device ends with exactly the requested types if and only if every type that stays is requested, and every requested type comes before the first one the host rejects or is one that stays; other devices keep theirs |
| TrafficTypes.RejectedLosesOldTypes | src/saltext/vcf/clients/vim_host_network.py:523-532 | a call that ends at a rejected type has given up every old type that does not stay |
| TrafficTypes.ReplacementsThatFail | src/saltext/vcf/clients/vim_host_network.py:523-532 | a type that stays unrequested, and a rejected request that leaves nothing |
| TrafficTypes.FaithfulHostReplaces | src/saltext/vcf/clients/vim_host_network.py:523-532 | on a host that faults only on absent pairs and shows what is selected, the replacement is exact if and only if the host supports all requested types |
| FleetListing.List | src/saltext/vcf/clients/vcfops_fleet_passwords.py:99-123 | the pages collected up to the first one after which the loop may stop, and the total reported |
| FleetListing.TruthfulListing | src/saltext/vcf/clients/vcfops_fleet_passwords.py:111-123 | with a truthful total the whole listing in order, in max(1, ceil(n / page size)) requests |
| FleetListing.CompleteIff | src/saltext/vcf/clients/vcfops_fleet_certificates.py:138-150 | for any claimed total, the listing is complete exactly when it fits one page or the claim exceeds all pages but the last |
| FleetListing.NoTotalCutsOff | src/saltext/vcf/clients/vcfops_fleet_certificates.py:138-150 | two items of which only the first page is listed |
| FleetListing.CheckExpiry | src/saltext/vcf/clients/vcfops_fleet_passwords.py:163-191 | the three buckets are the items of each kind listed, in listing order; with a truthful server they cover all its contents and the counts add up to its total |
| FleetListing.BucketsPartition | src/saltext/vcf/clients/vcfops_fleet_certificates.py:211-239 | every item is in exactly one bucket, and the counts add up |
| FleetListing.KindsAre | src/saltext/vcf/clients/vcfops_fleet_passwords.py:165-180 | an item expires when at most the threshold times 86400000 milliseconds are left, and is fine when more are |
| FleetListing.RaisingThreshold | src/saltext/vcf/clients/vcfops_fleet_passwords.py:136-144 | raising the threshold only moves items from ok to expiring |
| LocalEnv.Local.Run | tools/helpers/cmd.py:147-186 | any well-nested program, raising or not, leaves the environment as it was and sees what lexical scoping says |
| LocalEnv.Local.EnvContext | tools/helpers/cmd.py:147-158 | the overrides hold for the body only |
| LocalEnv.Local.PathContext | tools/helpers/cmd.py:160-171 | the longer path holds for the body only |
| LocalEnv.InnermostWins | tools/helpers/cmd.py:147-158 | inside nested contexts the innermost override is seen |
| LocalEnv.UnsetIsOuter | tools/helpers/cmd.py:147-158 | a variable no context sets keeps its outer value |
| LocalEnv.PathListInside | tools/helpers/cmd.py:118-123 | the path list is the prepended entries followed by the old list exactly when none of them contains the separator |
| LocalEnv.SeparatorSplitsEntry | tools/helpers/cmd.py:169-170 | an entry with the separator comes back as two |
| LocalEnv.EmptyPrependKeepsPath | tools/helpers/cmd.py:160-171 | prepending nothing leaves a set `PATH` as it is |
| LocalEnv.UnsetPathKeepsEmptyEntry | tools/helpers/cmd.py:123 | an unset `PATH` counts as one empty entry, which a prepend keeps |
| LocalEnv.VenvInside | tools/helpers/cmd.py:173-186 | inside a virtual environment its directory comes first on the path exactly when it does not contain the separator, `VIRTUAL_ENV` names it, and nothing else differs |
| Strings.SplitJoin | tools/helpers/cmd.py:169-170 | splitting undoes joining exactly when no part contains the separator |
| Strings.JoinSplit | tools/helpers/cmd.py:123 | joining undoes splitting |
| Strings.ReplaceOnce | src/saltext/vcf/clients/ovf_deploy.py:511 | replacing a character leaves a text without it, and puts the new text in the place of a single one |
| InstallerSpec.Validate | src/saltext/vcf/clients/installer_topology.py:4-20 | valid exactly when all structural rules hold; the errors and warnings, in order |
| InstallerSpec.ValidIffRules | src/saltext/vcf/clients/installer_topology.py:23-102 | no error is reported exactly when all rules hold |
| InstallerSpec.RulesAre | src/saltext/vcf/clients/installer_topology.py:23-102 | the rules in terms of what the spec holds: the keys, the host that has the target as name or address, the two backends in any capitals, three complete hosts, the three networks |
| InstallerSpec.EverythingMissing | src/saltext/vcf/clients/installer_topology.py:60-102 | the errors of an empty bringup, all of them, in their order |
| InstallerSpec.Report.ValidateAppliance | src/saltext/vcf/clients/installer_topology.py:23-57 | appends the appliance's errors and warnings to the shared lists |
| InstallerSpec.Report.ValidateBringup | src/saltext/vcf/clients/installer_topology.py:60-102 | appends the bringup's errors and warnings to the shared lists |
| InstallerSpec.FindHost | src/saltext/vcf/clients/installer_topology.py:105-109 | the first host that has the text as its name or as its address, none exactly when no host has |
| InstallerSpec.KnownHostNames | src/saltext/vcf/clients/installer_topology.py:112-122 | a name is known exactly when some listed host has it as full name, short name or address |
| InstallerSpec.ShortNameIs | src/saltext/vcf/clients/installer_topology.py:118-119 | the short name is what comes before the first dot |
| InstallerSpec.DeployInstaller | src/saltext/vcf/clients/installer_appliance.py:69-92 | which error is raised when, and what the backend is launched with |
| InstallerSpec.DeployValidated | src/saltext/vcf/clients/installer_appliance.py:95-113 | a valid spec finds its host and keys and reaches the backend exactly when its backend key is missing or non-empty, that host has a password key and the port is a number; what the backend is given then: the texts of the spec, the credentials of the first host so named, `root` and 443 by default |
| InstallerSpec.ValidButNotDeployable | src/saltext/vcf/clients/installer_appliance.py:69-72 | valid specs with an empty backend, a null one, and no password key, that are not deployable |
| Snapshots.SearchIsFirstInPreorder | src/saltext/vcf/clients/vim_vm_snapshot.py:173-190 | both searches return the first match in preorder |
| Snapshots.FoundIffPresent | src/saltext/vcf/clients/vim_vm_snapshot.py:173-190 | nothing is found exactly when no node matches |
| Snapshots.NameIdRoundTrip | src/saltext/vcf/clients/vim_vm_snapshot.py:35-44 | with unique ids the id of the snapshot found by a name leads back to the name |
| Snapshots.ListingKeepsPreorder | src/saltext/vcf/clients/vim_vm_snapshot.py:161-170 | the listing keeps the shape of the forest and its preorder |

## Left out

- LeaseProtocol.PingsNeverDecreaseIffSteady: percentages are exact quotients; rounding of very large byte counts in floating point is not modelled.
- OvaUpload.UploadDisks: the constant overwrite header and the text of error messages are not modelled.
- OvaDeploy.DeployOva: reading the lease's information and building the thread object between waiting and the upload block count as part of the wait, and a storage profile as part of creating the spec; the tar file's own context and reading the machine's name for the result are not modelled.
- OvaDeploy.TempRemoved: says that the removal is called, not that the file system obeys.
- VersionMatch.ResolveUpdateVersion: lookups are a parameter that says which versions are found; fields are texts, so a field holding the number 0 is not covered.
- PatchMonitor.MonitorStage: the text of errors is not modelled; any exception that is no HTTP error is one case.
- TaskWaiters.Wait: the three waiters share one loop with their own classification of records; the error text is not modelled.
- ProfileHeap.SetProfileValue: the document is a tree before the call; that everything within reach has a snapshot `all` is taken for granted; what later writes to a dictionary that has become shared do is not modelled.
- StoragePolicy.FromSubprofiles: property values other than discrete sets of texts are opaque, and the resource type of a policy is not modelled.
- ResourcePools.BuildNodes: detail requests are a function of the id; one that fails ends the whole call and is not modelled.
- VmDisks.RunKeepsValidIff: the server accepts every add, as the client does; devices other than disks that occupy a unit number are not looked at, as in the source.
- TrafficTypes.SelectTrafficTypes: the configuration is read once, before the first call, as the loop over it does; which exceptions a deselect raises depends on the type only.
- FleetListing.List: page sizes are positive and contents do not change between pages; the ISO rendering and the rounding of days are not modelled.
- InstallerSpec.Validate: values other than texts under text keys are not modelled; messages are error codes.
- LocalEnv.Local.Run: values are texts; the check that a directory is a virtual environment is a parameter; `:` is the path separator.
- Strings.SplitJoin: separators are single characters.
- REST and SOAP wrappers, request bodies, sessions, TLS, OVF descriptor rewriting and the lookup of targets: one-branch plumbing.
- `nsx_upgrade.py`, `vcfa_lifecycle.py` and `wait_until_reachable`: the same deadline loop, covered by `PollClock`.
- `_wait_lease_ready`: the same loop again; here it is one call that may fail.
- `Local.cwd`, `Command` and process execution in `tools/helpers/cmd.py`: not part of the environment stack.
