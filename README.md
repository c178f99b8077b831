# FreeIPA replica management, port check and platform hook — a Dafny model

This project models three parts of FreeIPA in Dafny and proves properties
of the model.

- **`ipa-replica-manage`** runs on a domain without managed topology.
  - It reads the Replica Update Vectors (RUVs) of a directory server. It
    also finds the replica ID of a host and cleans up RUVs that no longer
    belong to any master.
  - Before a master or one of its replication links is deleted, it checks
    that no other master is left without a link. It also checks that the
    last CA or DNS server is not removed.
  - It hands the DNA ID ranges of a deleted master to a surviving master,
    and it validates and writes new DNA ranges.
  - Before anything else, it checks its positional arguments against the
    command table.
- **The installer's port check** (`conncheck`):
  - the `CheckedPort` value, with its equality, ordering, hash and
    representation;
  - the lists of IPA ports;
  - the `test()` report, which lists the ports in sorted order.
- **The `ipaplatform` meta import hook**:
  - detects the platform from `sys.platform` and `/etc/os-release`;
  - picks the first provider package that can be imported;
  - redirects the generic `ipaplatform.*` modules to that provider.

## How the model is built

- **Directory reads are inputs.** The directory and the user's answers to
  prompts become input values:
  - `RuvQuery`, `MasterProbe`, `DnaSnapshot`, `Candidate`, `Neighbour`,
    `MasterServices`, `DelLinkInput` and `DelMasterInput` hold what the
    LDAP reads return;
  - booleans hold the answers to the confirmation prompts.
- **Loops become methods.** Each loop of the source is a `method` with a
  `while` loop. Its `ensures` ties the result to a specification function.
  Lemmas then prove what that function means:
  - membership in both directions;
  - "first match" properties;
  - sortedness together with being a permutation;
  - round trips.
- **Four operations are modelled as corrected.** The four possible bugs
  under "## Findings" are each modelled twice. One member follows the code
  as written and a lemma shows the problem. A corrected member is used by
  the rest of the model. So these members describe the corrected program,
  not the code as written:
  - `DnaRange.SetDnaRange`, `DnaRange.SetDnaRangeSpec` and
    `DnaRange.SetDnaRangeSound` search the trust ranges one level deep. The
    code as written is `DnaRange.TrustCheckAsWrittenIsDead`.
  - `Topology.DelLink` refuses when the agreement type cannot be read. The
    code as written is `Topology.AgreementKindAsWritten`, which crashes.
  - `ConnCheck.Test` decides root by the effective user id. The code as
    written is `ConnCheck.IsRootAsWritten`.
  - `ImportHook.ReadOsRelease`, `ImportHook.PlatformIds` and
    `ImportHook.NewImporter` skip blank and comment lines in os-release.
    The code as written is `ImportHook.OsReleaseAsWritten`, which fails on
    them. `ImportHook.OsReleaseExtendsAsWritten` proves that both readers
    agree on every file the code as written accepts.
- **Python semantics are written out** in module `Text`:
  - `str.split` and `str.join`;
  - `strip`, `lstrip` and `rstrip` of a character set;
  - `int()`, including `_` separators and signs.

Modules:
- `Basics`: `Option` and `Result`.
- `Text`: Python string helpers.
- `Cli`: `parse_options`.
- `Ruv`: RUV decoding, `get_ruv`, `get_ruv_both_suffixes`, `get_rid_by_host`.
- `Dangling`: `clean_dangling_ruvs`.
- `DnaRange`: `validate_range`, `range_intersection`, `set_DNA_range`,
  `store_DNA_range`.
- `Topology`: `check_last_link`, `ensure_last_services`, `del_link`,
  `del_master_direct`.
- `ConnCheck`: `CheckedPort`, the port lists, `test()`.
- `ImportHook`: `IpaMetaImporter`.

## Model

| member | source | states |
|---|---|---|
| Cli.CommandsWellFormed | ipaserver/commands/ipa_replica_manage.py:53-72 | The command table has distinct names. Every command's least argument count is at most its greatest. Every command that needs an argument has a "missing" message. |
| Cli.Lookup | ipaserver/commands/ipa_replica_manage.py:117-120 | A row is found exactly when some table row carries the name. The row found is in the table and has that name. |
| Cli.ParseArguments | ipaserver/commands/ipa_replica_manage.py:113-133 | The arguments are accepted exactly when the first one names a command and the remaining count lies within that command's bounds. Accepted arguments are returned unchanged. A rejection carries the exact `parser.error` message. |
| Cli.ParseOptions | ipaserver/commands/ipa_replica_manage.py:83-135 | The same properties as `ParseArguments`, over the real command table: accept-iff, the arguments returned unchanged, and the exact error message. |
| Cli.LookupUnique | ipaserver/commands/ipa_replica_manage.py:117-120 | With distinct names, looking up the name of row k gives row k. |
| Cli.ComplaintNamesTheCommand | ipaserver/commands/ipa_replica_manage.py:118-133 | A known command with a bad count is answered with "Invalid syntax", the bound that was missed and that command's usage. Only an unknown command, or no command at all, gets the list of commands. |
| Ruv.ParseRuvValue | ipaserver/commands/ipa_replica_manage.py:395-405 | A value is skipped as a generation exactly when it starts with `{replicageneration`. A decoded replica has a non-empty all-digit replica ID and a netloc free of URL delimiters. |
| Ruv.LastUrlEnd | ipaserver/commands/ipa_replica_manage.py:397 | The end of the URL group, `:\d+}`, is the last position where the pattern can end, because the greedy `.*` takes as much as it can. |
| Ruv.ParseRuvValueOfReplica | ipaserver/commands/ipa_replica_manage.py:397-403 | Round trip: the RUV text `{replica <rid> ldap://<host>:<port>}<tail>` decodes to netloc `host:port` and replica ID `rid`. |
| Ruv.ScanValuesMembers | ipaserver/commands/ipa_replica_manage.py:392-405 | A server is collected exactly when some value decodes to it. A value is reported undecodable exactly when it is in the input and does not decode. |
| Ruv.ScanServersSound | ipaserver/commands/ipa_replica_manage.py:392-405 | Every collected server comes from a value of the input. |
| Ruv.ScanServersComplete | ipaserver/commands/ipa_replica_manage.py:392-405 | Every value that decodes to a replica is collected. |
| Ruv.ScanUndecoded | ipaserver/commands/ipa_replica_manage.py:404-405 | The values reported as undecodable are exactly the input values that decode neither to a generation nor to a replica. |
| Ruv.ScanValuesRids | ipaserver/commands/ipa_replica_manage.py:397-403 | Every collected replica ID is a non-empty string of digits. |
| Ruv.ScanFromAppend | ipaserver/commands/ipa_replica_manage.py:393-394 | Scanning entry after entry is scanning the concatenation of their values. |
| Ruv.GetRuv | ipaserver/commands/ipa_replica_manage.py:365-407 | The result equals `GetRuvSpec`. A failed connection gives RuntimeError. An empty result gives NoRUVsFound. Otherwise the result is the scan of all values of all tombstone entries, in order. |
| Ruv.ScanEntry | ipaserver/commands/ipa_replica_manage.py:394-405 | The inner loop over one entry's values continues the scan. |
| Ruv.RuvsBothSuffixes | ipaserver/commands/ipa_replica_manage.py:410-441 | RuntimeError escapes exactly when both lookups raise it. NoRUVsFound is raised exactly when both fail and at least one of them did not fail with RuntimeError. The result is a dict exactly when one lookup succeeds, and it holds both lists unchanged. |
| Ruv.GetRidByHost | ipaserver/commands/ipa_replica_manage.py:471-485 | Exits exactly when the connection fails. Returns None exactly when there are no RUVs or no entry has netloc `host:389`. Otherwise returns `int()` of the replica ID of the first such entry. |
| Ruv.StripPort | ipaserver/commands/ipa_replica_manage.py:720-731 | The result is no longer than the input. No colon in the result is followed by a digit. |
| Ruv.StripPortOfNetloc | ipaserver/commands/ipa_replica_manage.py:720-731 | Stripping `host:port` gives back `host` when the host has no colon. |
| Ruv.StripPortIdempotent | ipaserver/commands/ipa_replica_manage.py:720-731 | Stripping twice is stripping once. |
| Ruv.StripPortUnchanged | ipaserver/commands/ipa_replica_manage.py:720-731 | A text without `:<digit>` is left unchanged. |
| Dangling.Gather | ipaserver/commands/ipa_replica_manage.py:641-736 | The result equals `GatherSpec`. Listing fails when there are no masters or a CA lookup fails. Otherwise the first online master whose read fails stops the run. Otherwise the result holds every master's information and the unions of the self RUVs, the self CS-RUVs and the offline hosts. |
| Dangling.ProbeAll | ipaserver/commands/ipa_replica_manage.py:678-736 | The second gathering loop stops at the first failing master. Otherwise it returns the per-master information and the unions. |
| Dangling.ProbeMaster | ipaserver/commands/ipa_replica_manage.py:678-716 | The reads of one master fail exactly when `ProbeFails` holds. Otherwise they give that master's own RUV keys. |
| Dangling.UnionOfMembers | ipaserver/commands/ipa_replica_manage.py:678-711 | An item is in the union exactly when some master contributes it. |
| Dangling.MarkDangling | ipaserver/commands/ipa_replica_manage.py:738-755 | The marks of master i are `MarksOf` for that master. `dangles` holds exactly when some master marks something. |
| Dangling.MarkedIffDangling | ipaserver/commands/ipa_replica_manage.py:738-755 | An RUV is marked exactly when the master is online, holds the RUV, no master reports it as its own and its host is not offline. The same holds for CS-RUVs. |
| Dangling.SelfReportedNeverMarked | ipaserver/commands/ipa_replica_manage.py:693-755 | The replica ID that an online master reports as its own is never marked. No RUV of an offline host is marked. |
| Dangling.CleanEach | ipaserver/commands/ipa_replica_manage.py:779-786 | One inner cleanup loop adds a task for every replica ID of its set that has not been cleaned yet. It keeps earlier tasks and keeps replica IDs distinct. |
| Dangling.IssueCleanups | ipaserver/commands/ipa_replica_manage.py:775-786 | Each replica ID gets at most one task. The tasks cover exactly the marked replica IDs. Every task is issued for the first master that marks its replica ID. |
| Dangling.CleanedOnce | ipaserver/commands/ipa_replica_manage.py:775-786 | A replica ID marked on several masters, or in both suffixes, is cleaned by exactly one task. |
| Dangling.CleanDanglingRuvs | ipaserver/commands/ipa_replica_manage.py:630-786 | Gathering errors pass through. "No dangling RUVs" is reported exactly when nothing is marked. The run is aborted exactly when something is marked and it is neither forced nor confirmed. After a successful gather, the run ends in cleanup exactly when something is marked and it is forced or confirmed. The cleanup tasks have the `IssueCleanups` properties. |
| DnaRange.ParseRange | ipaserver/commands/ipa_replica_manage.py:1374-1400 | A parsed start is never negative. |
| DnaRange.ValidateRange | ipaserver/commands/ipa_replica_manage.py:1374-1400 | "must be the form x-y" exactly when there is no `-`. "must consist of integers" exactly when a half is not an integer. No error exactly when the range parses to 0 < a < b < MAXINT, or to 0-0 where the sentinel is allowed. The bounds error and "Invalid range" are given for the cases their checks name. |
| DnaRange.ValidateFormattedRange | ipaserver/commands/ipa_replica_manage.py:1374-1400 | Round trip: `str(a) + "-" + str(b)` parses back to (a, b). It validates exactly when (a, b) is acceptable. |
| DnaRange.SeparatorLedRangeRefused | ipaserver/commands/ipa_replica_manage.py:1385-1389 | A start led by the 0x1c separator gets "must consist of integers", because `int()` skips only space, \t, \n, \v, \f and \r. |
| DnaRange.AllZeroOnlyAsSentinel | ipaserver/commands/ipa_replica_manage.py:1391-1392 | "0-0" is accepted exactly where the all-zero sentinel is allowed. |
| DnaRange.RangeIntersectionSharesPoint | ipaserver/commands/ipa_replica_manage.py:1402-1403 | The overlap test holds exactly when some integer lies in both closed intervals. |
| DnaRange.RangeIntersectionSymmetric | ipaserver/commands/ipa_replica_manage.py:1402-1403 | The overlap test does not depend on the order of the intervals. |
| DnaRange.SearchRanges | ipaserver/commands/ipa_replica_manage.py:1455-1482 | A one-level search returns exactly the child ranges of the requested class. |
| DnaRange.FirstOverlapNone | ipaserver/commands/ipa_replica_manage.py:1421-1453 | No overlap is found exactly when no checked master's current or next range meets the new range. |
| DnaRange.FirstOverlapFound | ipaserver/commands/ipa_replica_manage.py:1421-1453 | A reported overlap is the overlap of some master in the list. |
| DnaRange.FirstOverlapSome | ipaserver/commands/ipa_replica_manage.py:1421-1453 | An overlap on any checked master is found. |
| DnaRange.FindOverlap | ipaserver/commands/ipa_replica_manage.py:1421-1453 | The loop over the masters returns `FirstOverlap`. |
| DnaRange.CheckIdRanges | ipaserver/commands/ipa_replica_manage.py:1455-1482 | The domain and trust loops return the verdict of `IdRangeVerdict` with a one-level trust search. |
| DnaRange.IdRangeVerdictNone | ipaserver/commands/ipa_replica_manage.py:1455-1482 | A range the checks let through fits inside some domain ID range and meets no trust range. |
| DnaRange.TrustCheckAsWrittenIsDead | ipaserver/commands/ipa_replica_manage.py:1471-1482 | With the base-scope search, the trust check can never refuse a range. |
| DnaRange.TrustCheckAsWrittenAcceptsOverlap | ipaserver/commands/ipa_replica_manage.py:1471-1482 | A concrete directory on which the range 1000-2000 is accepted although it meets a trust range. |
| DnaRange.TrustCheckRejectsOverlap | ipaserver/commands/ipa_replica_manage.py:1471-1482 | With the one-level search, any range that meets a trust range is refused. |
| DnaRange.SetDnaRange | ipaserver/commands/ipa_replica_manage.py:1356-1503 | The result equals `SetDnaRangeSpec`. The checks run in order: validation, connection, masters readable, overlap, domain ranges, trust ranges, then the write's outcome. The trust check is the corrected one-level search; the code as written is `DnaRange.TrustCheckAsWrittenIsDead`. |
| DnaRange.SetDnaRangeSound | ipaserver/commands/ipa_replica_manage.py:1356-1503 | A range that is written successfully is either 0-0 on the next range, or a range 0 < a < b < MAXINT that meets no checked master's ranges, lies inside a domain ID range and meets no trust range. This holds for the corrected trust search; as written, an overlapping trust range is accepted (`DnaRange.TrustCheckAsWrittenAcceptsOverlap`). |
| DnaRange.SetDnaRangeOkSteps | ipaserver/commands/ipa_replica_manage.py:1356-1503 | A successful write passed validation, the connection and, for a non-zero start, the overlap and ID range checks. |
| DnaRange.SetDnaRangeRejectsOverlap | ipaserver/commands/ipa_replica_manage.py:1421-1453 | A new range with a positive start that meets a checked master's range is refused before anything is written. |
| DnaRange.SetDnaRangeZeroSkipsChecks | ipaserver/commands/ipa_replica_manage.py:1408-1421 | Clearing the next range with 0-0 skips every overlap and ID range check. |
| DnaRange.SetDnaRangeOverlapScenario | ipaserver/commands/ipa_replica_manage.py:1421-1453 | Setting 100-200 on one master while another holds 150-250 is refused and names that other master. |
| DnaRange.StoreDnaRange | ipaserver/commands/ipa_replica_manage.py:1314-1353 | An unreadable or empty master list gives `CandidatesUnreadable`. Otherwise the result equals `StoreSpec`. |
| DnaRange.StoreSpecHandsToFirstTaker | ipaserver/commands/ipa_replica_manage.py:1337-1353 | The range goes to the first surviving master with no next range whose save returns, provided every master before it was passed over. |
| DnaRange.StoreSpecHandedToTaker | ipaserver/commands/ipa_replica_manage.py:1337-1353 | Whatever is handed over goes to such a taker, never to the deleted master. |
| DnaRange.StoreSpecNoTaker | ipaserver/commands/ipa_replica_manage.py:1337-1353 | Nobody takes the range exactly when every candidate is passed over. |
| Topology.OrphanedNames | ipaserver/commands/ipa_replica_manage.py:789-837 | A name is listed exactly when that neighbour's only agreement is with the deleted master. |
| Topology.CheckLastLink | ipaserver/commands/ipa_replica_manage.py:789-837 | Aborts exactly when an unreachable neighbour is neither forced nor confirmed. Otherwise returns the `, `-joined orphaned names, or None when there are none. |
| Topology.CheckLastLinkExample | ipaserver/commands/ipa_replica_manage.py:790-804 | In the chain B-D-C-A, deleting D orphans B and not C. |
| Topology.EnsureLastServices | ipaserver/commands/ipa_replica_manage.py:851-905 | Refuses to delete the last CA. Stops on the last DNS server unless forced or confirmed. Returns the host's own services, the other masters' services and the first other CA host. |
| Topology.AnyHasMethod | ipaserver/commands/ipa_replica_manage.py:878-887 | `any(...)` holds exactly when some list contains the service. |
| Topology.OtherServicesProvide | ipaserver/commands/ipa_replica_manage.py:862-887 | Some other master's list holds a service exactly when some other master provides it. |
| Topology.FirstCaHostIsFirst | ipaserver/commands/ipa_replica_manage.py:862-876 | The fallback CA host is the first other master running a CA. There is none exactly when no other master runs one. |
| Topology.LastCaProtected | ipaserver/commands/ipa_replica_manage.py:875-880 | The last-CA refusal fires exactly when the deleted master runs a CA and no fallback CA host is found. So a deleted CA master always leaves a fallback CA host. |
| Topology.AgreementKindAsWritten | ipaserver/commands/ipa_replica_manage.py:268-285 | A lookup error leaves `type1` unbound. |
| Topology.AgreementKind | ipaserver/commands/ipa_replica_manage.py:268-285 | Never crashes. Agrees with the code as written whenever the lookup does not raise. Gives an agreement type exactly when one is found and the topology is not managed. |
| Topology.AgreementKindAsWrittenCrashes | ipaserver/commands/ipa_replica_manage.py:268-285 | A raising lookup makes the code as written crash, while the corrected step refuses. |
| Topology.DelLink | ipaserver/commands/ipa_replica_manage.py:253-363 | Never crashes, because the agreement type comes from the corrected `AgreementKind`; the code as written crashes when that lookup raises (`Topology.AgreementKindAsWrittenCrashes`). A missing agreement is refused or exits. Without force, an IPA link is only deleted when both hosts keep another link. The current DNA range of the second host is handed over by `store_DNA_range`. When that range was saved on a master, the on-deck range does not go to the same master (`Topology.SecondHandoverElsewhere`). Winsync links and unreachable peers hand nothing over. |
| Topology.AfterHandover | ipaserver/commands/ipa_replica_manage.py:319-326 | After the current range is saved on a master, that master's entry in the list now has the range on deck. Its earlier write outcome is kept. Every other entry is unchanged, and so is the whole list when nothing was saved. |
| Topology.SecondHandoverElsewhere | ipaserver/commands/ipa_replica_manage.py:321-326 | The second `store_DNA_range` call, for the on-deck range, never hands it to the master that was just saved the current range. |
| Topology.RemoveFirst | ipaserver/commands/ipa_replica_manage.py:1008-1011 | `list.remove`: drops one occurrence as a multiset. A list without the name is unchanged. |
| Topology.RemoveFirstDistinct | ipaserver/commands/ipa_replica_manage.py:1008-1011 | With distinct names, the deleted host is gone and every other name stays. |
| Topology.DelMasterDirect | ipaserver/commands/ipa_replica_manage.py:948-1054 | The peers whose agreements are removed are: the local host for winsync; the deleted master's agreements when it is reachable; otherwise the masters other than the deleted one. The orphan test runs exactly for a reachable IPA master in a topology of more than two masters. Aborts and unreachable errors happen only without force. A refusal to orphan names exactly the `, `-joined `OrphanedNames` of the neighbours. A deletion that passed the orphan test orphans nobody and met no unconfirmed unreachable neighbour. An orphan-check abort happens only when some neighbour stops it. A deletion of a reachable IPA master never removes the last CA, and it removes the last DNS server only when forced or confirmed. A services refusal is the last-CA refusal. |
| ConnCheck.NewCheckedPort | ipaserver/install/conncheck.py:37-45 | A port is constructed exactly when the type is a stream or a datagram socket. The fields are stored as given. |
| ConnCheck.HashAgreesWithEq | ipaserver/install/conncheck.py:47-53 | Two ports are equal exactly when their hash keys (port, type) are equal. |
| ConnCheck.LtStrictTotalOrder | ipaserver/install/conncheck.py:35-58 | `<` is irreflexive, asymmetric, total up to `==` and transitive. The derived `<=` is transitive. |
| ConnCheck.ReprDeterminesPort | ipaserver/install/conncheck.py:60-65 | The representation determines the port, the type and the description. |
| ConnCheck.SortPortsSortsAndPermutes | ipaserver/install/conncheck.py:140 | `sorted` returns an ordered permutation of its input. |
| ConnCheck.InsertSorted | ipaserver/install/conncheck.py:140 | Inserting into a sorted list keeps it sorted. |
| ConnCheck.SortPortsStrict | ipaserver/install/conncheck.py:140 | Sorting ports with pairwise distinct keys gives a strictly increasing list. |
| ConnCheck.IpaPortsWellFormed | ipaserver/install/conncheck.py:86-133 | Every listed port has a valid socket type. No two listed ports are equal. |
| ConnCheck.ReportCoversIpaPorts | ipaserver/install/conncheck.py:133-140 | The report lists each IPA port once, in strictly increasing (port, type) order. |
| ConnCheck.RootTestAsWrittenUsesGroup | ipaserver/install/conncheck.py:137-142 | A user with uid 1000 and gid 0 counts as root as written, but not as intended. For the first listed port, 389/TCP ("389-DS: insecure port"), when it cannot be bound, the test as written reports "False" and the intended test reports "unknown". |
| ConnCheck.Report | ipaserver/install/conncheck.py:138-145 | Writes the notice first when not root, then one line `<repr> \t <status>` per port in order. The status is "unknown" for ports below 1024 when not root. |
| ConnCheck.Test | ipaserver/install/conncheck.py:136-145 | The report over the sorted IPA ports, with root decided by the effective user id. |
| ImportHook.Entry | ipaplatform/_importhook.py:67-69 | A line can be unpacked exactly when its text without the trailing newlines contains `=`. |
| ImportHook.Unquote | ipaplatform/_importhook.py:68-69 | A quoted value loses its first and last character. An unquoted value is unchanged. |
| ImportHook.OsReleaseIdsThenLikes | ipaplatform/_importhook.py:63-75 | The ids read are the `ID` values, the last one first, followed by every `ID_LIKE` field in file order. |
| ImportHook.IdValuesHead | ipaplatform/_importhook.py:70-71 | The first id is the value of the last `ID` line. |
| ImportHook.OsReleaseExtendsAsWritten | ipaplatform/_importhook.py:63-75 | On every file the code as written reads, the corrected reader gives the same ids. |
| ImportHook.BlankLineRejectedAsWritten | ipaplatform/_importhook.py:66-67 | As written, a blank line makes the read fail at that line. The corrected reader ignores it. |
| ImportHook.ReadOsRelease | ipaplatform/_importhook.py:63-75 | The loop returns `OsRelease`, the corrected fold that skips blank and comment lines. The code as written is `ImportHook.OsReleaseAsWritten`. |
| ImportHook.OsReleaseErrSticks | ipaplatform/_importhook.py:66-67 | Once a line cannot be unpacked, later lines do not change the outcome. |
| ImportHook.PlatformIds | ipaplatform/_importhook.py:47-61 | Linux reads os-release. An unknown platform raises exactly when it is neither Linux, Windows, macOS nor a BSD. A BSD gives its name and its name without trailing digits. Linux uses the corrected os-release reader, so `PlatformIds("linux", ["ID=fedora\n", "\n"])` is `Ok(["fedora"])` where the code as written raises ValueError. |
| ImportHook.FreeBsdFallsBack | ipaplatform/_importhook.py:57-59 | `freebsd<digits>` gives `[freebsd<digits>, freebsd]`. |
| ImportHook.GetPlatform | ipaplatform/_importhook.py:77-86 | Succeeds exactly when some id is importable, and returns the first importable id. Otherwise fails with the exact ImportError message. |
| ImportHook.FindModule | ipaplatform/_importhook.py:88-92 | The hook only answers for `ipaplatform.` modules. |
| ImportHook.Alias | ipaplatform/_importhook.py:96-97 | The alias exists exactly when the name contains a dot. |
| ImportHook.AliasOfGeneric | ipaplatform/_importhook.py:94-98 | `ipaplatform.<name>` is redirected to `ipaplatform.<platform>.<name>`. |
| ImportHook.FoundModulesLoad | ipaplatform/_importhook.py:88-98 | Every module the hook claims can be loaded from the chosen provider package. |
| ImportHook.NewImporter | ipaplatform/_importhook.py:39-45 | Detection errors propagate. Construction fails exactly when no id is importable. The importer holds the ids and the first importable id as its platform. It redirects exactly the generic modules already loaded. Each goes to `Alias` of its own name, `ipaplatform.<platform>.<name>`. Platform detection uses the corrected os-release reader. |

## Left out

- LDAP and network I/O: every directory read, connection and write is an input value (a snapshot or an outcome), not a call.
- Prompts (`ipautil.user_input`) are booleans, the user's answer.
- Printing and logging: only the printed lines of `conncheck.test()` are modelled; other messages are named by error constructors.
- Option flags other than `--force`, `--cleanup` and the next-range switch, optparse's usage prefix and its exit status.
- `enforce_host_existence` and every DNS lookup, because they are network calls.
- The managed-topology path of `del_link` and `del_master`: only the exit taken when the topology is managed is modelled.
- `re_initialize` and `force_sync` are not part of this model.
- DNSSEC key master and CA renewal master handling in `ensure_last_services`.
- The winsync shared-info cleanup at the end of `del_link` (ipa_replica_manage.py:349-359).
- Topology.DelMasterDirect: states the peers and the orphan and last-service checks. It does not state every outcome as an if-and-only-if over the inputs. The per-peer `del_link` calls are not composed. The steps after the agreement list are not modelled (`get_rid_by_host`, CLEANALLRUV, `replica_cleanup`, DNS cleanup, lines 1058-1089).
- Dangling.IssueCleanups: each `clean_ruv` call (ipa_replica_manage.py:488-541) is modelled as one issued task, not run. `clean_ruv` re-reads the RUVs of the host through `get_ruv_both_suffixes`. It exits the whole run when that read raises NoRUVsFound or RuntimeError (504), or when the replica ID is not found (517). It cleans the first suffix, in dict order 'ca' then 'domain', that holds the replica ID (507-514). That need not be the suffix the ID was marked in. None of this is modelled: the tasks say which replica ID is cleaned through which master, not which suffix and not whether a later task is reached.
- Topology.DelLink: states selected consequences of the outcome (never crashes, last-link refusals, what is handed over), not the whole outcome.
- URL parsing beyond the netloc that `urlparse` cuts at `/`, `?` and `#`; IPv6 netlocs.
- Unicode digits accepted by `int()` and by `\d`, and the non-ASCII whitespace that `int()` and `str.strip()` remove (such as U+00A0 and U+3000): only ASCII digits and ASCII whitespace are modelled.
- Attributes that may be absent (a master without a replica ID) are modelled as `Missing`, not as None values inside dicts.
- Duplicate `cn` keys in the info dict of `clean_dangling_ruvs`.
- The iteration order of Python sets in `clean_dangling_ruvs`: the cleanup loop is proved for any order.
- `sys.modules` mutation and the `__dict__` update of `load_module`: modelled as the map from each generic module to its provider module.
- `CheckedPort.is_bindable`, `service` and `check_host_connect`: `is_bindable` is a parameter; the others touch the host.
- `__eq__` and `__lt__` returning NotImplemented for non-`CheckedPort` operands.
- The value of `__hash__`: modelled by the key it hashes.
- ConnCheck.SortPortsSortsAndPermutes: the stability of `sorted` is not stated.
- Exceptions the code does not name: a `get_entries` failure other than NotFound in `ensure_last_services`, for instance.

## Findings

| source | as written | input that shows it | evidently intended | confidence | as-written member | corrected member |
|---|---|---|---|---|---|---|
| ipaserver/commands/ipa_replica_manage.py:1471-1482 | The trust ranges are searched with `SCOPE_BASE` on `cn=ranges`. That returns only the container, so no trust range is ever found and the trust check never refuses. | ID ranges: a domain range based at 1000 with size 200000 and a trust range based at 1500 with size 100. New range "1000-2000" is accepted. | Search the children of `cn=ranges` (one-level scope) and refuse a range that meets a trust range. | medium; not executed | DnaRange.TrustCheckAsWrittenAcceptsOverlap | DnaRange.TrustCheckRejectsOverlap |
| ipaserver/commands/ipa_replica_manage.py:268-285 | When `get_agreement_type` raises anything other than NotFound, the error is printed and execution goes on. The next use of `type1` then hits an unbound name. | A directory server that fails while the agreement type of the first host is read. | Refuse the deletion, as for a missing agreement. | medium; not executed | Topology.AgreementKindAsWrittenCrashes | Topology.AgreementKind |
| ipaserver/install/conncheck.py:137 | Root is decided by `os.getegid() == 0`: the effective group, not the user. | A process with uid 1000 and gid 0 tries the ports below 1024 as if it were root. | `os.geteuid() == 0` | medium; not executed | ConnCheck.RootTestAsWrittenUsesGroup | ConnCheck.Test |
| ipaplatform/_importhook.py:66-67 | Every line is unpacked with `split('=', 1)`, so a blank or comment line raises ValueError and platform detection fails. | An os-release file with a blank line (`"\n"`) after its entries. | Skip blank and comment lines, as the os-release format allows them. | high; not executed | ImportHook.BlankLineRejectedAsWritten | ImportHook.ReadOsRelease |
