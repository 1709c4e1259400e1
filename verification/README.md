# OVN-Kubernetes MCP server: verified models

Dafny models of the parts of the OVN-Kubernetes MCP server whose correctness is more than one
branch: two concurrent protocols, the text and path transformations behind the tools, and the
collection algorithms whose results must not depend on order, aliasing or an early exit. Every
`.dfy` file is one component; `dafny verify dfyconfig.toml` checks them all.

| file | component |
|---|---|
| `OmcClient.dfy`, `OmcProtocol.dfy`, `OmcArgs.dfy` | requests on the omc client: served alone, served concurrently, and the command lines they become |
| `DebugPod.dfy`, `DebugPodProtocol.dfy` | the debug pod of a node call: one call, and any number of concurrent ones |
| `FormatVerbs.dfy`, `ReadmeSplice.dfy` | the README generator: stripping format verbs, splicing the tool section |
| `Paths.dfy`, `Extraction.dfy` | cleaned paths as component stacks, the three path checks, unpacking the database archive |
| `ContainerLogs.dfy`, `OvnDatabases.dfy` | file names that carry pod, namespace and container, or pod and database side |
| `ToolFilter.dfy` | comma-separated lists, resolving disabled names, the filtering middleware |
| `KernelText.dfy`, `LineWindow.dfy`, `SosCommands.dfy`, `IPCommand.dfy`, `Age.dfy` | command output, search, the `ip` command check, printed ages |
| `Strings.dfy`, `Numbers.dfy` | the parts of Go's `strings`, `unicode` and `strconv` the others rely on |

How the models are built:

- The two protocols are transition systems. A schedule is any sequence of steps of any number of
  processes; `Run` gives the state after it, and the main results quantify over all schedules.
  Failures, cancellation, expired contexts and the environment are steps like any other. The
  same requests and calls are also modelled as methods of a class (`OmcClient.Client`,
  `DebugPod.Cluster`) that run alone, and lemmas connect the two: a concurrent run of the client
  is a sequence of calls of those methods, and every node call leaves the trace it leaves alone. The
  converse holds too: every sequence of such calls, with any outcomes, is a concurrent run, and any
  outcome a node call can meet alone it can meet among others.
- Results are stated twice: relative to a function that the other proofs use, and with the source's
  own constants and conditions written out, so that neither rests on the other.
- Code that changes things in place is a method with loops or a class with fields, proved against
  a function or predicate; code made of expressions is a function.
- Foreign code appears as a parameter: omc's answers, the outcome of each command and API request,
  the content of files, the lines a user's regular expression matches. Iteration over a Go map
  picks an arbitrary key at every turn. The two fixed regular expressions that matter, format
  verbs and the conntrack summary, are defined exactly and proved to match what they say.

Some properties hold only under a condition, and these conditions are proved to be exact. The three
passes of `stripFormatVerbs` compute one scan if and only if the sentinel does not occur in the
text. A README update is absorbed by the next one if and only if its text has no end marker and
either a newline already followed the start marker or the text starts with something else.
Listing and calling agree if and only if the empty name is not disabled. `filterWarnings` output
splits into the kept lines if and only if some line is kept. A container log has one reading if and
only if its stem has exactly two underscores at least two positions before its last dash.

Where comments in the source and its code differ, the code is modelled: `filterWarnings` drops
lines that contain one of three spellings of the word anywhere, not lines that start with it;
`listPlugins` lists every plugin; a path accepted by `validateRelativePath` may not contain two
consecutive dots anywhere, although only a `..` element climbs.

## Model

| member | source | states |
|---|---|---|
| OmcProtocol.RunsAreSerial | pkg/must-gather/omc-client/omc-client.go:29-42 | after any schedule of any number of requests the record, the selection and all responses are those of the completed requests served one after the other in lock order, plus what the one holder of the lock has done so far |
| OmcProtocol.QueriesSeeOwnPath | pkg/must-gather/omc-client/resources.go:26-52 | every query command ever run finds omc's selection at its own request's path and has its own request's arguments, also after other requests' `use` failed and left anything selected |
| OmcProtocol.CompleteRunsAreSerial | pkg/must-gather/omc-client/resources.go:26-61 | a run that cannot go on has answered every request, left the lock free, and given each accepted request exactly one turn, with the right answer: omc's own text for its path and arguments, an error where path, `use` or query failed, and for "no resources" an error or the empty list |
| OmcProtocol.RunsAreBounded | pkg/must-gather/omc-client/resources.go:26-28 | no schedule is longer than six steps a request, so every run reaches such an end |
| OmcProtocol.NeverStuck | pkg/must-gather/omc-client/resources.go:26-28 | while a request is unanswered some request can take a step: the lock is let go of on every exit |
| OmcProtocol.SerialHistoriesAreRuns | pkg/must-gather/omc-client/resources.go:15-61 | conversely, whatever turns accepted requests take, in whatever order and with whatever outcomes, there is a run with that record, selection and those responses |
| OmcProtocol.ServeInTurn | pkg/must-gather/omc-client/resources.go:15-61 | calling the client's methods in the order of the turns reproduces the record, selection and responses of the concurrent run |
| OmcClient.ResultIsRight | pkg/must-gather/omc-client/resources.go:51-61 | the response to a request: logs and OVN-Kubernetes info are answered with exactly what omc printed, so are the others unless it says "no resources" in any mixture of cases; then a get fails and a listing yields the empty list of its output type |
| OmcClient.ServedIs | pkg/must-gather/omc-client/omc-client.go:31-42 | between lock and unlock a request runs `use` for its own path and then its own query, each only as far as everything before went well; the selection left is its path, what a failed `use` left, or the old one |
| OmcClient.ValidNameExact | pkg/must-gather/omc-client/utils.go:12-42 | a name passes exactly when it is empty where allowed, or has no dash in front and in lower case is one letter or digit, or two with letters, digits, dots, underscores and dashes between |
| OmcClient.AcceptedExactly | pkg/must-gather/omc-client/utils.go:27-47 | a request is accepted exactly when its names pass that test, its selector has no shell metacharacter and its info type is one of three |
| OmcClient.Client.UseMustGather | pkg/must-gather/omc-client/omc-client.go:31-42 | with the lock held, a bad path changes nothing, a successful `use` selects the path, a failed one leaves anything |
| OmcClient.Client.GetResource | pkg/must-gather/omc-client/resources.go:15-61 | a rejected request touches nothing; an accepted one frees the lock and answers from its own path and arguments alone, with "no resources" an error |
| OmcClient.Client.ListResources | pkg/must-gather/omc-client/resources.go:66-133 | the same, with "no resources" an empty list in the output type asked for |
| OmcClient.Client.PodLogsArgs | pkg/must-gather/omc-client/pods.go:35-53 | the argument list grown step by step is the one the request stands for |
| OmcClient.Client.GetPodLogs | pkg/must-gather/omc-client/pods.go:11-63 | the same, for logs: when path, `use` and query go well the answer is the command's whole output, in every other case an error |
| OmcClient.Client.GetOvnKInfo | pkg/must-gather/omc-client/ovnk.go:13-44 | the same, for OVN-Kubernetes info; an unknown info type never locks |
| OmcArgs.ArgsExact | pkg/must-gather/omc-client/resources.go:136-150 | two validated requests run the same command line exactly when they ask for the same thing, because no validated name can pass for a flag |
| OmcArgs.GetUnderstood | pkg/must-gather/omc-client/resources.go:39-49 | reading the options of a get back yields its namespace, or the default one, and its known output type |
| OmcArgs.ListUnderstood | pkg/must-gather/omc-client/resources.go:90-105 | reading the options of a listing back yields its namespace or all of them, its selector and its known output type |
| OmcArgs.LogsUnderstood | pkg/must-gather/omc-client/pods.go:35-53 | reading the options of a log request back yields its container and namespace, if any, and the two switches |
| DebugPodProtocol.RunsAreOrderly | pkg/kubernetes/client/nodes.go:43-58 | after any schedule each call has done what its program point says, calls have pods of their own, every pod is accounted for, and each recorded event was in order when it happened |
| DebugPodProtocol.DeletedExactlyOnce | pkg/kubernetes/client/nodes.go:132-164 | a pod whose Create succeeded has, once its call returned, been deleted exactly once: by that call, after creation, before the return, and by a request that could succeed whenever the pod was there, also after the caller's context had expired |
| DebugPodProtocol.CleanupSurvivesExpiry | pkg/kubernetes/client/nodes.go:138-147 | in every reachable state a call about to clean up can delete its existing pod, whatever has become of the caller's context, and then the pod is gone |
| DebugPodProtocol.ExpiredCallsOnlyCleanUp | pkg/kubernetes/client/nodes.go:36-58 | from the expiry of its context on a call creates nothing and sees no pod running; all it still does is exec, delete and return |
| DebugPodProtocol.ExpiredExecsFail | pkg/kubernetes/client/pods.go:75-78 | and no command it still executes succeeds |
| DebugPodProtocol.ExecOnlyInOwnRunningPod | pkg/kubernetes/client/pods.go:38-47 | a command is executed only in the call's own pod, after its creation, then a poll and then the guard each found it while its phase was Running, and before anyone deletes it; no other call ever touches that pod |
| DebugPodProtocol.SightingsAreReal | pkg/kubernetes/client/nodes.go:150-158 | whenever a call sees its pod running, the pod exists and its phase is Running; the first sighting is a poll's, the second the guard's |
| DebugPodProtocol.NothingElseIsLeft | pkg/kubernetes/client/nodes.go:138-147 | when all calls have returned, exactly the pods from before, those of a Create that reported an error, and those whose delete failed are left, minus what others removed |
| DebugPodProtocol.CallsActAlone | pkg/kubernetes/client/nodes.go:16-59 | every returned call left the trace and result that the sequential call leaves under some outcome of its API requests |
| DebugPodProtocol.ResultsAreOutputs | pkg/kubernetes/client/nodes.go:52-58 | in every run a call's result is an output exactly when its command was executed and produced that output |
| DebugPodProtocol.AnyFateHappens | pkg/kubernetes/client/nodes.go:16-59 | conversely, from any reachable state a call about to start, with its context alive and a pod name unused, can meet with any outcome it could meet alone, leaving the same trace and pods |
| DebugPodProtocol.CanAlwaysReturn | pkg/kubernetes/client/nodes.go:138-164 | from every reachable state a call can return by its own steps alone, in at most as many as its program point has left |
| DebugPodProtocol.MovesAreBounded | pkg/kubernetes/client/nodes.go:16-59 | in every run a call moves on at most seven times and has returned after seven; apart from polls that do not see the pod running it takes no more steps |
| DebugPod.Cluster.CreatePod | pkg/kubernetes/client/nodes.go:61-166 | a pod is handed out only after it was seen running; otherwise it has already been cleaned up |
| DebugPod.Cluster.ExecPod | pkg/kubernetes/client/pods.go:38-81 | nothing is run in a pod that is not running at the second check |
| DebugPod.Cluster.CleanupPod | pkg/kubernetes/client/nodes.go:138-147 | one delete under a context of its own; the pod is gone exactly when it succeeds |
| DebugPod.Cluster.DebugNode | pkg/kubernetes/client/nodes.go:16-59 | the result is what the command printed when the node is named, both paths are valid, the pod was created, seen running by a poll and still running, and none otherwise; event by event what the call does; a pod stays behind exactly when deleting it failed |
| DebugPod.ReachesRunningExact | pkg/kubernetes/client/nodes.go:150-163 | polling succeeds exactly when some poll sees the pod running and none before it failed |
| FormatVerbs.StripFormatVerbsIsScan | pkg/utils/mcptools/catalog.go:249-254 | the three passes compute the one left-to-right scan exactly on texts without the sentinel |
| FormatVerbs.ThreePassesAreOneScan | pkg/utils/mcptools/catalog.go:249-254 | on every text the three passes are one scan that also reads a sentinel as a percent sign |
| FormatVerbs.VerbLengthExact | pkg/utils/mcptools/catalog.go:42 | the matcher finds a verb exactly when a prefix is a percent sign, flags and one letter, and then there is only one such prefix |
| FormatVerbs.IsVerbExact | pkg/utils/mcptools/catalog.go:42 | a verb is a percent sign, any of sixteen flag characters, and one letter |
| FormatVerbs.StripReads | pkg/utils/mcptools/catalog.go:249-254 | on texts without the sentinel a doubled percent sign gives one, a verb in front gives `N`, and a rune that starts neither is copied; then the rest is read the same way |
| ReadmeSplice.UpdateAbsorbs | hack/gen-readme-tools.go:216-238 | a later update absorbs an earlier one exactly when the earlier text has no end marker and cannot be taken for the newline after the start marker |
| ReadmeSplice.UpdateIdempotent | hack/gen-readme-tools.go:216-238 | running the generator twice is running it once, under exactly that condition |
| ReadmeSplice.UpdateKeepsOutside | hack/gen-readme-tools.go:216-238 | the update succeeds exactly when an end marker first occurs after the first start marker; then the result is the file up to that marker, the newline after it if there is one, the text, a newline, and the file from the end marker on |
| ReadmeSplice.FirstEnd | hack/gen-readme-tools.go:223-237 | the first end marker of the result is the generated text's own or the old one: none straddles a splice boundary |
| ReadmeSplice.EscapeTableCellSafe | hack/gen-readme-tools.go:195-199 | a cell holds no bar and no newline, and escaping again changes nothing |
| ReadmeSplice.EscapeTableCellExact | hack/gen-readme-tools.go:195-199 | the two replacements are one pass over the runes followed by trimming, and every other visible rune survives |
| Paths.CleanCanonical | pkg/must-gather/ovsdb-tool/utils.go:175-176 | cleaning keeps the components and is idempotent; equal cleaned paths are equal components |
| Paths.CleanDrops | pkg/must-gather/ovsdb-tool/utils.go:175-176 | anywhere in a path, repeated slashes are one, a `.` element goes, and an element goes together with a `..` after it |
| Paths.CleanAtRoot | pkg/must-gather/ovsdb-tool/utils.go:175-176 | `..` at the root leads nowhere |
| Paths.CleanFixed | pkg/must-gather/ovsdb-tool/utils.go:175-176 | plain elements below the root, or after any number of `..` elements in a relative path, are left alone, and the empty path becomes `.` |
| Paths.JoinWalks | pkg/must-gather/ovsdb-tool/utils.go:175-176 | joining continues the walk of the first path with the elements of the second |
| Paths.InsideByTextExact | pkg/must-gather/ovsdb-tool/utils.go:176-178 | the string prefix test is the component prefix test for every absolute root but `/`, which admits only itself |
| Paths.ValidRelativeStaysInside | pkg/sosreport/mcp/utils.go:33-40 | an accepted relative path joined to any root has the root's components followed by its own |
| Paths.ValidRelativeExact | pkg/sosreport/mcp/utils.go:33-40 | acceptance means: not absolute and no component contains two consecutive dots |
| Paths.JoinStaysInside | pkg/sosreport/mcp/commands.go:29-33 | below an absolute root a relative path stays inside exactly when its cleaned form has no `..` component |
| Paths.CleanOnlyDrops | pkg/utils/utils.go:146-149 | cleaning an absolute path only drops empty and `.` elements exactly when it has no `..` element |
| Paths.ValidPathNeverClimbs | pkg/utils/utils.go:133-162 | so an accepted path never climbs while it is cleaned |
| Paths.ValidPathExact | pkg/utils/utils.go:133-162 | a path is accepted exactly when it is empty where allowed, or absolute, of letters, digits and five other characters, and loses nothing but empty and `.` elements in cleaning |
| Paths.BaseOfFile | pkg/sosreport/mcp/logs.go:93 | the last element of a path that ends in a slash-free name is that name, below any directory |
| Paths.BaseRules | pkg/sosreport/mcp/logs.go:93 | slashes at the end make no difference, and a path without elements has a slash or, if empty, a dot for its last one |
| Paths.BaseFixed | pkg/must-gather/ovsdb-tool/query.go:21-23 | a name is its own last element exactly when it is not empty and has no slash |
| Extraction.ExtractionConfined | pkg/must-gather/ovsdb-tool/utils.go:166-221 | for any archive and any failures, whatever is not strictly below the root stays as it was: no directory or file is created there or removed, and no file's contents change, not even by truncation |
| Extraction.LastEntryStays | pkg/must-gather/ovsdb-tool/utils.go:190-210 | after a successful run a file holds all of the last entry that was for it |
| Extraction.KeptUnlessWritten | pkg/must-gather/ovsdb-tool/utils.go:190-210 | a file no entry is for keeps its contents, wherever the run stops |
| Extraction.SuccessUnpacksAll | pkg/must-gather/ovsdb-tool/utils.go:166-221 | reported success means every entry was a directory or regular file inside the root and is now there |
| Extraction.DoneExactly | pkg/must-gather/ovsdb-tool/utils.go:166-221 | a run succeeds exactly when every entry is a directory or regular file whose walk stays below the root, whose directories are all made and whose file, no directory being in its place, is opened and copied; the directories are then those from before and those asked for |
| Extraction.FirstBadDecides | pkg/must-gather/ovsdb-tool/utils.go:166-221 | otherwise the first entry that is not so decides: an unreadable header, an unsupported type, a path outside or an error of the system is reported, in that order; what was made stays and later entries make no difference |
| Extraction.BrokenOffCopy | pkg/must-gather/ovsdb-tool/utils.go:190-210 | a copy that breaks off leaves exactly as much of the content as had been copied |
| Extraction.FilesArePrefixes | pkg/must-gather/ovsdb-tool/utils.go:190-210 | wherever the run stops, a file is unchanged or holds the beginning of what one entry for it had |
| Extraction.ExtractionSequential | pkg/must-gather/ovsdb-tool/utils.go:166-221 | the run stops at the first entry that fails, keeps what was unpacked and never looks at the rest |
| Extraction.AcceptedExactly | pkg/must-gather/ovsdb-tool/utils.go:175-178 | an entry passes the test exactly when walking its name from the root ends below the root |
| Extraction.NetworkLogsRoot | pkg/must-gather/ovsdb-tool/utils.go:36-62 | for every accepted must-gather path the root is absolute with at least two components, so the exceptional root does not arise |
| Extraction.NetworkLogs.ExtractAll | pkg/must-gather/ovsdb-tool/utils.go:166-221 | the loop has the effect and outcome of processing the entries in order up to the first failure |
| ContainerLogs.MatchesFileExact | pkg/sosreport/mcp/logs.go:92-113 | a path matches exactly when its last element is the printed log name of one of the pod's containers, and of the one asked for |
| ContainerLogs.ParseContainerNameExact | pkg/sosreport/mcp/logs.go:117-133 | parsing yields a container exactly when the text is that non-empty name, a dash and a non-empty hex id |
| ContainerLogs.HexDigitsAre | pkg/sosreport/mcp/logs.go:127-131 | the digits of an id are the ten decimal ones and the letters a to f in either case |
| ContainerLogs.LogNameIs | pkg/sosreport/mcp/logs.go:87-91 | the printed name: pod, underscore, namespace, underscore, container, dash, id, `.log` and for zipped files `.gz` |
| ContainerLogs.LogNameRoundTrip | pkg/sosreport/mcp/logs.go:92-133 | a log written under its own name in any directory, zipped or not, matches its pod, namespace and container |
| ContainerLogs.DecodesUniquely | pkg/sosreport/mcp/logs.go:102-113 | for names without underscores one file matches one pod, one namespace and one container |
| ContainerLogs.UniqueReadingExact | pkg/sosreport/mcp/logs.go:92-133 | among all pods, namespaces and container names a file has exactly one reading precisely when it is shaped like a log and its stem has exactly two underscores at least two positions before the last dash |
| ContainerLogs.UnderscoresAreAmbiguous | pkg/sosreport/mcp/logs.go:102-113 | one underscore more can be read as part of the pod's, the namespace's or the container's name |
| ContainerLogs.GetPodLog | pkg/sosreport/mcp/logs.go:40-81 | nothing is found exactly when no listed file matches; otherwise only the first match in manifest order is read, and failing to read it is the error |
| ContainerLogs.FullPathDropsHost | pkg/sosreport/mcp/logs.go:51-53 | the path read is the listed one below the sosreport, with a leading `host/` dropped |
| OvnDatabases.ListOvnDatabases | pkg/must-gather/ovsdb-tool/list-dbs.go:137-161 | the map holds exactly the non-empty keys that have a file named key plus the side's suffix, each with that file |
| OvnDatabases.ListingLossless | pkg/must-gather/ovsdb-tool/list-dbs.go:137-161 | the listed values are exactly the qualifying files and no two share a key |
| OvnDatabases.SidesDisjoint | pkg/must-gather/ovsdb-tool/list-dbs.go:149-158 | no file is listed on both sides |
| OvnDatabases.ListedIsQueryable | pkg/must-gather/ovsdb-tool/query.go:16-35 | the listed names are exactly those the query guards pass with the schema of their side, the bare suffix aside |
| OvnDatabases.PlanQueryExact | pkg/must-gather/ovsdb-tool/query.go:16-35 | a name is queried with a side's schema exactly when it has that side's suffix and no slash |
| OvnDatabases.PlanQueryCases | pkg/must-gather/ovsdb-tool/query.go:16-35 | the outcome for any name and table: which guard stops it, or the schema that is asked, OVN_Northbound for `_nbdb` and OVN_Southbound for `_sbdb` |
| OvnDatabases.ValidTableExact | pkg/must-gather/ovsdb-tool/utils.go:273-282 | a table name is a capital letter followed by letters, digits and underscores |
| OvnDatabases.QueryStaysInStore | pkg/must-gather/ovsdb-tool/query.go:49-50 | the file a planned query opens lies directly inside the database store |
| OvnDatabases.GetDatabaseToNodeMapping | pkg/must-gather/ovsdb-tool/list-dbs.go:79-110 | the loop that deletes as it goes and stops early yields what the full loop yields |
| OvnDatabases.PairedInOrder | pkg/must-gather/ovsdb-tool/list-dbs.go:81-107 | the output has, in list order, one line for each pod that is the first scheduled one of its name and has a database, with that pod's node |
| OvnDatabases.LeftOver | pkg/must-gather/ovsdb-tool/list-dbs.go:109-112 | left over is exactly what no scheduled pod is named after |
| OvnDatabases.PairedOnce | pkg/must-gather/ovsdb-tool/list-dbs.go:79-112 | no database is listed twice, and listed and left-over databases partition the initial ones |
| ToolFilter.CompactInPlace | pkg/middleware/toolfilter/toolfilter.go:118-125 | writing into the array being read leaves the trimmed non-empty parts in front and the rest as it was |
| ToolFilter.SplitCSV | pkg/middleware/toolfilter/toolfilter.go:114-126 | the result is trim-then-drop-empty of the comma split |
| ToolFilter.NamesInvertJoin | pkg/middleware/toolfilter/toolfilter.go:112-126 | reading inverts joining with commas exactly on lists of trimmed, non-empty, comma-free names |
| ToolFilter.NamesConcat | pkg/middleware/toolfilter/toolfilter.go:112-126 | reading two lists joined by a comma is reading each |
| ToolFilter.ExpandCategories | pkg/middleware/toolfilter/toolfilter.go:43-51 | all categories are expanded, or the first unknown one is reported |
| ToolFilter.AddTools | pkg/middleware/toolfilter/toolfilter.go:53-59 | all tools are added, or the first unknown one is reported |
| ToolFilter.ResolveDisabled | pkg/middleware/toolfilter/toolfilter.go:40-62 | it succeeds exactly when every category is in the catalogue and every tool belongs to some category there, and disables exactly the tools named and those of the categories named; otherwise the first unknown name, categories first |
| ToolFilter.AllKnownTools | pkg/middleware/toolfilter/toolfilter.go:130-138 | the same set for every map iteration order |
| ToolFilter.ResolveUnion | pkg/middleware/toolfilter/toolfilter.go:40-62 | resolving lists together succeeds exactly when each does, with the union |
| ToolFilter.SpellingIrrelevant | pkg/middleware/toolfilter/toolfilter.go:34-38 | order, repetition, blank parts and spaces do not change the set of names read |
| ToolFilter.FilterExact | pkg/middleware/toolfilter/toolfilter.go:74-110 | for every set, every handler inside and every request: calls of disabled tools are rejected and never forwarded, listings lose exactly the nil and the disabled tools, and everything else is answered by the handler as it is |
| ToolFilter.PassedOn | pkg/middleware/toolfilter/toolfilter.go:76-106 | every other method, calls without a name, replies that are no tool list, and everything when nothing is disabled, are passed on unchanged |
| ToolFilter.StackedFilters | pkg/middleware/toolfilter/toolfilter.go:74-110 | two filters stacked are one filter on the union, for every handler inside and every request, empty sets included |
| ToolFilter.ListingAndCallingAgree | pkg/middleware/toolfilter/toolfilter.go:82-104 | for every handler inside a tool is listed exactly when the server lists it and calls reach it, and disabled ones are neither; this holds for all tools exactly when the empty name is not disabled |
| ToolFilter.ListToolsResult.HideTools | pkg/middleware/toolfilter/toolfilter.go:94-103 | the result gets the visible tools in order in a new slice; the old slice keeps its contents |
| KernelText.FilterWarnings | pkg/kernel/mcp/util.go:36-51 | the loop keeps the lines without a warning, in order |
| KernelText.WarningsAreDropped | pkg/kernel/mcp/util.go:36-51 | dropped are exactly the lines that contain "Warning", "warning" or "WARNING" |
| KernelText.KeptLinesExact | pkg/kernel/mcp/util.go:36-51 | the output splits into exactly the kept lines unless every line was dropped |
| KernelText.FilterWarningsIdempotent | pkg/kernel/mcp/util.go:36-51 | filtering again changes nothing |
| KernelText.SummaryIs | pkg/kernel/mcp/util.go:17-19 | the summary line as printed, piece by piece |
| KernelText.SummaryRecognised | pkg/kernel/mcp/util.go:17-19 | every summary line printed for a version and a count is recognised |
| KernelText.SummaryOnly | pkg/kernel/mcp/util.go:17-19 | and no other line is |
| KernelText.SplitConntrackSummary | pkg/kernel/mcp/util.go:56-74 | the two results join the summary lines and the other lines |
| KernelText.SummaryPartition | pkg/kernel/mcp/util.go:56-74 | the two groups merge back, in order, into all lines |
| KernelText.AcceptStderr | pkg/kernel/mcp/conntrack.go:49-56 | error output passes exactly when its non-summary lines are none or a single empty one, and then carries a summary unless it was empty |
| LineWindow.ApplyIsWindow | pkg/utils/headtail/head_tail.go:16-61 | for every combination of limits and signs the result is one window of the lines with exact bounds |
| LineWindow.ApplyCases | pkg/utils/headtail/head_tail.go:16-61 | the result for each combination: first lines, last lines, the default, both in either order, or all |
| LineWindow.OrderMattersForLines | pkg/utils/headtail/head_tail.go:22-28 | over distinct lines the two orders agree exactly when one limit lets all lines through |
| LineWindow.ExecuteWithMatch | pkg/utils/pattern/pattern.go:18-45 | each error arises exactly on its condition; otherwise the lines are those on which the expression matches, in order, and without a pattern all of them |
| LineWindow.StripEmptyLines | pkg/utils/utils.go:45-56 | the lines that are not blank, in order |
| LineWindow.NonBlankExact | pkg/utils/utils.go:45-56 | a line is blank exactly when all of it is white space |
| LineWindow.StripAndMatchCommute | pkg/sosreport/mcp/commands.go:49-56 | dropping blank lines and matching commute |
| LineWindow.GetOutput | pkg/sosreport/mcp/commands.go:49-66 | the pipeline fails exactly on an invalid pattern and otherwise yields the window over the matching non-blank lines |
| LineWindow.OutputExact | pkg/sosreport/mcp/commands.go:49-66 | the pipeline in terms of the runes of a line and the expression alone: lines with something visible on which it matches, then the window |
| LineWindow.OutputIsContiguous | pkg/sosreport/mcp/commands.go:49-66 | the client gets wanted lines of the file in their order, none missing between two of them, as many as the window over the wanted lines is wide |
| Strings.FilterInOrder | pkg/utils/utils.go:49-55 | the appending loops pick exactly the passing positions, in increasing order |
| SosCommands.SearchPlugin | pkg/sosreport/mcp/commands.go:136-161 | one plugin's hits are appended in order until the limit is reached |
| SosCommands.SearchCommands | pkg/sosreport/mcp/commands.go:121-168 | for every map order the result has min(limit, hits) genuine hits and their number as total, and is all of them when the limit allows; an invalid pattern is noticed exactly when there is a command |
| SosCommands.HitsAreGenuine | pkg/sosreport/mcp/commands.go:150-155 | the hits are exactly the commands of the plugins named on whose command line or file path the expression matches, all of them without a pattern |
| SosCommands.AllHitsPick | pkg/sosreport/mcp/commands.go:135 | which plugin is counted first makes no difference |
| SosCommands.SearchOrderIrrelevant | pkg/sosreport/mcp/commands.go:135-166 | two searches of one manifest find equally many commands, and the same ones unless the limit cuts them short |
| SosCommands.ListPlugins | pkg/sosreport/mcp/commands.go:69-91 | every plugin once with its count, and as total the sum of the counts listed, for every map order |
| IPCommand.ValidateIPCommand | pkg/kernel/mcp/ip.go:65-130 | the verdict is an existential over the allowed commands and a function of the fields alone: neither map order, the early exit, trimming nor the integer test matters |
| IPCommand.MatchesAny | pkg/kernel/mcp/ip.go:92-124 | the loop left at the first match finds a match exactly when there is one |
| IPCommand.IntegerIsOneField | pkg/kernel/mcp/ip.go:66-72 | an integer is a single field, which is too few anyway |
| IPCommand.FieldsJoin | pkg/kernel/mcp/ip.go:43 | splitting into fields inverts joining words, so the verdict is about the arguments later passed on |
| IPCommand.FieldsRead | pkg/kernel/mcp/ip.go:70 | white space in front is skipped and a word reaches to the next white space |
| IPCommand.AllowedExactly | pkg/kernel/mcp/ip.go:70-124 | in closed form: two fields, not `l` or longer followed by exactly `s`, and either one of the seven words shown or xfrm states or policies listed, all of them abbreviated |
| IPCommand.OnlySettingLinksIsRefused | pkg/kernel/mcp/ip.go:85-88 | an abbreviated word with an abbreviated show is refused exactly when the first field begins with `l` and the second is `s` |
| Age.ShownIsTruncation | pkg/kubernetes/types/utils.go:9-20 | the printed value is the age rounded down to its branch's unit, and the second number never reaches the next unit |
| Age.ShownMonotone | pkg/kubernetes/types/utils.go:9-20 | an older resource never looks younger, also across branches |
| Age.PrintAlikeExactly | pkg/kubernetes/types/utils.go:9-20 | two ages print alike exactly when they truncate to the same value |
| Age.FormatAgeIsText | pkg/kubernetes/types/utils.go:9-20 | the truncating arithmetic of each branch yields the whole units and the remainder's units |
| Age.FormatAgeCases | pkg/kubernetes/types/utils.go:9-20 | the text for every non-negative age, in nanoseconds and letters |

## Left out

- Age.FormatAge: floating-point rounding is not modelled; durations are whole nanoseconds and quotients are exact. The results are about non-negative ages; negative ones take the first branch.
- OmcProtocol.RunsAreSerial: assumes that no process other than this client changes omc's selection.
- OmcClient.Client.GetResource: requests wait for the lock; the methods are called while it is free, and waiting is a step of the protocol.
- DebugPodProtocol.RunsAreOrderly: generated pod names are taken to be distinct, and a pod created by a Create that reported an error counts as unowned, because no call learns its name.
- DebugPodProtocol.MovesAreBounded: the time bounds of polling, clean-up and the optional timeout are not modelled; a deadline is a step that may come at any time, and until it comes a poll may be repeated.
- Extraction.ExtractionConfined: confinement is lexical; what is already on the disk, symbolic links included, is taken as it is. Reading gzip and tar is an input sequence.
- ToolFilter.ResolveDisabled: the catalogue's contents are a parameter; the names in it are not listed here.
- ToolFilter.StackedFilters: the handler inside is a function of the request.
- KernelText.AcceptStderr: running the utilities and validating the conntrack command are not part of this model.
- Text is a sequence of runes; invalid UTF-8 is not modelled.
- Wording of error messages, and the pod specification, are not modelled.
- `getNetworkLogsDirectory`: that there is exactly one directory, and that it exists, is read off the disk.
- `firstLine`, `UnquoteString` and the scanning of Go sources for tool registrations.
- `buildQueryString`: its substance is the JSON library.
- Registration of tools, flags, transports, timeouts, signal handling.
- The Kubernetes client, RESTMapper, jsonpath, YAML and JSON.
- The validators of tables, bridges, interfaces, nft and iptables commands, and the command builder: one-branch members.
