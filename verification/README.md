# CloudNet node core, modelled in Dafny

This project models the decision logic at the core of a CloudNet cluster node,
and proves properties about it:

- **Placement and routing** (`NodeCloudServiceFactory`). The head node picks
  the node server that should host a new service: the minimum over the
  available node servers by projected memory. The comparator also calls
  `compare` on the CPU usages when both nodes report one, but it discards the
  result, so on a memory tie the earlier node wins (see "## Findings"). A head
  with no candidate starts the service locally. Any other node forwards the
  request to the head.
- **Node queries** (`NodeNodeInfoProvider`). These look up nodes and resource
  snapshots, always checking the node's own id first. They also dispatch
  console command lines to the node that should run them.
- **Channel query events** (`ChannelMessageReceiveEvent`). An event carries a
  received message, a query flag and a response slot. Only a query may be
  answered.
- **Console tables** (`ColumnFormatter`). Titles and column values are laid out
  as aligned text lines, and the header-only rendering is cached.
- **Proxy MOTD** (`SyncProxyMotd.format`). A fixed chain of replace-all
  placeholder substitutions, followed by colour-code conversion.
- **Server selectors** (`ServerSelectorType`, `ServerSelectorProvider`). Two
  player-count comparators, builder validation, and a registry keyed by
  upper-cased names.

The model is functional. Entities are immutable datatypes, and every operation
is a pure function. A Java `null` becomes an `Option`, and a thrown exception
becomes a `Result` failure naming it. Objects with state, such as the event's
response slot, the formatter's cache and the selector registry, become values
that each operation returns in updated form. Two loops of the formatter are
also written as methods that follow the source's loops step by step, and they
are proved equal to the functional definition.

Files:

- `wrappers.dfy`: `Option`, `Result` and the `Fault` exceptions.
- `text.dfy`: string helpers the source relies on:
  - `String.replace`;
  - `String.valueOf(int)` and reading it back;
  - `StringUtil.repeat` and `StringUtil.toUpper`.
- `cluster.dfy`, `messaging.dfy`: node servers, snapshots and channel messages.
- `placement.dfy`: the `peekLogicNodeServer` comparator and fold.
- `service_factory.dfy`: `createCloudService` routing and the start query.
- `node_info_provider.dfy`, `channel_event.dfy`, `column_formatter.dfy`,
  `sync_proxy_motd.dfy`, `server_selector.dfy`: the other components.

A head that picks a node server always sends it the start query
(`NodeCloudServiceFactory.java:55-62`), even if that node server is the head
itself; there is no local-start branch for that case. Local start happens
only when no node server is available. `ServiceFactory.RoutingTopology` shows
that the head never queries itself as long as it is not among its own node
servers.

## Model

| member | source | states |
|---|---|---|
| Comparison.CompareReal | cloudnet/src/main/java/de/dytanic/cloudnet/provider/service/NodeCloudServiceFactory.java:105-107 | `Double.compare` answers -1, 0 or 1 exactly when the first value is below, equal to or above the second. |
| Comparison.CompareInt | modules/bridge/src/main/java/eu/cloudnetservice/modules/bridge/player/executor/ServerSelectorType.java:51-53 | `Integer.compare` (and the chain's `int` comparison) answers -1, 0 or 1 exactly when the first value is below, equal to or above the second. |
| Placement.CompareSnapshots | cloudnet/src/main/java/de/dytanic/cloudnet/provider/service/NodeCloudServiceFactory.java:97-111 | As written, the sign is that of the used-memory comparison alone, because the added heap cancels out and the CPU comparison's chain is discarded. With the intended CPU tie-break, a memory tie is broken by the lower CPU usage when both readings are non-negative. |
| Placement.CompareServers | cloudnet/src/main/java/de/dytanic/cloudnet/provider/service/NodeCloudServiceFactory.java:97-100 | Comparing two node servers throws a null dereference exactly when either has no snapshot; otherwise it is the snapshot comparison. |
| Placement.Available | cloudnet/src/main/java/de/dytanic/cloudnet/provider/service/NodeCloudServiceFactory.java:95-96 | The filter keeps exactly the available node servers and never adds one. |
| Placement.AvailableAppend | cloudnet/src/main/java/de/dytanic/cloudnet/provider/service/NodeCloudServiceFactory.java:95-96 | Filtering distributes over concatenation, so it keeps the servers' order. |
| Placement.MinBy | cloudnet/src/main/java/de/dytanic/cloudnet/provider/service/NodeCloudServiceFactory.java:97-111 | The `Stream.min` fold returns the starting candidate or one of the later nodes, never anything else. |
| Placement.PeekLogicNodeServer | cloudnet/src/main/java/de/dytanic/cloudnet/provider/service/NodeCloudServiceFactory.java:91-112 | A chosen node is one of the node servers and is available. The result is null exactly when no node server is available. |
| Placement.MinByFaults | cloudnet/src/main/java/de/dytanic/cloudnet/provider/service/NodeCloudServiceFactory.java:97-108 | The fold throws exactly when the comparator runs and one of the compared nodes has no snapshot. |
| Placement.PeekFaultsExactly | cloudnet/src/main/java/de/dytanic/cloudnet/provider/service/NodeCloudServiceFactory.java:95-111 | Placement throws a null dereference if and only if at least two nodes are available and some available node has no snapshot yet. |
| Placement.MinByMemoryMinimal | cloudnet/src/main/java/de/dytanic/cloudnet/provider/service/NodeCloudServiceFactory.java:97-111 | With all snapshots present, the fold's result uses no more memory than the start candidate or any later node. |
| Placement.PeekMemoryMinimal | cloudnet/src/main/java/de/dytanic/cloudnet/provider/service/NodeCloudServiceFactory.java:95-111 | When every available node has a snapshot, placement does not throw, and whatever the CPU readings the chosen node has the least used memory of all available nodes. |
| Placement.PeekStrictMinimum | cloudnet/src/main/java/de/dytanic/cloudnet/provider/service/NodeCloudServiceFactory.java:95-111 | An available node with strictly less used memory than every other available node is always the one chosen. |
| Placement.MinByIgnoresMaxHeap | cloudnet/src/main/java/de/dytanic/cloudnet/provider/service/NodeCloudServiceFactory.java:93-100 | The fold's outcome, including its failure, is the same for any two heap sizes. |
| Placement.PeekIgnoresMaxHeap | cloudnet/src/main/java/de/dytanic/cloudnet/provider/service/NodeCloudServiceFactory.java:93-111 | The service's max heap size never changes which node is chosen. |
| Placement.MinByKeepsLeastHead | cloudnet/src/main/java/de/dytanic/cloudnet/provider/service/NodeCloudServiceFactory.java:97-111 | As written, a candidate with the least memory survives the whole fold, whatever its CPU; with the CPU tie-break only when its own CPU is unknown. |
| Placement.PeekKeepsFirstLeast | cloudnet/src/main/java/de/dytanic/cloudnet/provider/service/NodeCloudServiceFactory.java:95-111 | When the first available node has the least memory, it is chosen. As written, this holds whatever the CPU readings. With the CPU tie-break, it holds when that node reports no CPU, even over a later tied node with an idle CPU. |
| Placement.MinByReaches | cloudnet/src/main/java/de/dytanic/cloudnet/provider/service/NodeCloudServiceFactory.java:97-111 | As written, the fold ends with the first node whose memory is below that of everything before it and no more than that of everything after it. |
| Placement.PeekFirstLeastMemory | cloudnet/src/main/java/de/dytanic/cloudnet/provider/service/NodeCloudServiceFactory.java:91-112 | As written, placement chooses the first available node server with the least used memory, whatever the CPU readings. |
| Placement.CpuTieDiscarded | cloudnet/src/main/java/de/dytanic/cloudnet/provider/service/NodeCloudServiceFactory.java:99-110 | For available nodes A (used memory 1000, CPU 50), B (500, 90) and C (500, 10), the code as written chooses B: the memory tie keeps the earlier node. |
| Placement.CpuTieBroken | cloudnet/src/main/java/de/dytanic/cloudnet/provider/service/NodeCloudServiceFactory.java:101-108 | On the same input, the intended CPU tie-break chooses C, the tied node with the lower CPU usage. |
| Placement.AtMostTransitiveTotal | cloudnet/src/main/java/de/dytanic/cloudnet/provider/service/NodeCloudServiceFactory.java:101-108 | With every CPU reading known, the intended CPU tie-break is a transitive and total order. |
| Placement.MinByLeast | cloudnet/src/main/java/de/dytanic/cloudnet/provider/service/NodeCloudServiceFactory.java:97-111 | Under the intended CPU tie-break with known CPU readings, the fold's result is at most the start candidate and every later node. |
| Placement.PeekLeastWhenCpuKnown | cloudnet/src/main/java/de/dytanic/cloudnet/provider/service/NodeCloudServiceFactory.java:95-111 | Under the intended CPU tie-break, when every available node reports its CPU, the chosen node is a true minimum: nothing has less memory, or equal memory and a lower CPU usage. |
| ServiceFactory.CreateCloudService | cloudnet/src/main/java/de/dytanic/cloudnet/provider/service/NodeCloudServiceFactory.java:51-72 | A non-head always sends the configuration to the head's id on `node_to_head_start_service`. A head starts locally exactly when no node server is available. Otherwise the head queries, on `head_node_to_node_start_service`, exactly the node server placement chose. The call can only fail inside placement. |
| ServiceFactory.CloudServiceResult | cloudnet/src/main/java/de/dytanic/cloudnet/provider/service/NodeCloudServiceFactory.java:74-89 | A local start yields the local snapshot. A query yields the reply, and null exactly when the reply is missing or timed out. |
| ServiceFactory.HeadWithoutCandidatesStartsLocally | cloudnet/src/main/java/de/dytanic/cloudnet/provider/service/NodeCloudServiceFactory.java:53-64 | A head with no available node server starts the service locally. |
| ServiceFactory.RoutingTopology | cloudnet/src/main/java/de/dytanic/cloudnet/provider/service/NodeCloudServiceFactory.java:53-82 | Every start query has exactly one `NODE` target. A non-head targets the head. A head never targets itself when it is not among its own node servers. |
| ServiceFactory.HeadQueriesLeastLoadedNode | cloudnet/src/main/java/de/dytanic/cloudnet/provider/service/NodeCloudServiceFactory.java:53-111 | A head whose available nodes all have snapshots sends exactly one query, carrying the configuration, to the first available node with the least used memory. |
| NodeInfoProvider.GetNodes | cloudnet/src/main/java/de/dytanic/cloudnet/provider/NodeNodeInfoProvider.java:54-58 | One node info per node server, in the same order and count. |
| NodeInfoProvider.FindNodeServer | cloudnet/src/main/java/de/dytanic/cloudnet/provider/NodeNodeInfoProvider.java:69-73 | The search finds nothing exactly when no server has the id. Otherwise it returns the first server with that id. |
| NodeInfoProvider.GetNode | cloudnet/src/main/java/de/dytanic/cloudnet/provider/NodeNodeInfoProvider.java:60-74 | The own id yields the own node's info. Any answer carries the requested id. |
| NodeInfoProvider.GetSelfNodeIgnoresServers | cloudnet/src/main/java/de/dytanic/cloudnet/provider/NodeNodeInfoProvider.java:65-67 | For the own id, the answer is the same whatever the node server list holds. |
| NodeInfoProvider.GetNodeAgreesWithGetNodes | cloudnet/src/main/java/de/dytanic/cloudnet/provider/NodeNodeInfoProvider.java:54-74 | For another id, `getNode` is null exactly when no entry of `getNodes` has the id. Otherwise it is the first such entry. |
| NodeInfoProvider.Snapshots | cloudnet/src/main/java/de/dytanic/cloudnet/provider/NodeNodeInfoProvider.java:76-82 | The result holds exactly the non-null snapshots of the node servers, and never more entries than servers. |
| NodeInfoProvider.SnapshotsAppend | cloudnet/src/main/java/de/dytanic/cloudnet/provider/NodeNodeInfoProvider.java:78-81 | Dropping nulls keeps relative order: it distributes over concatenation. |
| NodeInfoProvider.SnapshotsAllReported | cloudnet/src/main/java/de/dytanic/cloudnet/provider/NodeNodeInfoProvider.java:78-81 | When no snapshot is null, the result is the node servers' snapshots position by position. |
| NodeInfoProvider.FirstSnapshot | cloudnet/src/main/java/de/dytanic/cloudnet/provider/NodeNodeInfoProvider.java:92-97 | The result is null exactly when every server with the id has a null snapshot. Otherwise it is the first non-null snapshot among servers with the id. |
| NodeInfoProvider.GetNodeInfoSnapshot | cloudnet/src/main/java/de/dytanic/cloudnet/provider/NodeNodeInfoProvider.java:84-98 | The own id yields the own snapshot, even when that is null. Any other answer is one of the snapshots `getNodeInfoSnapshots` lists. |
| NodeInfoProvider.SendLocalCommandLine | cloudnet/src/main/java/de/dytanic/cloudnet/provider/NodeNodeInfoProvider.java:100-105 | A command line for this node gets an empty array of output lines. |
| NodeInfoProvider.SendCommandLine | cloudnet/src/main/java/de/dytanic/cloudnet/provider/NodeNodeInfoProvider.java:100-122 | The own id yields an empty array. A command is delegated exactly when another node with the id is known and connected. The answer is null exactly when that node is unknown or disconnected. |
| ChannelEvent.NewEvent | cloudnet-driver/src/main/java/de/dytanic/cloudnet/driver/event/events/channel/ChannelMessageReceiveEvent.java:44-62 | A new event reports the given query flag and the message's sender, targets and channel, and has no response. |
| ChannelEvent.SetQueryResponse | cloudnet-driver/src/main/java/de/dytanic/cloudnet/driver/event/events/channel/ChannelMessageReceiveEvent.java:130-133 | The call succeeds exactly on a query event, and the slot then holds the new value. On a non-query event it fails with the argument error and leaves the event as it was. |
| ChannelEvent.SetBinaryResponse | cloudnet-driver/src/main/java/de/dytanic/cloudnet/driver/event/events/channel/ChannelMessageReceiveEvent.java:107-109 | On a query event, the slot holds a response built for this message around the given buffer. A non-query event fails with the argument error and is left unchanged. |
| ChannelEvent.Response | cloudnet-driver/src/main/java/de/dytanic/cloudnet/driver/event/events/channel/ChannelMessageReceiveEvent.java:107-123 | On a query event, the slot holds a response built for this message around an empty buffer, and that buffer is returned. A non-query event fails like `setQueryResponse`. |
| ChannelEvent.RunKeepsMessage | cloudnet-driver/src/main/java/de/dytanic/cloudnet/driver/event/events/channel/ChannelMessageReceiveEvent.java:44-93 | After any sequence of writes, the message, sender, targets, channel and query flag are those given at construction. |
| ChannelEvent.NonQueryUnchanged | cloudnet-driver/src/main/java/de/dytanic/cloudnet/driver/event/events/channel/ChannelMessageReceiveEvent.java:119-133 | No sequence of writes changes a non-query event. |
| ChannelEvent.QueryKeepsLastResponse | cloudnet-driver/src/main/java/de/dytanic/cloudnet/driver/event/events/channel/ChannelMessageReceiveEvent.java:119-133 | On a query event, the slot holds what the last write put there. |
| ColumnFormatter.DefaultBuildFails | common/src/main/java/de/dytanic/cloudnet/common/column/ColumnFormatter.java:202-203 | A builder left at its defaults has no titles (its title list starts empty, line 165), so `build()` fails with "At least one title must be given". |
| ColumnFormatter.Build | common/src/main/java/de/dytanic/cloudnet/common/column/ColumnFormatter.java:202-211 | Building succeeds exactly when there is at least one title; otherwise it fails with "At least one title must be given". A new formatter keeps the builder's settings and has an empty cache. |
| ColumnFormatter.HeaderOnlyLines | common/src/main/java/de/dytanic/cloudnet/common/column/ColumnFormatter.java:64-76 | One line per title, each being bracket, spacer, title, spacer, bracket. |
| ColumnFormatter.FormatLines | common/src/main/java/de/dytanic/cloudnet/common/column/ColumnFormatter.java:62-154 | With entries, the call fails with an index fault exactly when the entries lack the table's shape: too few entries, no rows, or a short column. A table has 2 + R lines, and its second line consists of spacer characters, as wide as the header. Without entries, and with a cache that is empty or holds the header-only lines, the answer is the header-only lines, and they are cached. |
| ColumnFormatter.HeaderCacheStable | common/src/main/java/de/dytanic/cloudnet/common/column/ColumnFormatter.java:64-81 | A second header-only call returns the same lines and leaves the formatter as the first call did. |
| ColumnFormatter.HeaderCellWidth | common/src/main/java/de/dytanic/cloudnet/common/column/ColumnFormatter.java:93-107 | A header cell is as wide as the longer of its title and its column's minimum length, plus brackets and spacers. |
| ColumnFormatter.ValueCellWidth | common/src/main/java/de/dytanic/cloudnet/common/column/ColumnFormatter.java:93-99 | A value is padded by max(0, title length minus minimum length) spaces. |
| ColumnFormatter.CellWidthsAgree | common/src/main/java/de/dytanic/cloudnet/common/column/ColumnFormatter.java:93-149 | A value exactly as long as its column's minimum makes a cell as wide as its header cell. |
| ColumnFormatter.PrefixWidthsAgree | common/src/main/java/de/dytanic/cloudnet/common/column/ColumnFormatter.java:101-149 | Under that condition, every row prefix is as wide as the header prefix over the same columns. |
| ColumnFormatter.RowsAsWideAsHeader | common/src/main/java/de/dytanic/cloudnet/common/column/ColumnFormatter.java:117-150 | Under that condition, every row line is as wide as the header line. |
| ColumnFormatter.TableAligned | common/src/main/java/de/dytanic/cloudnet/common/column/ColumnFormatter.java:84-153 | Under that condition, all table lines have the same width: the columns line up under their titles. |
| ColumnFormatter.RowBoundary | common/src/main/java/de/dytanic/cloudnet/common/column/ColumnFormatter.java:122 | With the cell counter at t·d + k (1 ≤ k ≤ t), the row-flush test `i % t == 0` holds exactly when the row is full. |
| ColumnFormatter.FormatHeader | common/src/main/java/de/dytanic/cloudnet/common/column/ColumnFormatter.java:84-108 | The header loop builds the header line, and caches for each titled column the padding its values need. |
| ColumnFormatter.CellStep | common/src/main/java/de/dytanic/cloudnet/common/column/ColumnFormatter.java:120-150 | One pass of the flattened loop stops exactly at the last counter value, with the complete table. Otherwise it flushes a finished row and appends the next cell, keeping the loop's invariant. |
| ColumnFormatter.FormatTable | common/src/main/java/de/dytanic/cloudnet/common/column/ColumnFormatter.java:84-152 | The source's header loop and flattened cell loop produce exactly the table `TableLines` defines: header, separator, then each row's cells. |
| SyncProxyMotd.Format | modules/syncproxy/src/main/java/eu/cloudnetservice/cloudnet/ext/syncproxy/config/SyncProxyMotd.java:98-112 | The result is null exactly when the input is null. It contains no `&`. It is the placeholder-filled text with each `&` turned into `§` position by position. |
| SyncProxyMotd.PlainLineUntouched | modules/syncproxy/src/main/java/eu/cloudnetservice/cloudnet/ext/syncproxy/config/SyncProxyMotd.java:104-110 | A text without `%` passes through all six placeholder substitutions unchanged. |
| SyncProxyMotd.FormatPlainLine | modules/syncproxy/src/main/java/eu/cloudnetservice/cloudnet/ext/syncproxy/config/SyncProxyMotd.java:98-112 | A line with neither `%` nor `&` is returned unchanged. |
| Text.ReplaceAll | modules/syncproxy/src/main/java/eu/cloudnetservice/cloudnet/ext/syncproxy/config/SyncProxyMotd.java:104-111 | `String.replace` with a replacement as long as the target keeps the text's length. Together, `ReplaceAllAtFirst` and `ReplaceAllNoOccurrence` determine its result on every text. |
| Text.ReplaceAllAtFirst | modules/syncproxy/src/main/java/eu/cloudnetservice/cloudnet/ext/syncproxy/config/SyncProxyMotd.java:104-111 | `replace` copies the text before the first occurrence of the target, puts the replacement in its place, and continues with the text after that occurrence. |
| Text.ReplaceAllScansTo | modules/syncproxy/src/main/java/eu/cloudnetservice/cloudnet/ext/syncproxy/config/SyncProxyMotd.java:104-111 | From any position up to the first occurrence of the target, `replace` copies the text unchanged, then puts the replacement in the occurrence's place and continues after it. |
| Text.ReplaceAllNoOccurrence | modules/syncproxy/src/main/java/eu/cloudnetservice/cloudnet/ext/syncproxy/config/SyncProxyMotd.java:104-111 | `replace` leaves a text alone when the target occurs nowhere in it. |
| Text.ReplaceAllAbsent | modules/syncproxy/src/main/java/eu/cloudnetservice/cloudnet/ext/syncproxy/config/SyncProxyMotd.java:104-111 | `replace` leaves a text alone when the target's first character does not occur in it. |
| Text.ReplaceCharPointwise | modules/syncproxy/src/main/java/eu/cloudnetservice/cloudnet/ext/syncproxy/config/SyncProxyMotd.java:111 | Replacing one character by another keeps the length and changes exactly the positions holding that character. |
| Text.ReplaceCharRemoves | modules/syncproxy/src/main/java/eu/cloudnetservice/cloudnet/ext/syncproxy/config/SyncProxyMotd.java:111 | After replacing a character by a different one, that character no longer occurs. |
| Text.IntToDecimal | modules/syncproxy/src/main/java/eu/cloudnetservice/cloudnet/ext/syncproxy/config/SyncProxyMotd.java:109-110 | `String.valueOf(int)` writes at least one digit, a leading `-` exactly for negative numbers, and no leading zeros: only zero itself starts with `0`. |
| Text.IntToDecimalRoundTrip | modules/syncproxy/src/main/java/eu/cloudnetservice/cloudnet/ext/syncproxy/config/SyncProxyMotd.java:109-110 | The decimal rendering of any player count reads back as the same number, sign included. |
| Text.Repeat | common/src/main/java/de/dytanic/cloudnet/common/column/ColumnFormatter.java:95-97 | `StringUtil.repeat(c, n)` is n copies of c. |
| Text.ToUpper | modules/bridge/src/main/java/eu/cloudnetservice/modules/bridge/player/executor/ServerSelectorProvider.java:45 | `StringUtil.toUpper` keeps the length and upper-cases each character on its own. |
| SelectorTypes.Compare | modules/bridge/src/main/java/eu/cloudnetservice/modules/bridge/player/executor/ServerSelectorType.java:41-54 | `HIGHEST_PLAYERS` ranks a service first exactly when its online count is lower. `LOWEST_PLAYERS` does so exactly when the count is higher. Both report a tie exactly on equal counts, and a missing count is 0. |
| SelectorTypes.LowestReversesHighest | modules/bridge/src/main/java/eu/cloudnetservice/modules/bridge/player/executor/ServerSelectorType.java:41-54 | `LOWEST_PLAYERS.compare(a, b)` is `HIGHEST_PLAYERS.compare(b, a)`, the negated `HIGHEST_PLAYERS.compare(a, b)`. |
| SelectorTypes.ComparatorContract | modules/bridge/src/main/java/eu/cloudnetservice/modules/bridge/player/executor/ServerSelectorType.java:41-54 | Both comparators are antisymmetric and transitive, as `Comparator` requires. |
| SelectorTypes.Build | modules/bridge/src/main/java/eu/cloudnetservice/modules/bridge/player/executor/ServerSelectorType.java:157-161 | Building succeeds exactly when both name and comparator are set. A missing name is reported first, then a missing comparator, each with its message. The built type has the given name and comparator. |
| SelectorTypes.BuilderOf | modules/bridge/src/main/java/eu/cloudnetservice/modules/bridge/player/executor/ServerSelectorType.java:97-99 | `builder(type)` is pre-filled with the type's name and comparator. |
| SelectorTypes.BuilderOfRoundTrip | modules/bridge/src/main/java/eu/cloudnetservice/modules/bridge/player/executor/ServerSelectorType.java:87-99 | `builder(type).build()` gives a type equal to `type`. |
| SelectorProvider.Register | modules/bridge/src/main/java/eu/cloudnetservice/modules/bridge/player/executor/ServerSelectorProvider.java:44-46 | The type is stored under its upper-cased name, replacing any type there. No other key is added or changed, and keying by upper-cased names is kept. |
| SelectorProvider.NewProvider | modules/bridge/src/main/java/eu/cloudnetservice/modules/bridge/player/executor/ServerSelectorProvider.java:34-38 | A fresh registry holds exactly `HIGHEST_PLAYERS`, `LOWEST_PLAYERS` and `RANDOM`, each under its own name. |
| SelectorProvider.Lookup | modules/bridge/src/main/java/eu/cloudnetservice/modules/bridge/player/executor/ServerSelectorProvider.java:53-55 | A lookup answers exactly when the upper-cased name is a key, and then with that key's entry. |
| SelectorProvider.KnownServerSelectorTypes | modules/bridge/src/main/java/eu/cloudnetservice/modules/bridge/player/executor/ServerSelectorProvider.java:61-64 | The view has exactly the registered keys, and every key finds its own entry through `serverSelectorType`. |
| SelectorProvider.RegisterThenLookup | modules/bridge/src/main/java/eu/cloudnetservice/modules/bridge/player/executor/ServerSelectorProvider.java:44-55 | A registered type is found under its name written in any case. |
| SelectorProvider.RegisterKeepsOtherLookups | modules/bridge/src/main/java/eu/cloudnetservice/modules/bridge/player/executor/ServerSelectorProvider.java:44-55 | Registering does not change the lookup of any name that upper-cases differently. |
| SelectorProvider.LookupIgnoresCase | modules/bridge/src/main/java/eu/cloudnetservice/modules/bridge/player/executor/ServerSelectorProvider.java:53-55 | Names that upper-case alike find the same entry. |

## Findings

| source | as written | input that shows it | evidently intended | confidence | as-written member | corrected member |
|---|---|---|---|---|---|---|
| cloudnet/src/main/java/de/dytanic/cloudnet/provider/service/NodeCloudServiceFactory.java:99-110 | `chain.compare(cpuLeft, cpuRight)` returns a new `ComparisonChain` that is never assigned, so `chain.result()` is the memory comparison alone | A (used 1000, CPU 50), B (500, 90), C (500, 10), all available: B is chosen | on a memory tie, the node with the lower CPU usage (C) is chosen when both report one | not executed; follows from `ComparisonChain` being immutable | Placement.CpuTieDiscarded | Placement.PeekLeastWhenCpuKnown |

The service factory runs the comparator as written, so the routing lemmas state
what the code does. `Placement.Ordering` selects either comparator. Every lemma
stated for both (faults, least memory, heap independence) therefore holds
whether or not the CPU tie-break is restored.

## Left out

- The start query's transport is left out, because it is asynchronous I/O: `sendSingleQueryAsync`, the 5-second wait, and the `DataBuf` serialisation of the configuration and reply. The reply enters `ServiceFactory.CloudServiceResult` as an optional value. The local service manager's snapshot is a parameter.
- `Placement.CompareSnapshots` does not model 32-bit wrap-around of `usedMemory + maxHeap`, because integers are unbounded here. Its claim that the heap size cancels out holds only without overflow.
- `Comparison.CompareReal` models `Double.compare` on ordinary values only, because CPU usage is a `real` here. NaN and negative zero are not represented.
- The head check compares node ids, whereas the source compares object references.
- The `RANDOM` selector's comparator draws from `ThreadLocalRandom`, so it is kept as a tag and never evaluated. User-registered comparators are also tags.
- `StringUtil.repeat`, `StringUtil.toUpper` and `ColumnEntry` are not part of this model. They are taken as n copies of a character, ASCII upper-casing, and a pair of minimum length and formatted values.
- `SyncProxyMotd` gets the service name, unique id, task and node from the process-wide `Wrapper` instance; here they are parameters. The unique id is passed in its string form.
- `SyncProxyMotd`'s getters and setters are plain fields of the `Motd` datatype, so a getter returns the value last stored by construction.
- The JSON responses and the deprecated `ProtocolBuffer` methods of `ChannelMessageReceiveEvent` are left out, because they are codec variants of `setBinaryResponse`. So are the delegating `getData`/`getBuffer` accessors.
- `ChannelMessage.buildResponseFor` is not part of this model. A built response is recorded as the request it answers plus its buffer.
- `response()` returns the same mutable buffer that the response holds. Writes a caller makes to it later are not modelled.
- The console-command methods of `NodeNodeInfoProvider` are left out, because they are stubs returning null or an empty list.
- `Preconditions.checkNotNull` on string arguments is left out, because strings are never null here.
- `ColumnFormatter.FormatLines` requires at least one column title, as `Builder.build` guarantees for every formatter; the protected constructor alone is not modelled.
- ColumnFormatter.FormatLines measures a title's length in Unicode characters, while Java's `length()` counts UTF-16 units. A header cell whose title has characters outside the Basic Multilingual Plane gets up to one more space per such character than Java gives it, and the values under that title get up to one fewer. A value's own characters never affect padding, because the padding is computed from the title and the minimum length alone. The separator line is as long as the header line counted in characters rather than UTF-16 units.
- `getNodeServer(id)` of the node server provider is not part of this model. `NodeInfoProvider.FindNodeServer` takes it as the first node server with that id in list order.
- Java `int` overflow of `columnTitles.length * rowCount` in the table loop is not modelled.
- The repository's other files are left out, because they hold no logic of this core: Netty channel I/O, filesystem installers, game-platform listeners, reflection-based event dispatch and build configuration.
