# Verification of the SNMP config generator, the rotating log file, the bpftrace scrape and the rate limiter

This project models, in Dafny, the parts of the exporter collection whose correctness rests on invariants that span
many functions, and proves what each of them is for.

**The SNMP config generator** (`snmp_exporter/generator`) compiles a MIB tree and a module configuration into a list
of metrics and the OIDs to `Get` and to `Walk`.

- `ByteStrings`, `Oids` and `Minimize` treat an OID as a string of digits and dots and as a sequence of arcs, show that
  the string tests of the program are the prefix order on arcs, and characterise `minimizeOids` for every input.
- `FetchSet` gives each key of the shared fetch set a meaning (a key that ends in a dot is one instance, any other a
  whole subtree) and shows that splitting the minimised set into `Get` and `Walk` keeps that meaning.
- `MibTree`, `BuildTree` and `Nodes` are the tree: its numbering, its construction from the library's reversed sibling
  lists, longest-prefix search, and deep copy. A node is an object; the tree it stands for is a value (`Node.Value`).
- `Prepare`, `Augments`, `IndexPasses` and `PrepareNodes` are the preparation passes: as functions of the tree's value with their
  closed form, and as methods that assign fields of the nodes while they walk them.
- `IndexCollapse`, `Lookups` and `WalkPlan` are the look-back machine over a metric's indexes, the chained lookups, and
  the classification of walk entries.
- `CompiledModule` says what a finished module is and proves the properties of every such module (`ScalarModule` gives
  the smallest one in full); `NestedColumns` says when a metric is generated twice and `FetchedMetrics` when one is not
  fetched; `Generator` is the object whose methods fill a module step by step, `GenerateModule` starts it from the
  prepared nodes, and `Pipeline` joins all stages from the library's parse tree to the module.
- `BuiltFields`, `PreparedFields`, `WalkedEntries`, `MetricFields`, `AddressTypes`, `ShownLookups` and `ShownModule` say of
  each stage what its results are, over the fields of what goes in: of a built node over the library's node, of a
  prepared node over the built one, of the walked OIDs and the metric nodes over the configured entries, and of a metric
  of the finished module over its node, the nodes its indexes name and the configured lookups. `WantedInstances` says
  which instances a module fetches without a request list or a key.
- `SmallTables`, `Numberings`, `NestingTable` and `PanickingTable` are small trees on which the generator goes wrong.

**The rotating log file** (`FileRotation`) is a stateful object over a disk of named files; it is proved for every
number of kept files from two upwards. **The bpftrace scrape** (`Scrape`) cuts an endless stream of lines into dumps
with nothing but a countdown. **The rate limiter** (`RateLimit`) is a token bucket, modelled by its interleaved steps
and by the objects that take them.

The rotating log file and the rate limiter exist in many exporters; the copies under `bind_exporter` are cited.

What the generator relies on and never checks is stated as a precondition where it is needed:

- sub-identifiers of siblings are distinct and fit an `int64` (`BuildTree.Numbered`, `MibTree.WellFormed`);
- a label is empty or begins with a letter, so that none looks like an OID (`MibTree.LabelsAreNames`);
- a walk entry is a name, an OID, or lies outside the tree and is then reported (`WalkPlan.WalkEntriesAreOids`). An entry
  such as `1-` sorts between `1` and `1.2` and breaks the minimisation (`Minimize.LowCharacterCounterexample`).

Some claims one could expect of the code do not hold on all inputs. For each the project says exactly when it does, and
gives inputs on which it does not:

- minimising yields the uncovered entries exactly when no entry sorts between an uncovered entry and one of its
  descendants without being a descendant (`Minimize.ScanExact`);
- every run generates each metric once exactly when no column of the tree has a metric below it
  (`NestedColumns.NoMetricTwiceExactly`); otherwise some walk entries make the generator emit the lower metric twice;
- every run fetches each metric it generates exactly when no node with a supported type and a readable access, column or
  scalar, has a metric below it (`FetchedMetrics.EveryMetricFetchedExactly`); otherwise walking such a node by its
  instance generates the metrics below it and fetches not all of them. Both conditions hold if such nodes are leaves
  (`CompiledModule.LeavesEmitAlone`), which overrides keep so if they make no inner node one (`Pipeline.StaysInner`), and
  both fail for `NestingTable.Nesting`;
- the test for the index node of a lookup accepts what lies under the metric's parent, and also what lies under a node
  whose last arc begins with the digits of the parent's (`Lookups.NearExactly`). If the tree has a node of that name under
  the parent, the one chosen lies there in every order of the table exactly when no look-alike has that name
  (`Lookups.IndexNodeUnderParent`);
- the index list collapses without losing an address exactly when every address follows its own type
  (`IndexCollapse.CollapseIsExact`);
- a slice bound of the collapse becomes negative, and the run panics, exactly when the first place that does not go
  through is an address whose type stands two places back while fewer than two indexes are left
  (`IndexCollapse.OutOfRangeExactly`, and for a whole run `CompiledModule.PanicsExactly`). `PanickingTable.PanickingRun`
  is such a run;
- the count of matching index labels answers rightly for every lookup exactly when the metric's index labels are
  distinct (`Lookups.RequiredExactly`); with a repeated label it can accept a lookup of which a source is missing and
  refuse one of which all are present;
- the AUGMENTS pass gives every row the initial indexes of the row it augments exactly when each row, at the time it is
  visited, finds them still there (`IndexPasses.AugmentExactly`). Without cycles this is a condition on the visiting order
  alone (`Augments.InOrderExactly`), and it holds in every order if augmented rows are neither augmentations nor
  children of one (`Augments.AugmentsOnceInOrder`). `Numberings.NumberingMatters` is a table that two numberings of the
  same rows prepare differently;
- the exported histogram is cumulative exactly when, of two buckets out of order, the first is empty, and the second too
  unless a later bucket has the first one's bound (`Scrape.CumulativeExactly`). Without empty buckets this is to say that
  the buckets are sorted (`Scrape.SortedExactly`);
- a scrape handles exactly the declared values of the dump it starts with, whatever follows, exactly when some first
  lines of the dump make the countdown end and the other lines have no declared value (`Scrape.FramedExactly`). A dump
  that names every declared variable once is of that form; one that lacks a value makes the scrape run on into the next
  dump, and one that has more leaves some for the next scrape;
- a run of the rate limiter panics exactly when a tick or a second close is delivered after the close
  (`RateLimit.PanicsExactly`): stopping a ticker does not take back a tick that is already under way.

## Model

| member | source | states |
|---|---|---|
| Minimize.MinimizeOids | snmp_exporter/generator/tree.go:298-309 | for any entries: the result is strictly sorted, is part of the input, keeps every uncovered entry and leaves no entry without a cover; unless an entry separates an OID from its descendant it is exactly the set of uncovered entries |
| Minimize.ScanExact | snmp_exporter/generator/tree.go:298-309 | one remembered OID finds exactly the uncovered entries if and only if no foreign entry sorts between an uncovered entry and one of its descendants |
| Minimize.BetweenDescendants | snmp_exporter/generator/tree.go:300-307 | with no character below the dot, everything that sorts between an OID and a descendant is itself a descendant |
| Minimize.MinimizedAsSet | snmp_exporter/generator/tree.go:298-309 | for any entries the result depends on them only as a set, so not on map order or repeats, and minimising again changes nothing |
| Minimize.MinimalIdempotent | snmp_exporter/generator/tree.go:298-309 | the minimal keys of the minimal keys are the minimal keys, and those are never separated |
| Minimize.CoveredOnce | snmp_exporter/generator/tree.go:298-309 | every entry is covered by exactly one minimal entry |
| Minimize.SeparatedBreaks | snmp_exporter/generator/tree.go:302-306 | a separated entry always leaves an entry in the result that another one covers |
| Minimize.LowCharacterCounterexample | snmp_exporter/generator/tree.go:302-306 | `1`, `1-`, `1.2` is such an input |
| Oids.CoversIsArcPrefix | snmp_exporter/generator/tree.go:313 | the test on strings with a dot appended holds exactly when the arcs of one OID are a prefix of the other's |
| Oids.RenderInjective | snmp_exporter/generator/net_snmp.go:258-264 | different arcs never print as the same OID |
| Oids.RenderConcat | snmp_exporter/generator/net_snmp.go:260-264 | the OID of a node is the OID of any ancestor followed by the remaining arcs, each after a dot |
| Oids.RenderPrefix | snmp_exporter/generator/tree.go:417 | one OID begins with another as a string if and only if the arcs agree but for the last one of the shorter, whose digits begin those of the arc in its place |
| Oids.SplitRender | snmp_exporter/generator/tree.go:1101 | splitting an OID at its dots gives back the decimals of its arcs |
| Oids.WithLastRender | snmp_exporter/generator/tree.go:1101-1104 | split, replace the last part, join: the parent's OID with a new last part |
| FetchSet.ProcessFinalOids | snmp_exporter/generator/tree.go:1159-1179 | for any keys Get and Walk are sorted keys, told apart by their last character, with every minimal key and one above each key among them; unless a key is separated they hold exactly the minimal keys, without duplicates |
| FetchSet.FetchedIsDenoted | snmp_exporter/generator/tree.go:1159-1179 | an instance is fetched if and only if some key of the fetch set denotes it |
| FetchSet.RequestsDisjoint | snmp_exporter/generator/tree.go:1166-1178 | no Get lies inside a Walk, no Walk inside another, and no instance is requested twice |
| FetchSet.MinimalKeepsMeaning | snmp_exporter/generator/tree.go:298-309 | minimising keeps the union of what the keys denote, and what is left denotes disjoint sets |
| FetchSet.SubtreeKey | snmp_exporter/generator/tree.go:816-817 | an OID as key denotes exactly the instances at or below it |
| FetchSet.InstanceKey | snmp_exporter/generator/tree.go:818-823 | an OID and a dot denote exactly that instance |
| MibTree.SearchIsLongestMatch | snmp_exporter/generator/tree.go:312-324 | the search fails exactly when the root does not cover the query; otherwise it returns the node with the longest OID among all nodes that cover it |
| MibTree.PreorderAscends | snmp_exporter/generator/tree.go:25-30 | the walk meets the nodes in strictly increasing order of their arcs |
| MibTree.OidsDistinct | snmp_exporter/generator/net_snmp.go:258-264 | no two nodes of a tree share an OID |
| MibTree.NameToNodeByOid | snmp_exporter/generator/tree.go:151-158 | the table finds every node by its OID, although labels are entered later |
| MibTree.NameToNodeSound | snmp_exporter/generator/tree.go:151-158 | every entry is a node of the tree under its OID or label, and an OID-shaped name finds the node with that OID |
| BuildTree.BuiltIsWellFormed | snmp_exporter/generator/net_snmp.go:235-319 | from every parse tree with distinct sibling numbers comes a tree whose OIDs extend the parent's and whose siblings ascend |
| Nodes.BuildMibTree | snmp_exporter/generator/net_snmp.go:235-255 | the new nodes form a tree of fresh objects whose value is the one built from the parse tree |
| Nodes.ProcessChildNodes | snmp_exporter/generator/net_snmp.go:304-319 | prepending and sorting gives the children of the reversed list in ascending order |
| Nodes.SortNodesValues | snmp_exporter/generator/net_snmp.go:315-318 | sorting node objects sorts their values and keeps the set of nodes |
| Nodes.SetNodeEnumValues | snmp_exporter/generator/net_snmp.go:295-302 | the table of a list in which later entries replace earlier ones |
| Nodes.SetNodeIndexes | snmp_exporter/generator/net_snmp.go:321-332 | the names in order, implied if any entry is |
| Nodes.Node.Copy | snmp_exporter/generator/net_snmp.go:88-102 | a deep copy: equal value, every node new |
| BuiltFields.BuiltAs | snmp_exporter/generator/net_snmp.go:235-332 | every node of the built tree has the fields of the library's node, its type and access by the names of parse.h and `unknown` for other codes, for each enumeration value the label of the last entry that has it, and one child for each in the list, in ascending order |
| PrepareNodes.PrepareCopy | snmp_exporter/generator/tree.go:143-217 | the deep copy becomes the prepared tree, its table finds its nodes by name, and the original's value is unchanged |
| PrepareNodes.PrepareTree | snmp_exporter/generator/tree.go:143-227 | the tree's value becomes the value-level prepared tree: indexes and types of all passes, everything else as before; the table finds the nodes by OID and label |
| PrepareNodes.PreparePasses | snmp_exporter/generator/tree.go:160-227 | after the passes every node has the indexes of the value-level state and its prepared type |
| PrepareNodes.BuildNameToNodeMap | snmp_exporter/generator/tree.go:151-158 | the table maps every OID and label to a node with the OID of the last node entered under it |
| PrepareNodes.ProcessIndexes | snmp_exporter/generator/tree.go:175-187 | in every node of the subtree an index named INTEGER becomes the node's own label |
| PrepareNodes.ProcessAugments | snmp_exporter/generator/tree.go:189-206 | the in-place pass computes the value-level pass over a state of index lists by OID |
| PrepareNodes.CopyIndexesToChildren | snmp_exporter/generator/tree.go:208-217 | likewise for the pass that hands indexes down |
| PrepareNodes.ProcessNodeTypes | snmp_exporter/generator/tree.go:219-254 | every node of the subtree gets its prepared type and no other field changes |
| PrepareNodes.NodesDistinct | snmp_exporter/generator/net_snmp.go:258-264 | node objects of a tree are told apart by their OIDs |
| PreparedFields.PreparedNodes | snmp_exporter/generator/tree.go:160-254 | node by node in the order of the walk, a prepared tree has the indexes of the passes, the type its convention, hint and type lead to, and every other field as before |
| PreparedFields.PreparedTypeExactly | snmp_exporter/generator/tree.go:219-254 | a promoted convention is the type, PhysAddress a hardware address, then a DisplayString or a hint of digits and `a` or `t` a text, then the hint `1x:` a hardware address, else the type stays |
| PreparedFields.InitialIndexes | snmp_exporter/generator/tree.go:175-187 | the passes start from every node's own indexes, with its label for each INTEGER |
| PreparedFields.TargetExactly | snmp_exporter/generator/tree.go:189-206 | a row augments the node that its clause names by OID or by label, and none if there is no such node |
| IndexPasses.IndexPropagation | snmp_exporter/generator/tree.go:160-217 | if every row takes initial indexes, every node ends with the resolved indexes of its shallowest ancestor-or-self that has any, its own if none has |
| Prepare.CopyDownClosedForm | snmp_exporter/generator/tree.go:208-217 | after handing down, a node has the first nonempty index list on the way from the top |
| IndexPasses.AugmentClosedForm | snmp_exporter/generator/tree.go:189-206 | then after the pass a node has the indexes of the row it augments, else of the row its parent augments, else its own, as they were before the pass |
| IndexPasses.AugmentExactly | snmp_exporter/generator/tree.go:189-206 | and only then: the pass has this closed form at every node for all initial indexes if and only if every row, when visited, finds the row it augments with its initial indexes |
| Augments.InOrderExactly | snmp_exporter/generator/tree.go:189-206 | without cycles of augmentations that is the case if and only if no row augments one that was overwritten before it is visited |
| Augments.AugmentsOnceInOrder | snmp_exporter/generator/tree.go:189-206 | augmented rows that are neither augmentations nor children of one are never overwritten, whatever the order |
| Augments.SourceHolds | snmp_exporter/generator/tree.go:189-206 | whose initial indexes a node has after any number of steps of the pass is a function of the augmentations alone |
| Numberings.NumberingMatters | snmp_exporter/generator/tree.go:189-217 | a table of three rows ends differently prepared when two of its rows exchange their numbers |
| Numberings.TakesFromEnd | snmp_exporter/generator/tree.go:189-217 | a row visited after the augmentation it augments ends with the indexes at the end of the chain |
| IndexCollapse.CollapseIndexes | snmp_exporter/generator/tree.go:886-921 | the loop with its two remembered conventions runs the look-back machine; its results are a list, a skipped metric, or a negative bound |
| IndexCollapse.CollapseIsExact | snmp_exporter/generator/tree.go:886-921 | the list is collapsed without losing an address if and only if each address has its own type right before it, or two before it with one other plain index between |
| IndexCollapse.CollapseParsesGroups | snmp_exporter/generator/tree.go:905-921 | on a list of valid groups both truncations stay in bounds and exactly the types and enclosed plain indexes are removed, in order |
| IndexCollapse.PrecededAreGroups | snmp_exporter/generator/tree.go:18-22 | the local condition on each address makes the list a list of valid groups |
| IndexCollapse.GroupsArePreceded | snmp_exporter/generator/tree.go:18-22 | and conversely |
| IndexCollapse.OutOfRangeExactly | snmp_exporter/generator/tree.go:886-921 | a bound becomes negative if and only if the first place that does not go through is an address that has to drop two of fewer than two kept indexes, as counted on the list itself |
| IndexCollapse.RunGoes | snmp_exporter/generator/tree.go:886-921 | the list goes through if and only if every place does, and then that count is the length of the result |
| IndexCollapse.UnsliceableExactly | snmp_exporter/generator/tree.go:886-921 | the same for the index list of a node, up to its first index that cannot be handled |
| IndexCollapse.SharedTypeOutOfRange | snmp_exporter/generator/tree.go:908-911 | a type followed by two addresses makes the second truncation use a negative bound |
| IndexCollapse.SharedTypeLosesIndexes | snmp_exporter/generator/tree.go:908-911 | with an index in front the same list loses that index and the first address |
| MetricFields.ItemShown | snmp_exporter/generator/tree.go:886-907 | the collapse compares the convention of the node an index names, and an address asks for InetAddressType, or for LldpPortIdSubtype if its type is LldpPortId |
| WalkPlan.EntryPlanned | snmp_exporter/generator/tree.go:367-404 | the node of a resolved walk entry lies in the tree and covers the entry; it is the entry's own node exactly when the entry is no instance |
| WalkPlan.SavedSuffix | snmp_exporter/generator/tree.go:818-821 | for an entry classified as an instance, node OID plus saved suffix is the entry again |
| WalkPlan.PlanIsAntichain | snmp_exporter/generator/tree.go:793-806 | no minimised walk entry covers another |
| WalkPlan.MetricNodesApart | snmp_exporter/generator/tree.go:809-830 | two entries whose subtrees share a node have the same metric node, unless one is an instance of a column above the other's node |
| WalkPlan.WalkKeyForm | snmp_exporter/generator/tree.go:815-825 | what the key of each class of entry denotes: the subtree, the instance, or instance .0 |
| WalkPlan.MetricIsFetched | snmp_exporter/generator/tree.go:809-830 | request lists made from a set with the entries' keys fetch every node of a subtree entry, a column at its saved instances, and a scalar at its one |
| WalkPlan.SavedInstanceFetched | snmp_exporter/generator/tree.go:818-821 | every saved instance of a column is fetched by any request lists made from a set with the entries' keys |
| WalkedEntries.WalkedExactly | snmp_exporter/generator/tree.go:793-806 | an OID is walked if and only if some configured entry stands for it and no other OID that an entry stands for covers it; a label stands for the last node that has it |
| WalkedEntries.FoundExactly | snmp_exporter/generator/tree.go:367-403 | an OID is found if and only if a node has it or the deepest node above it is a column, and that is its metric node |
| WalkedEntries.MetricNodesExactly | snmp_exporter/generator/tree.go:809-830 | the metric nodes of a run are those of the walked OIDs and no others |
| Lookups.GetIndexNode | snmp_exporter/generator/tree.go:408-424 | returns some table entry with the label near the metric if there is one, whatever the map order, and else the table's own entry |
| Lookups.IndexNodeLabel | snmp_exporter/generator/tree.go:408-424 | whichever it returns, the label is the same |
| Lookups.NearExactly | snmp_exporter/generator/tree.go:406-419 | the prefix test accepts the OIDs that match in every branch of the metric's but the last, and those that part from them at the parent's own arc while beginning with its digits; never both |
| Lookups.IndexNodeUnderParent | snmp_exporter/generator/tree.go:406-424 | where a node of that name lies under the metric's parent, the chosen one does, in every order of the table, if and only if no look-alike has that name |
| Lookups.LookAlikeExample | snmp_exporter/generator/tree.go:417 | below 1.3.6.1.10 there are look-alikes for a metric whose parent is 1.3.6.1.1 |
| Lookups.SanitizeIdempotent | snmp_exporter/generator/tree.go:1181-1187 | sanitising a sanitised label changes nothing |
| Lookups.SanitizedExactly | snmp_exporter/generator/tree.go:1181-1187 | a string is the result if and only if it has the characters of [a-zA-Z0-9_] in their places and an underscore in every other place |
| Lookups.LabelsUnchanged | snmp_exporter/generator/tree.go:1181-1187 | a label is unchanged if and only if it has no other characters |
| Lookups.RequiredExactly | snmp_exporter/generator/tree.go:1006-1016 | the count is a membership test for every lookup if and only if the metric's index labels are distinct |
| Lookups.RequiredMeansPresent | snmp_exporter/generator/tree.go:1006-1016 | with distinct index labels the count equals the number of sources exactly when every source is an index |
| Lookups.RepeatedLabelIsRefused | snmp_exporter/generator/tree.go:1006-1016 | a lookup that needs just a repeated label is refused although the label is there |
| Lookups.RepeatedLabelCounterexample | snmp_exporter/generator/tree.go:1006-1016 | a repeated index label makes up for a missing source |
| ShownLookups.AppliesExactly | snmp_exporter/generator/tree.go:1006-1016 | a lookup applies if and only if as many pairs of an index and a source share a label as it has sources |
| Lookups.LookupsWellFounded | snmp_exporter/generator/tree.go:934-978 | every label that a lookup of the finished metric reads is a sanitised original index or the label of an earlier lookup |
| Lookups.LookupChain | snmp_exporter/generator/tree.go:934-972 | after any number of lookups labels are still distinct and every index comes from the node or from a lookup |
| CompiledModule.MetricsOfConcat | snmp_exporter/generator/tree.go:833-843 | walking one list of nodes after another emits the metrics of the first, then of the second, and panics if either does |
| CompiledModule.MetricSource | snmp_exporter/generator/tree.go:861-923 | every metric stands for a usable node and carries its OID |
| MetricFields.EmitsExactly | snmp_exporter/generator/tree.go:861-923 | a node has a metric if and only if its type is supported, its access readable, no override ignores its sanitised label, all its indexes are known and every place of its index list goes through |
| MetricFields.MetricShows | snmp_exporter/generator/tree.go:870-919 | the metric has the sanitised label, the OID, the exported type (gauge, counter, text, bits, or the type itself) and the enumeration of its node; its indexes are some of the node's in their order, the last among them and all of them if none is an address, each with the type, the size and the enumeration of the node it names, and implied if and only if it is the last one of a node with that flag |
| MetricFields.MetricsListed | snmp_exporter/generator/tree.go:861-923 | a walk generates exactly one such metric for each node that has one, in the order of the walk |
| CompiledModule.PanicsExactly | snmp_exporter/generator/tree.go:861-921 | a walk panics if and only if it meets a usable node that is not ignored and whose index list breaks |
| PanickingTable.PanickingRun | snmp_exporter/generator/tree.go:731-774 | every run over a table with a type, two addresses and a column indexed by all three panics |
| PanickingTable.SharedTypeCrashes | snmp_exporter/generator/tree.go:886-921 | the index list of such a column, resolved through the name table, needs a negative bound |
| PanickingTable.AddressTablesExist | snmp_exporter/generator/tree.go:886-921 | such a table: a type, two addresses and a counter indexed by the three |
| CompiledModule.NodesApart | snmp_exporter/generator/tree.go:809-830 | where no column has a metric below it, no node that emits a metric lies below two metric nodes |
| CompiledModule.NoMetricTwice | snmp_exporter/generator/tree.go:833-925 | then the OIDs of a module's metrics are pairwise distinct |
| NestedColumns.NoMetricTwiceExactly | snmp_exporter/generator/tree.go:793-925 | every run generates each metric once if and only if no column of the tree has a metric below it |
| NestedColumns.MetricTwice | snmp_exporter/generator/tree.go:793-925 | for every other tree there are two walk entries whose run emits a metric twice, without panicking unless the column's subtree does |
| CompiledModule.EveryMetricFetched | snmp_exporter/generator/tree.go:731-774 | where no usable node has a metric below it, every metric is walked, or fetched at each of its saved instances, or is a scalar whose instance .0 is fetched |
| FetchedMetrics.EveryMetricFetchedExactly | snmp_exporter/generator/tree.go:809-925 | every run fetches every metric it generates if and only if no usable node of the tree has a metric below it |
| FetchedMetrics.MetricMissed | snmp_exporter/generator/tree.go:809-925 | for every other tree the run that walks such a node alone generates its last metric without fetching it, and panics only if the node's subtree does |
| FetchedMetrics.KeyMisses | snmp_exporter/generator/tree.go:1095-1122 | why: no key of that run, neither its own nor that of an address type, covers the last metric or its instance .0 |
| NestingTable.MetricBelowColumn | snmp_exporter/generator/tree.go:809-925 | a column over a readable leaf that is its own index is a tree on which both claims fail although nothing in it panics |
| CompiledModule.EveryInstanceFetched | snmp_exporter/generator/tree.go:731-774 | a metric with saved instances is fetched at each of them |
| CompiledModule.EveryLookupFetched | snmp_exporter/generator/tree.go:1052-1062 | every column that a lookup reads is walked, or fetched at each saved instance of the metric |
| CompiledModule.TypedAddressesDecodable | snmp_exporter/generator/tree.go:1095-1122 | every metric still typed as an address, which AddressTypes.AddressExactly tells, has a preceding sibling of type InetAddressType, fetched with it |
| CompiledModule.PrecedingSibling | snmp_exporter/generator/tree.go:1101-1108 | the node found under the previous OID is the sibling whose last arc is one less |
| CompiledModule.FetchesExactly | snmp_exporter/generator/tree.go:1159-1179 | the module fetches the instances its keys denote and no others, and nothing twice |
| CompiledModule.LookupsGrounded | snmp_exporter/generator/tree.go:928-980 | in a module whose lookup labels are distinct, chained lookups are well founded |
| AddressTypes.FinishedType | snmp_exporter/generator/tree.go:1095-1122 | a metric keeps its type unless that is an address and no node of type InetAddressType has the number just before it; then it is an OctetString |
| AddressTypes.AddressExactly | snmp_exporter/generator/tree.go:1095-1122 | a finished metric is an address if and only if its node was one and there is such a node before it |
| ShownLookups.FinishedLookups | snmp_exporter/generator/tree.go:928-1093 | the lookups of a finished metric are, in order, one for each configured lookup that applies, with the OID, the sanitised label and the exported type of a node it may stand for and the sanitised sources as labels, then one without OID, type and labels for each source that these drop; whether a lookup applies is decided by the labels of the metric and of the lookups before it; an index is added for each lookup whose label some lookup reads |
| ShownModule.FinishedShows | snmp_exporter/generator/tree.go:858-1122 | the finished metric over its node: name, OID, type, enumeration, indexes and lookups together |
| ShownModule.ModuleShows | snmp_exporter/generator/tree.go:731-774 | every finished module has exactly one such metric for each node below the metric nodes that has one, in the order of the walk |
| ShownModule.LabelIsName | snmp_exporter/generator/tree.go:870 | a node whose label has only letters, digits and underscores gives a metric of that name |
| ShownModule.FailureShows | snmp_exporter/generator/tree.go:939-962 | a run that fails at a lookup fails at one that applies after the lookups before it, and whose name is unknown or may stand for a node of an unsupported type |
| WantedInstances.FetchesWanted | snmp_exporter/generator/tree.go:731-774 | an instance is fetched if and only if a walked OID asks for it (the subtree of a node, .0 of a scalar, or the OID itself), or it is in a column that a lookup of a metric reads or that types its address, at an instance saved for the metric if there are any |
| ScalarModule.ScalarCompiles | snmp_exporter/generator/tree.go:731-774 | the definition of a finished module is met: an entry that names a scalar node gives one metric without indexes and one Get of its instance .0 |
| Generator.SortMetricNodes | snmp_exporter/generator/tree.go:846-855 | the metric nodes, each once, sorted by OID |
| Generator.Generation.ProcessWalkOids | snmp_exporter/generator/tree.go:793-806 | fails exactly when an entry begins with a dot, and names it; else the minimised resolved entries |
| Generator.Generation.FindAndProcessMetricNodes | snmp_exporter/generator/tree.go:809-830 | fails exactly when an entry is not found, and names it; else the metric nodes, the keys of all entries and the saved instance suffixes |
| Generator.Generation.ProcessSingleMetric | snmp_exporter/generator/tree.go:858-925 | appends the metrics of the subtree in walk order, or panics if an index list in it cannot be sliced; what each metric says of its node is MetricFields.MetricsListed |
| Generator.Generation.ProcessAllMetrics | snmp_exporter/generator/tree.go:833-843 | the same for all metric nodes |
| Generator.Generation.ProcessLookup | snmp_exporter/generator/tree.go:939-972 | a lookup with a missing index changes nothing; an applied one adds its label, its index and its keys; otherwise it fails on an unknown name or type |
| Generator.Generation.ProcessLookupsAndFilters | snmp_exporter/generator/tree.go:928-980 | every metric ends with its lookups and sanitised index labels, which ShownLookups.FinishedLookups gives over the configuration, and the fetch set grows by their columns, at the saved instances if there are any; an error is that of an applicable lookup |
| Generator.Generation.CheckSpecialTypes | snmp_exporter/generator/tree.go:1095-1122 | addresses without a type before them become octet strings and no other type changes (AddressTypes.FinishedType), and the types of the others are added to the fetch set |
| Generator.Generation.Generate | snmp_exporter/generator/tree.go:731-774 | a successful run leaves a compiled module, in which nothing is requested twice and every metric is fetched with all it needs, and occurs once, under the conditions named above; each error says what went wrong, a panic names a node whose list breaks |
| GenerateModule.ApplyTypeOverrides | snmp_exporter/generator/tree.go:777-790 | each node takes the type of one of its overrides, in whatever order they come, or keeps its own |
| GenerateModule.OverrideTypes | snmp_exporter/generator/tree.go:777-790 | on the tree's value: nothing but types changes, and each type is as before or that of an override of the node |
| GenerateModule.TableOfValues | snmp_exporter/generator/tree.go:151-158 | the node table, read as values, is the name table of the tree's value |
| GenerateModule.SameNumbering | snmp_exporter/generator/tree.go:777-790 | type overrides change neither the numbering nor the names |
| GenerateModule.GenerateConfigModule | snmp_exporter/generator/tree.go:731-774 | from the node objects and their table: overrides, then a compiled module or an error with its cause |
| Pipeline.CompileFrom | snmp_exporter/generator/net_snmp.go:335-341 | from any numbered and labelled parse tree: the built tree stays as it was, and the module is one generated for the prepared tree with the overrides' types |
| Pipeline.BuiltIsReady | snmp_exporter/generator/net_snmp.go:235-332 | the built tree and its prepared copy meet what preparing and generating rely on |
| FileRotation.FileRotator.Write | bind_exporter/pkg/logger/filerotator.go:39-56 | one Write is one step of the log, the size counter is the length of the base file, and with two files to keep or more the disk is as in FileRotation.WriteExactly |
| FileRotation.WriteExactly | bind_exporter/pkg/logger/filerotator.go:39-93 | within the limits a Write extends the base file and leaves every other file; beyond the size or the age the base file is exactly what is written and each file has moved up by one; the age counts from the time stamp of an opened file, and from the clock for a created or rotated one |
| FileRotation.FileRotator.SetupCurrentFile | bind_exporter/pkg/logger/filerotator.go:58-79 | opens or creates the base file and takes over its length |
| FileRotation.FileRotator.RotateFiles | bind_exporter/pkg/logger/filerotator.go:95-130 | the descending loop, the rename and the create are the rotation of the files |
| FileRotation.RotateIsExactShift | bind_exporter/pkg/logger/filerotator.go:95-130 | whatever gaps there are, file i moves to i+1, the last is dropped, the base is empty, other files are untouched |
| FileRotation.ShiftStepMoves | bind_exporter/pkg/logger/filerotator.go:103-118 | every rename of the loop goes to a free name and moves one file |
| FileRotation.BaseMoves | bind_exporter/pkg/logger/filerotator.go:119-122 | so does the rename of the base file |
| FileRotation.SingleFileClobbers | bind_exporter/pkg/logger/filerotator.go:103-122 | with one file to keep, which the constructor's constant of five never gives, the base file replaces the first backup |
| FileRotation.RotationLosesAtMostOldest | bind_exporter/pkg/logger/filerotator.go:95-130 | after every single step of a rotation at most the oldest file is lost |
| FileRotation.RotateRetains | bind_exporter/pkg/logger/filerotator.go:95-130 | a whole rotation keeps everything but the oldest file, in order |
| FileRotation.LogConservation | bind_exporter/pkg/logger/filerotator.go:39-79 | over any run: initial contents and all writes are the dropped files, each whole, followed by what is on disk from oldest backup to base |
| FileRotation.CreatedFilesBounded | bind_exporter/pkg/logger/filerotator.go:39-93 | every file created in a run holds at most the size limit and one longest write |
| FileRotation.OtherFilesUntouched | bind_exporter/pkg/logger/filerotator.go:39-134 | a run touches no file outside the log |
| FileRotation.DropsNothingExactly | bind_exporter/pkg/logger/filerotator.go:39-93 | no Write of a run rotates if and only if the base file with what is written before never exceeds the size limit and none comes later than the age limit; such a run makes no backup and only extends the base file |
| FileRotation.LogPathInjective | bind_exporter/pkg/logger/filerotator.go:132-134 | different numbers give different paths |
| FileRotation.LogPathExactly | bind_exporter/pkg/logger/filerotator.go:132-134 | the path of a backup is that of the base file, a dot and the decimal of its number |
| Scrape.ExportHist | bpftrace_exporter/pkg/exporter/exporter.go:149-167 | the loop computes the running sums in uint64 arithmetic |
| Scrape.HistogramIsCumulative | bpftrace_exporter/pkg/exporter/exporter.go:149-167 | for sorted buckets whose total fits, each bound maps to the counts of all buckets up to it, monotonically, and the count is the total |
| Scrape.BucketsModulo | bpftrace_exporter/pkg/exporter/exporter.go:155-165 | without the bound on the total, the same modulo 2^64 |
| Scrape.CumulativeExactly | bpftrace_exporter/pkg/exporter/exporter.go:155-165 | if the total fits, the export is cumulative at every bound if and only if of two buckets out of order the first is empty, and the second too unless a later bucket has the first one's bound |
| Scrape.SortedExactly | bpftrace_exporter/pkg/exporter/exporter.go:155-165 | without empty buckets, if and only if the buckets are sorted |
| Scrape.ExportVar | bpftrace_exporter/pkg/exporter/exporter.go:178-193 | a scalar's sample, or one for each key of a map, in any order |
| Scrape.Exporter.HandleLine | bpftrace_exporter/pkg/exporter/exporter.go:205-235 | a line ends a scrape if and only if it cannot be read; it hands over the values it has of declared variables, and sends their samples |
| Scrape.Exporter.Scrape | bpftrace_exporter/pkg/exporter/exporter.go:195-236 | the loop stops where the countdown says, stated over the lines, and sends exactly the samples of the lines it read |
| Scrape.SamplesExactly | bpftrace_exporter/pkg/exporter/exporter.go:138-193 | a sample is sent if and only if it is the number of probes, or a line read has a value of a declared variable that decodes as declared: the number itself, or the histogram of it, with the declaration's counter flag, without labels for a scalar, and with its key as label for each field of a map |
| Scrape.HistExactly | bpftrace_exporter/pkg/exporter/exporter.go:155-165 | a histogram is sent with its total and, at each bound, the total up to the last bucket that has it, both modulo 2^64 |
| Scrape.SortedSent | bpftrace_exporter/pkg/exporter/exporter.go:149-167 | for sorted buckets whose total fits, what is sent counts at each bound all buckets up to it |
| Scrape.StopExactly | bpftrace_exporter/pkg/exporter/exporter.go:204-229 | a scrape reads on until the values declared in the lines fill the countdown, or to a line that cannot be read, or to the end of the stream, and no further |
| Scrape.FramedExactly | bpftrace_exporter/pkg/exporter/exporter.go:195-236 | a scrape handles exactly the declared values of the dump it starts with, whatever follows, if and only if some first lines of the dump end the countdown or cannot be read, and the others have no declared value |
| Scrape.StopAfter | bpftrace_exporter/pkg/exporter/exporter.go:204-229 | from any place and for any countdown, lines that fill it are where the scrape stops, and not before |
| Scrape.ScrapesFollowDumps | bpftrace_exporter/pkg/exporter/exporter.go:195-236 | in a stream of such dumps, of which what is left over can be read, the k-th scrape handles exactly the declared values of dump k, and leaves only lines without any |
| Scrape.CompleteIsFramed | bpftrace_exporter/pkg/exporter/exporter.go:204 | a readable dump with as many declared values as the countdown is such a dump |
| Scrape.OnceEachIsComplete | bpftrace_exporter/pkg/exporter/exporter.go:204 | a dump that names every declared variable once has as many values as the countdown |
| Scrape.ShortBlockRunsOn | bpftrace_exporter/pkg/exporter/exporter.go:204 | a dump that lacks a value makes the scrape run on into the next one |
| RateLimit.TokensConserved | bind_exporter/pkg/ratelimit/ratelimit.go:20-81 | in every interleaving tokens stay within the channel, and initial tokens plus refills are held tokens plus those taken |
| RateLimit.RateBound | bind_exporter/pkg/ratelimit/ratelimit.go:41-61 | any window of any run admits at most the channel size plus the ticks in the window |
| RateLimit.AdmittedFrom | bind_exporter/pkg/ratelimit/ratelimit.go:41-61 | more exactly, the tokens held at its start plus its ticks |
| RateLimit.TicksFill | bind_exporter/pkg/ratelimit/ratelimit.go:41-48 | each tick adds one token until the channel is full |
| RateLimit.GetsDrain | bind_exporter/pkg/ratelimit/ratelimit.go:50-61 | requests in a row are admitted as long as there are tokens, and each takes one, whether the channel is closed or not |
| RateLimit.DrainEnds | bind_exporter/pkg/ratelimit/ratelimit.go:70-81 | after the close as many drain steps as tokens empty the channel in every interleaving |
| RateLimit.StopIsFinal | bind_exporter/pkg/ratelimit/ratelimit.go:63-81 | after a Stop amid any traffic no request is ever granted |
| RateLimit.StoppedStaysEmpty | bind_exporter/pkg/ratelimit/ratelimit.go:50-61 | a closed and empty channel grants nothing |
| RateLimit.PanicsExactly | bind_exporter/pkg/ratelimit/ratelimit.go:41-68 | a run panics if and only if a tick or another close is delivered after the close |
| RateLimit.RateLimiter.TryGet | bind_exporter/pkg/ratelimit/ratelimit.go:50-61 | takes a token if there is one, closed or not, and reports the rate limit otherwise |
| RateLimit.RateLimiter.Refresh | bind_exporter/pkg/ratelimit/ratelimit.go:41-48 | one tick adds a token unless the channel is full |
| RateLimit.RateLimiter.Stop | bind_exporter/pkg/ratelimit/ratelimit.go:63-68 | leaves the channel closed and empty |
| RateLimit.ClearChannel | bind_exporter/pkg/ratelimit/ratelimit.go:70-81 | the loop ends and drains exactly the tokens that were there |
| RateLimit.NewRateLimiter | bind_exporter/pkg/ratelimit/ratelimit.go:20-39 | rejects a size or interval that is not positive, size first, and else starts with a full channel |

## Left out

- Generator.Generation.ProcessLookupsAndFilters: does not model static filters (buildFilterMap, applyFilterToMetric), because the live generator applies only half of what its commented-out predecessor did; dynamic filters are copied through by the source and have no effect on it.
- applyModuleOverrides: it renames and rescales metrics in map order after everything modelled here; only the overrides' `ignore` and `type` are modelled.
- Descriptions, help texts, module names and units of nodes and metrics, and log messages.
- YAML and the command line of the generator, and regular expressions other than the one that sanitises labels and the one for display hints.
- The generator's main program: `snmp_exporter/generator/main.go` has no code at this commit, so the stages are joined in the order in which `tree_test.go:2029-2031` and the comment on Copy use them.
- The C library: its parse tree is an input (`BuildTree.CTree`), with lists as sequences and a missing child list as an empty one.
- Nodes.Node.Copy: enumeration tables are values here, so that the copy's table is a different map object is not captured; nor is that index slices may share an array, which nothing assigns to.
- PrepareNodes.BuildNameToNodeMap: an entry is fixed by the OID of its node, which in a numbered tree is one node.
- WalkPlan.EntryPlanned: walk entries below the root that are neither a name nor dotted-decimal, such as `1.3.x`, are not covered; the source searches the tree for them like for any other.
- Nodes.Node: fields that are never assigned after a node is built are constants, and a node is built after its children rather than before.
- Generator.Generation: it reads the tree and the name table as the overrides leave them, as values, because no step after the overrides assigns to a node; the fetch set is a set and the metrics are values that the steps replace.
- Generator.SortMetricNodes: the library sort is modelled as some sorted permutation; the order of nodes with equal keys cannot matter as OIDs are distinct.
- Map iteration (lookups of index nodes, overrides, fetch set, variable data) is modelled as an arbitrary choice of the next key.
- Oids.Atoi: signs are not modelled, as the last part of an OID never has one.
- Lookups.GetIndexNode: the choice among several matching nodes is left open, as in the source.
- FileRotation.FileRotator: errors of the file system, Close, permissions and the directory are not modelled, and sizes do not overflow; what the clock and the time stamp say during a Write are inputs of that Write.
- FileRotation.FileRotator.RotateFiles: requires at least one file to keep, and the theorems on whole runs at least two, as the constructor's fixed number provides.
- Scrape.Exporter.Scrape: lines come decoded, with the type the decoder reports for them; the signal that asks for a dump always arrives, and the lock that orders scrapes is not modelled. Every variable name carries its sigil, without which the source would panic.
- Scrape.ExportHist: bucket bounds are reals, so infinities and rounding are not modelled; nor is the sum, which the source always sends as -1.
- parseVarDefs, the process handling of bpftrace, and the descriptions of its metrics.
- RateLimit.RateLimiter: the ticker is the sequence of its delivered ticks; the run functions interleave the steps of all goroutines, the methods are those steps one at a time. Real time and the capacity of the ticker's own channel are not modelled.
- All other exporters of the repository: field tables, configuration, HTTP servers and registries.
