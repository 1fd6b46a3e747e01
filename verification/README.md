# A verified model of libdm

libdm is the userspace library of the device-mapper. This project models the parts of
it that carry the most intricate logic and proves, in Dafny, what they promise:

* **Dependency tree** (`DepTree`, `DepTreeDiscovery`, `DepTreeSuspend`): the mirrored
  lists of parents and children with a root that stands in for a missing one, the
  recursive discovery, suspending parents before children without a visited set, and
  activating children before parents.
* **Thin-pool transactions** (`ThinPool`): the queued messages of a pool and their
  delivery, interrupted at any point and repeated.
* **Table lines** (`PopCount`, `TableLines`, `FeatureLines`, `LineReading`): lines that
  announce a number of arguments before printing them, the word-parallel bit count they
  use, and a reader that finds every setting again in the words.
* **Configuration language** (`ConfigTree`, `ConfigLexer`, `ConfigParser`,
  `ConfigWriter`, `ConfigTokens`, `ConfigRoundTrip`, `ConfigForms`, `ConfigLinks`,
  `ConfigCascade`): tokenizer, recursive-descent parser, printer, comments and other texts
  that the printer does not write, the reversal in place, cascaded lookup and flattening.
* **Statistics** (`StatsTable`, `StatsWalk`, `StatsGroupTag`, `BitsetList`,
  `StatsDescriptor`, `StatsExtents`): the two-pass table builder, the cursor that walks
  areas, regions and groups, the range list of a group descriptor with its length
  prediction and its parser, the descriptor as a whole, and the joining of file extents.
* **Node operations, udev cookies, name mangling** (`NodeOps`, `UdevCookie`,
  `NameMangling`).
* **Reports** (`ReportSelection`, `JsonGroup`): selection expressions and JSON groups.
* **LVM names and quoting** (`StringQuoting`, `LvmName`).

Loops and objects of the source are methods and classes here, proved against
functions; the main theorems are about those functions, for all inputs, runs and
reachable states. The kernel, udev and the file system are small abstract states.
Memory allocation does not fail. Strings are sequences of characters; a C string in a
buffer is `CStrings.Holds`.

Several promises hold only under a condition. In these statements the condition is
proved to be exact, in both directions: `LvmName.SplitUndoesBuild`,
`ConfigTokens.KeySurvives`, `ConfigCascade.FlattenedLookupIsExact`,
`DepTreeDiscovery.AddDevices`, `ThinPool.CrashSafeIff`, `TableLines.RaidCountIsExact`,
`TableLines.LogCountIsExact`, `FeatureLines.PolicyCountIsExact`,
`StatsWalk.ReportsAreExact`, `StatsDescriptor.DescriptorSurvives`,
`StatsExtents.BatchesDoNotMatter`, `NodeOps.StackedIsExact`, `UdevCookie.TimelyIsExact`,
`NameMangling.AutoIsIdempotent`, `ReportSelection.OnlyExpressions`,
`ReportSelection.ChainIsExact`,
`JsonGroup.UnnamedOnlyInArray`, `JsonGroup.PushedOntoOutput` and
`JsonGroup.PoppedWithoutOutput`. `ConfigRoundTrip.ParseUndoesWrite` is exact in the depth
only: that keys and values are ones the printer can write is assumed there, and
`ConfigTokens.KeySurvives` says exactly when that holds of a key.

Some results that a reader of the source may not expect:

* `ThinPool.NotCrashSafe`: a transaction with a snapshot whose origin or whose own
  creation it cannot repeat can be interrupted so that no later run completes it.
* `ReportSelection.DoubleNegationIsWrong`: the modifier is set, not toggled, so
  `!(!(x))` is read as `!(x)` (libdm/libdm-report.c:4260).
* `NodeOps.RenamesDiffer`: a queued rename and the request that cancels it can leave
  another directory than carrying both out; `NodeOps.StackedIsExact` says when.
* `StatsExtents.BatchesDoNotMatter`: a first batch that is a single extent at logical
  offset 0 adds a record too many (libdm/libdm-stats.c:4677).
* `StatsDescriptor.MissingAlias`: a group without an alias comes back with its member
  list as its alias (libdm/libdm-stats.c:768-778).
* `UdevCookie.LateTaskIsLost`: a task that is counted in after the waiter has seen zero
  can be outstanding when the wait returns, and then its completion fails.
* `JsonGroup.PoppedWithoutOutput`: a report that is popped without having been output
  counts as a finished sibling, so that a first report may start with a comma.
* `StatsWalk.ReportsAreExact`: an area number of 2^49 or more can be taken for the marker
  of a whole region.
* `ConfigCascade.SectionDoesNotHide`: in a flattened cascade a section does not hide a
  value that a later layer has at its path.

`dafny verify dfyconfig.toml` checks the whole project.

## Model

| member | source | states |
|---|---|---|
| StringQuoting.UnquoteUndoesQuote | libdm/libdm-string.c:246-290 | Removing the quoting of one character restores every string, for any pair of characters, when the quote character is quoted as well. |
| StringQuoting.OtherQuotesStay | libdm/libdm-string.c:259-290 | A quote character in front of anything but the two special characters stays where it is. |
| StringQuoting.QuoteLength | libdm/libdm-string.c:246-257 | A quoted string is longer than the original by the number of characters that were quoted. |
| StringQuoting.CountChars | libdm/libdm-string.c:201-214 | The scan returns the length and how often either character occurs. |
| StringQuoting.EscapedLen | libdm/libdm-string.c:232-240 | The result is exactly the room that the escaped string and its terminator take. |
| StringQuoting.QuoteCharacters | libdm/libdm-string.c:246-257 | The buffer gets the quoted text at the given place and keeps everything around it; the returned position is just behind the text. |
| StringQuoting.FindQuoted | libdm/libdm-string.c:259-290 | The first quoted character is found without touching the buffer; in front of it text and result agree. |
| StringQuoting.UnquoteOneCharacter | libdm/libdm-string.c:259-290 | In place, the string becomes its unquoted form and nothing outside the string changes; no unread character is overwritten. |
| StringQuoting.UnquoteTail | libdm/libdm-string.c:259-290 | From the first quoted character on, the write position stays behind the read position and the rest is unquoted. |
| LvmName.SplitUndoesBuild | libdm/libdm-string.c:69-113 | Splitting a built name gives back group, volume and layer exactly if the volume is not empty, does not start with a hyphen, and the layer starts with neither hyphen nor underscore. |
| LvmName.SplitLv | libdm/libdm-string.c:69-93 | The volume and layer parts alone come apart exactly if the layer starts with neither hyphen nor underscore. |
| LvmName.UnquotedBehind | libdm/libdm-string.c:69-93 | A component with doubled hyphens is consumed whole, whatever follows it. |
| LvmName.BuildDmName | libdm/libdm-string.c:325-370 | The allocated room is exact, except for one byte when the layer is glued with an underscore, and the buffer holds the built name. |
| LvmName.CompactComponent | libdm/libdm-string.c:69-93 | Compacting stops at the separator or the end and never overtakes what is still to be read. |
| LvmName.UnquoteComponent | libdm/libdm-string.c:69-93 | The component replaces its quoted form in place, the rest of the name stays where it is, and the returned position is where the rest starts. |
| LvmName.UnquoteBehind | libdm/libdm-string.c:69-93 | Unquoting a later component leaves an earlier one in the same buffer intact. |
| LvmName.SplitLvmName | libdm/libdm-string.c:95-113 | After the three nested calls the one buffer holds group, volume and layer as C strings at the returned places. |
| ConfigTree.ComponentsOfJoin | libdm/libdm-config.c:563-614 | Taking a path apart that was joined from slash-free keys gives the keys back. |
| ConfigTree.FindKey | libdm/libdm-config.c:582-597 | The first sibling with the key is found, or it is certain that there is none. |
| ConfigLexer.EatSpace | libdm/libdm-config.c:958-979 | The position advances over spaces and comments, in any mixture, to the next token. |
| ConfigLexer.ScanSpaces | libdm/libdm-config.c:969-975 | A run of spaces is skipped completely. |
| ConfigLexer.ScanComment | libdm/libdm-config.c:961-967 | A comment ends at the end of its line or of the text. |
| ConfigLexer.ScanEscaped | libdm/libdm-config.c:890-901 | A double-quoted string ends at the first quote that no backslash protects. |
| ConfigLexer.ScanSingle | libdm/libdm-config.c:903-910 | A single-quoted string ends at the next single quote. |
| ConfigLexer.ScanIdentifier | libdm/libdm-config.c:943-952 | An identifier runs to the first character that ends one. |
| ConfigLexer.ScanNumber | libdm/libdm-config.c:912-940 | A number runs over its digits and is a float exactly if it holds a point. |
| ConfigLexer.ScanToken | libdm/libdm-config.c:844-956 | The switch on the first character finds kind and end of the token that the functional lexer gives. |
| ConfigWriter.WriteItemsLoop | libdm/libdm-config.c:415-424 | The elements of an array are appended with their separators. |
| ConfigWriter.WriteValuesOf | libdm/libdm-config.c:411-433 | A single value or a bracketed array is appended as its format flags ask. |
| ConfigWriter.WriteBodyOf | libdm/libdm-config.c:401-433 | A section is appended with its children one level deeper, a leaf with its values. |
| ConfigWriter.WriteConfig | libdm/libdm-config.c:364-444 | All siblings, or only the first on request, are appended to the output and nothing before them changes. |
| ConfigParser.Parser.GetToken | libdm/libdm-config.c:844-956 | The parser's positions move to the next token of the text behind the current one. |
| ConfigParser.Parser.Match | libdm/libdm-config.c:832-839 | A matching token is consumed; otherwise the parser does not move. |
| ConfigParser.Parser.Type | libdm/libdm-config.c:746-830 | One value is read with the limits of 64-bit integers, or the production fails. |
| ConfigParser.Parser.Items | libdm/libdm-config.c:713-725 | Array elements are read up to the closing bracket. |
| ConfigParser.Parser.Value | libdm/libdm-config.c:707-744 | An array, which may be empty, or a single value is read. |
| ConfigParser.Parser.Section | libdm/libdm-config.c:616-705 | A key with its section or values is merged into the siblings; the nesting depth is restored. |
| ConfigParser.Parser.Sections | libdm/libdm-config.c:671-676 | The nodes of a section are merged one after another. |
| ConfigParser.Parser.File | libdm/libdm-config.c:527-543 | A whole file is read to its end or refused. |
| ConfigParser.ConfigParse | libdm/libdm-config.c:184-217 | Parsing a text gives the reversed list of its nodes, or fails for a malformed or empty text. |
| ConfigTokens.QuotedToken | libdm/libdm-config.c:890-901 | A string printed in double quotes is one token, whatever follows, and unescapes to itself. |
| ConfigTokens.IntegerRoundTrip | libdm/libdm-config.c:328-362 | A printed integer, decimal or octal, is one token and converts back to the same number. |
| ConfigTokens.KeyRoundTrip | libdm/libdm-config.c:388-400 | A printed key is read back as itself. |
| ConfigTokens.KeySurvives | libdm/libdm-config.c:388-400 | A key survives printing and reading exactly if the printer quotes it or it lexes as a bare key. |
| ConfigTokens.CommentSkipped | libdm/libdm-config.c:958-979 | A comment ends with its line: the next token is the one behind the newline, whatever the comment says. |
| ConfigTokens.GapSkipped | libdm/libdm-config.c:958-979 | White space and comments, in any number and order, do not change the next token. |
| ConfigRoundTrip.TypeRoundTrip | libdm/libdm-config.c:746-830 | A printed value is parsed as the same value without its format flags. |
| ConfigRoundTrip.ValuesRoundTrip | libdm/libdm-config.c:707-744 | The printed values of a node, single, array or empty array, are parsed as the same list. |
| ConfigRoundTrip.BodyRoundTrip | libdm/libdm-config.c:616-705 | The printed body of a node, with remarks inside, is parsed back, unless it is nested too deeply. |
| ConfigRoundTrip.NodeRoundTrip | libdm/libdm-config.c:616-705 | A printed node, with white space and comments in front of it and a comment behind it, is parsed and put in front of its earlier siblings. |
| ConfigRoundTrip.ForestRoundTrip | libdm/libdm-config.c:616-705 | Printed siblings with any remarks are parsed as the same siblings in reverse, with everything below reversed too. |
| ConfigRoundTrip.ReverseTwice | libdm/libdm-config.c:169-182 | Reversing twice gives the tree back, at every level. |
| ConfigRoundTrip.ParseUndoesWrite | libdm/libdm-config.c:184-207 | Printing any non-empty printable tree and parsing the text gives the same tree in the same order, with or without the duplicate check, exactly if it is at most 128 levels deep; a deeper one is refused. |
| ConfigRoundTrip.RemarksDoNotMatter | libdm/libdm-config.c:184-207 | The same holds of the text with any white space and comments in front of nodes and closing braces at every level, comments at the ends of lines, and anything of the kind at the end of the file. |
| ConfigRoundTrip.CommentedText | libdm/libdm-config.c:958-979 | Comments at any level leave the result of parsing a printed text unchanged. |
| ConfigForms.SingleQuotesAreVerbatim | libdm/libdm-config.c:790-798 | A string in single quotes is taken as it is, as a value and, unless it is empty, as a key. |
| ConfigForms.BareWord | libdm/libdm-config.c:800-805 | A word without quotes is a string up to white space, a comment, an equals sign or a brace. |
| ConfigForms.UnquotedString | libdm/libdm-config.c:328-360 | A string that is printed without quotes is read back if it is such a word. |
| ConfigForms.HexConverts | libdm/libdm-config.c:755-762 | The conversion reads hexadecimal digits behind 0x. |
| ConfigForms.HexIsRefused | libdm/libdm-config.c:755-775 | A hexadecimal value is refused all the same, because the tokenizer takes only its zero for the number. |
| ConfigForms.OutOfRange | libdm/libdm-config.c:755-775 | An integer outside 64 bits is refused, except that a creation time gets the value 1527120000. |
| ConfigForms.PlusSign | libdm/libdm-config.c:755-775 | A plus sign in front of a number is read. |
| ConfigForms.PointToken | libdm/libdm-config.c:912-940 | Digits with one point are one float token, and a second point ends it. |
| ConfigForms.TrailingComma | libdm/libdm-config.c:707-744 | A comma may stand behind the last element of an array. |
| ConfigForms.SlashSeparates | libdm/libdm-config.c:563-614 | One slash or several separate the keys of a path. |
| ConfigForms.SameKeyTwice | libdm/libdm-config.c:563-614 | A key that comes twice: the later values replace the earlier ones, or, without the duplicate check, there are two nodes. |
| ConfigForms.PathKeyMakesSection | libdm/libdm-config.c:616-705 | A key with a slash makes a section with the node inside. |
| ConfigForms.EmptyFile | libdm/libdm-config.c:184-207 | A file of white space and comments is refused. |
| ConfigForms.LoneQuote | libdm/libdm-config.c:790-815 | A quote that begins a string at the end of the text is no value. |
| ConfigForms.OnlyBodies | libdm/libdm-config.c:616-705 | Behind a key any token but an equals sign or an opening brace is an error, and so is the end of the text inside a section. |
| ConfigForms.Layout | libdm/libdm-config.c:384-444 | A node is printed on a line of its own behind one tab for each level, up to 32, with spaces round the equals sign if asked for. |
| ConfigLinks.Reverse | libdm/libdm-config.c:169-182 | Following the pointers after the in-place reversal gives the siblings of every level in the opposite order; only the nodes of the tree are touched. |
| ConfigLinks.TurnOne | libdm/libdm-config.c:173-179 | One node is moved in front of those reversed already while its children are reversed, without disturbing either list. |
| ConfigLinks.TurnedTree | libdm/libdm-config.c:169-182 | The pointer structure turned round holds the tree that the functional reversal gives. |
| ConfigCascade.Tree.OverridePath | libdm/libdm-config.c:1545-1562 | The node at a path is found or made and gets the values if there are any: at every other path the tree keeps its values, and only missing prefixes of the path appear. |
| ConfigCascade.EnumerateInto | libdm/libdm-config.c:1564-1583 | Every leaf of a layer is handed on with its path, in order. |
| ConfigCascade.Flatten | libdm/libdm-config.c:1585-1602 | The layers are enumerated from the last of the cascade to the first. |
| ConfigCascade.MakeValues | libdm/libdm-config.c:563-614 | Making a node adds the missing prefixes of its path, without values, and changes no value. |
| ConfigCascade.PutValues | libdm/libdm-config.c:1545-1562 | Putting values at a node changes what its own path finds and nothing else. |
| ConfigCascade.LeavesAreLookups | libdm/libdm-config.c:1564-1583 | What is enumerated are exactly the leaves that lookup finds. |
| ConfigCascade.PathsLeadToLeaves | libdm/libdm-config.c:1564-1583 | A path exists in a layer exactly if it leads to or towards an enumerated leaf. |
| ConfigCascade.LayerValues | libdm/libdm-config.c:1564-1583 | What one more layer leaves at every path: its own leaf with values, else what was there, else an empty node where the layer has the path. |
| ConfigCascade.FlattenedValues | libdm/libdm-config.c:1585-1602 | A path exists in the flattened tree exactly if some layer has it, and holds the values of the first layer that has a leaf with values there. |
| ConfigCascade.FlattenPreservesLookup | libdm/libdm-config.c:1061-1078 | Looking a path up in the flattened tree agrees with the cascaded lookup: the same paths exist, and a leaf with values in the first layer that has the path is what is found. |
| ConfigCascade.FlattenedLookupIsExact | libdm/libdm-config.c:1061-1078 | For every path that exists, exactly when both lookups give the same values: the first node found is a leaf with values; or it has none, and no layer has a leaf with values there; or it is a section with values, and the first leaf with values there has the same. |
| ConfigCascade.SectionDoesNotHide | libdm/libdm-config.c:1585-1602 | One such cascade: a section in the first layer does not hide the value of a later one. |
| DepTree.LinkTreeEffect | libdm/libdm-deptree.c:525-541 | Linking two nodes keeps the lists mirrored and free of duplicates, changes only the lists of parent, child and root, and root gives way to a real parent and a real child. |
| DepTree.ChangedWF | libdm/libdm-deptree.c:454-503 | Adding or removing one link in both lists keeps them mirror images. |
| DepTreeDiscovery.DmTree.NodesAreLinked | libdm/libdm-deptree.c:442-452 | The loop decides membership in the list of children. |
| DepTreeDiscovery.DmTree.LinkNodes | libdm/libdm-deptree.c:454-482 | Both lists get the link once, at their ends. |
| DepTreeDiscovery.DmTree.UnlinkNodes | libdm/libdm-deptree.c:484-503 | Both lists lose the link, if it was there. |
| DepTreeDiscovery.DmTree.LinkTreeNodes | libdm/libdm-deptree.c:525-541 | The links after the call are those of the tree rule for root. |
| DepTreeDiscovery.DmTree.AddDev | libdm/libdm-deptree.c:1243-1308 | A successful call adds exactly what is reachable from the device, keeps the invariant of the tree and terminates; a failed one means that something reachable is missing. |
| DepTreeDiscovery.DmTree.AddDeps | libdm/libdm-deptree.c:1291-1301 | Adding the dependencies of a new node one by one closes the node. |
| DepTreeDiscovery.AddDevices | libdm/libdm-deptree.c:1310-1319 | Any sequence of additions succeeds exactly if nothing reachable is missing; then the tree holds exactly the devices reachable from those added, its lists mirror each other without duplicates, and root is a parent or child exactly where there is no other. |
| DepTreeDiscovery.TreeIsClosed | libdm/libdm-deptree.c:1243-1308 | A finished tree holds everything reachable from its devices. |
| DepTreeSuspend.LiveTree.ParentsSuspended | libdm/libdm-deptree.c:763-805 | The check is true exactly if every matching parent is suspended. |
| DepTreeSuspend.LiveTree.SuspendChild | libdm/libdm-deptree.c:1940-2002 | A child is suspended at most once, and only when its matching parents are. |
| DepTreeSuspend.LiveTree.SuspendLevel | libdm/libdm-deptree.c:1939-2002 | After the first loop no child of the node waits for something suspended before. |
| DepTreeSuspend.LiveTree.SuspendChildren | libdm/libdm-deptree.c:1927-2026 | Afterwards no child of the node waits, nor any child of a device suspended on the way. |
| DepTreeSuspend.SuspendAll | libdm/libdm-deptree.c:1927-2026 | From the root exactly those devices are suspended that match, exist, can be seen and have only suspended matching parents: each once, after its parents, counted once; with every device matching and present, none is missed. |
| DepTreeSuspend.ClosedIsSettled | libdm/libdm-deptree.c:1927-2026 | A topologically ordered trace that leaves nothing waiting is the exact outcome. |
| DepTreeSuspend.EveryDevice | libdm/libdm-deptree.c:1927-2026 | A matching, present device is not missed, at whatever depths its parents sit. |
| DepTreeSuspend.LiveTree.ResumeChild | libdm/libdm-deptree.c:2177-2219 | A matching child that waits is resumed, after everything it uses. |
| DepTreeSuspend.LiveTree.DecSuspended | libdm/libdm-common.c:343-352 | The global counter goes down by one but never below zero. |
| DepTreeSuspend.LiveTree.ActivateLevel | libdm/libdm-deptree.c:2166-2240 | Exactly the matching children of one priority that were waiting are resumed, in the order of the list, and the result is 0 exactly if no child has a higher priority. |
| DepTreeSuspend.LiveTree.ActivateChildren | libdm/libdm-deptree.c:2137-2244 | Nothing below the node waits any more, and each device was resumed after what it uses; the children of the node itself come last, by rising priority and for each priority in the order of the list. |
| DepTreeSuspend.LiveTree.ActivateLevels | libdm/libdm-deptree.c:2166-2244 | The loop over the priorities resumes the levels 0, 1 and 2 one after the other and stops early only when no level is left. |
| DepTreeSuspend.LevelsRise | libdm/libdm-deptree.c:2166-2175 | Levels in this order have priorities that never fall. |
| DepTreeSuspend.RankedOn | libdm/libdm-deptree.c:2166-2175 | Resuming the children of a node in one go keeps the order of priorities among devices with the same only parent. |
| DepTreeSuspend.TopIsRanked | libdm/libdm-deptree.c:2166-2175 | The devices that hang from the root are resumed by rising priority. |
| DepTreeSuspend.LiveTree.ActivateAll | libdm/libdm-deptree.c:2137-2244 | Activating after a complete suspend leaves nothing suspended and brings the counter back; of the suspended devices and those with an inactive table it resumes exactly those below the root through matching devices, among them all that were suspended; of two devices with the same only parent the one with the lower priority comes first. |
| DepTreeSuspend.SuspendThenActivate | libdm/libdm-deptree.c:1927-2244 | Suspend and activate from the root restore the counter, leave nothing suspended, and resume exactly the devices that were suspended or have an inactive table and are below the root, each once, after everything it uses, and by rising priority among devices with the same only parent. |
| DepTreeSuspend.DiscoveredTree | libdm/libdm-deptree.c:1310-1319 | Every tree that discovery builds from an acyclic dependency relation qualifies for these results. |
| ThinPool.PoolNode.AddMessage | libdm/libdm-deptree.c:4345-4408 | A message is accepted exactly if its ids, cut to 32 bits, are in range, a snapshot differs from its origin, and a transaction id is the one of the segment and the successor of the old one; it is then queued at the end with the cut ids, and otherwise nothing changes. |
| ThinPool.SendMessages | libdm/libdm-deptree.c:1661-1720 | A pool out of step with the segment, or one behind and not usable, gets an error and no message; equal ids, or one behind with nothing to send, succeed without a message; otherwise the messages are sent in order. The run is killed exactly if it gets as far as the message at which the process dies, and then has the effect of the messages before. |
| ThinPool.SendLoop | libdm/libdm-deptree.c:1701-1715 | Messages are delivered in order until one fails; the loop is killed exactly if all messages in front of the given number succeed and there are more. |
| ThinPool.PoolDevice.Message | libdm/libdm-deptree.c:1573-1648 | When the pool refuses a message, with expected errors counted as success, and what a message that it takes changes. |
| ThinPool.DevicesAfter | libdm/libdm-deptree.c:1573-1648 | After messages that succeed, exactly those devices exist whose last message made them. |
| ThinPool.Rerun | libdm/libdm-deptree.c:1661-1720 | Sending the list again after any interruption ends where the first complete run would have. |
| ThinPool.CrashSafe | libdm/libdm-deptree.c:1661-1720 | After any number of interrupted runs a complete one leaves the same devices as a single run, raises the id by exactly one, and later runs send nothing. |
| ThinPool.WithoutSnapshots | libdm/libdm-deptree.c:1573-1648 | Lists of create_thin and delete messages always succeed and can always be repeated. |
| ThinPool.NotCrashSafe | libdm/libdm-deptree.c:1573-1648 | Otherwise some interruption makes the transaction impossible to finish. |
| ThinPool.CrashSafeIff | libdm/libdm-deptree.c:1661-1720 | A transaction survives every interruption exactly if its snapshot messages can be repeated. |
| PopCount.HWeightCounts | libdm/libdevmapper.h:2603-2611 | The word-parallel sum is the number of set bits of the word. |
| PopCount.PairStage | libdm/libdevmapper.h:2605 | After the first stage every field of two bits holds the number of its set bits; no sum spills over. |
| PopCount.HalfStage | libdm/libdevmapper.h:2609 | After the fourth stage each half holds the number of its set bits. |
| TableLines.GetParamsCount | libdm/libdm-deptree.c:2472-2483 | Two for every set bit of the bitmap. |
| TableLines.RaidCountIsExact | libdm/libdm-deptree.c:2529-2663 | In both orders of the arguments the announced number is the number of words that follow, exactly if no bitmap has a bit for a missing device and data copies are asked of raid10 only. |
| LineReading.ReadSettings | libdm/libdm-deptree.c:2529-2663 | Any list of flags and named values is read back exactly from its words. |
| LineReading.RaidReadsBack | libdm/libdm-deptree.c:2576-2654 | From the words of a raid line, in the order of its version, a reader finds the stripe size, the sync flag and every setting with its own value, and nothing else; the names come in that order. |
| LineReading.OrdersAgree | libdm/libdm-deptree.c:2576-2654 | Both orders tell the target the same settings. |
| LineReading.DecimalReadsBack | libdm/libdm-deptree.c:2576-2654 | The words printed for numbers denote them. |
| LineReading.LogReadsBack | libdm/libdm-deptree.c:2440-2455 | A mirror log has its device if there is one, the region size, and exactly the flags that are set. |
| LineReading.MirrorAreaAt | libdm/libdm-deptree.c:2457-2460 | Each area is at its place, the device in front of its offset. |
| LineReading.PolicyReadsBack | libdm/libdm-deptree.c:2719-2726 | The policy arguments are the threshold unless it is 2048, and every setting that has a value, under its own key. |
| LineReading.WritecacheReadsBack | libdm/libdm-deptree.c:2778-2831 | From the words of a writecache line a reader finds exactly the flags and values that are set, each under its own name, if the free setting is not named like a flag. |
| LineReading.IntegrityReadsBack | libdm/libdm-deptree.c:2878-2914 | The options of an integrity line are exactly the ones that are set, each with its own value. |
| LineReading.PoolReadsBack | libdm/libdm-deptree.c:3047-3054 | The features of a thin-pool line are exactly the ones that are set. |
| TableLines.RaidCounted | libdm/libdm-deptree.c:2537-2557 | The counter is the sum that the order-independent count gives. |
| TableLines.PutDocumented | libdm/libdm-deptree.c:2578-2615 | The arguments follow the documented order, each with its own value, and are as many as announced exactly under the condition of RaidCountIsExact. |
| TableLines.PutOdd | libdm/libdm-deptree.c:2616-2654 | The arguments follow the order of targets 1.9 and 1.10, each with its own value, and are as many as announced exactly under the same condition. |
| TableLines.PutBits | libdm/libdm-deptree.c:2584-2586 | Exactly the devices whose bit is set are named, in ascending order. |
| TableLines.EmitRaid | libdm/libdm-deptree.c:2529-2663 | An odd number of areas is refused; otherwise the line is type, count, arguments, number of pairs and one word for each area, a dash for a missing one. |
| TableLines.LogCountIsExact | libdm/libdm-deptree.c:2415-2453 | The announced number of log arguments is the number of words that follow, exactly if not both sync flags are given and no flag is set that a mirror does not know. |
| TableLines.EmitMirror | libdm/libdm-deptree.c:2386-2464 | The line of a mirror, with error handling as a log argument or as a feature depending on the kernel. |
| FeatureLines.EmitCache | libdm/libdm-deptree.c:2665-2728 | The announced number of features is always right, the mode is passthrough, writeback or writethrough as asked, and the policy arguments are those that have not been deleted. |
| FeatureLines.PolicyCountIsExact | libdm/libdm-deptree.c:2718-2725 | The announced number of policy arguments is right exactly if policy_argc counts the settings that are left. |
| FeatureLines.EmitWritecache | libdm/libdm-deptree.c:2730-2834 | The fifth word is the number of words behind it, whatever is set; block size 0 stands for 4096. |
| FeatureLines.WritecacheCountIsExact | libdm/libdm-deptree.c:2746-2769 | The sum over the settings is the number of words they print. |
| FeatureLines.EmitIntegrity | libdm/libdm-deptree.c:2836-2920 | The fifth word is the number of words behind it, whatever is set. |
| FeatureLines.IntegrityCountIsExact | libdm/libdm-deptree.c:2853-2876 | The sum over the options is the number of words they print. |
| FeatureLines.EmitThinPool | libdm/libdm-deptree.c:3029-3057 | The fifth word is the number of features behind it. |
| StatsTable.ScanIds | libdm/libdm-stats.c:1086-1129 | The scan succeeds exactly if there is a line and the ids ascend and stay in range; it returns the last one. |
| StatsTable.Stats.LoadRows | libdm/libdm-stats.c:1160-1183 | Every line is stored at its id, with the group it leads, and nothing else is stored. |
| StatsTable.Stats.CheckMembers | libdm/libdm-stats.c:722-736 | Members that do not exist leave their groups; regions do not change. |
| StatsTable.Stats.UpdateGroups | libdm/libdm-stats.c:702-720 | Every region learns the last group, in ascending order, that has it as a member. |
| StatsTable.FinishedIsListed | libdm/libdm-stats.c:1194-1204 | The finished tables are a listing: a group's id is its smallest member, its members exist, and a region belongs to the last group that names it; the regions are those of the rows. |
| StatsTable.FinishedGroups | libdm/libdm-stats.c:1194-1204 | There is a group exactly where a row leads one, and its members are the listed ones that have rows themselves. |
| StatsTable.ParseList | libdm/libdm-stats.c:1206-1259 | Parsing fails exactly for ids out of order or out of range; otherwise the tables are a listing with exactly the listed regions, and with exactly the groups that rows lead, each with the listed members that exist. |
| StatsWalk.NextPresent | libdm/libdm-stats.c:1546-1580 | The cursor moves to the next area, or to the next region that is present and not skipped. |
| StatsWalk.GroupStart | libdm/libdm-stats.c:1613-1632 | The walk of groups starts at the smallest group, or ends if there is none. |
| StatsWalk.FirstGrouped | libdm/libdm-stats.c:1613-1632 | In a listing the first region that is in a group leads the first group. |
| StatsWalk.AnyUnskipped | libdm/libdm-stats.c:1736-1757 | True exactly if a region from the cursor on is present and not skipped. |
| StatsWalk.Start | libdm/libdm-stats.c:1634-1662 | What lies ahead of the new cursor is exactly what the flags ask for. |
| StatsWalk.EndAreas | libdm/libdm-stats.c:1759-1790 | When the areas are through, exactly the regions and groups asked for lie ahead. |
| StatsWalk.End | libdm/libdm-stats.c:1792-1815 | The end is reported only when nothing is left; otherwise the cursor stands on the next object. |
| StatsWalk.NextRest | libdm/libdm-stats.c:1582-1611 | One step leaves exactly what was behind the object under the cursor, which is reported as itself unless it is an area whose number has the bit of a whole region. |
| StatsWalk.ExpectedObjects | libdm/libdm-stats.c:1546-1834 | The expected objects are strictly ascending, areas before regions before groups, and are exactly those the flags ask for. |
| StatsWalk.AreasAreEnough | libdm/libdm-stats.c:220-232 | The number of areas is the smallest that covers the region, a partial one counting as one; it is 1 without a length or a step, and 0 if the sum wraps round. |
| StatsWalk.VisitedAreas | libdm/libdm-stats.c:220-232 | A walk visits exactly the areas that begin inside a region, and only the first one where length and step do not describe areas. |
| StatsWalk.SectorsAreCovered | libdm/libdm-stats.c:220-232 | Every sector of such a region lies in exactly one of the areas that are visited. |
| StatsWalk.SeveralAreas | libdm/libdm-stats.c:220-232 | A region is skipped for having a single area exactly if it is not longer than its step. |
| StatsWalk.ReportsAreExact | libdm/libdm-stats.c:1836-1881 | A walk reports every object as itself exactly if it walks no areas or no region has more than 2^49 of them. |
| StatsWalk.Handle.Walk | libdm/libdm-stats.c:1634-1834 | The start, end, next loop terminates and visits exactly the expected objects, in order, each once; they are all reported as themselves exactly under the condition of ReportsAreExact. |
| StatsGroupTag.RangesExact | libdm/libdm-stats.c:1955-1996 | The printed ranges are maximal, disjoint and ascending and cover precisely the set bits. |
| StatsGroupTag.RangeEnd | libdm/libdm-stats.c:1966-1973 | The inner loop ends one past the run of set bits. |
| StatsGroupTag.DigitCount | libdm/libdm-stats.c:2013-2018 | One plus the integer part of the decimal logarithm is the number of digits that are printed. |
| StatsGroupTag.TagLen | libdm/libdm-stats.c:2003-2039 | The predicted length is the length of the list plus one, and 0 for an empty set. |
| StatsGroupTag.ListRoomExact | libdm/libdm-stats.c:2003-2039 | One byte beyond each range is exactly the commas and the terminator. |
| StatsGroupTag.TagFill | libdm/libdm-stats.c:1955-1996 | In a buffer of the predicted length nothing is written outside although the bound is not reduced; the list is written whole if every piece is shorter than the bound, and 0 is returned otherwise. |
| StatsGroupTag.RoomFits | libdm/libdm-stats.c:1955-1996 | A bound of the predicted length is enough for each piece. |
| StatsGroupTag.BuildGroupTag | libdm/libdm-stats.c:2045-2096 | The descriptor fills its allocation exactly; there is none exactly for an empty group. |
| StatsGroupTag.Snprintf | libdm/libdm-string.c:123-136 | The text is written with its terminator or -1 is returned, within the given size. |
| BitsetList.ScanValue | libdm/datastruct/bitset.c:170-209 | The inner loop reads one value or range and stops behind its comma. |
| BitsetList.ScanList | libdm/datastruct/bitset.c:159-223 | One scan accepts exactly the well-formed lists, measures them, and with a mask sets exactly the listed bits. |
| BitsetList.ParseBitList | libdm/datastruct/bitset.c:148-244 | A list is refused exactly if it is malformed; the mask has the listed bits and no others, and the smallest size that holds them and the minimum. |
| BitsetList.ReadList | libdm/datastruct/bitset.c:159-223 | Any printed list of ranges is read back as those ranges. |
| BitsetList.ListReadsBack | libdm/libdm-stats.c:1955-1996 | The member list of a descriptor denotes exactly the group's bitset: it parses, covers the set bits and no others, and the mask ends at the last set bit. |
| BitsetList.ReversedRange | libdm/datastruct/bitset.c:215-216 | A range that ends before it starts is refused. |
| BitsetList.OnlyListCharacters | libdm/datastruct/bitset.c:201-202 | A list with any character but digits, blanks, commas and dashes is refused. |
| StatsDescriptor.ParseAuxDataGroup | libdm/libdm-stats.c:754-836 | In the buffer that holds the aux_data, the group is found, refused or taken apart as the functional parser says; the mask has the listed members and no others. |
| StatsDescriptor.TakeApart | libdm/libdm-stats.c:768-809 | Writing the two terminators in place leaves alias, member list and user data readable, the alias cut in front of the colon only if it is that long. |
| StatsDescriptor.FirstOfMask | libdm/libdm-stats.c:793-795 | The first bit of the mask, which must be the region's own id, is the smallest listed member. |
| StatsDescriptor.QuotedAlias | libdm/libdm-stats.c:2045-2096 | A descriptor whose alias has no colon is read back with members and user data, an empty alias as none. |
| StatsDescriptor.MissingAlias | libdm/libdm-stats.c:768-778 | A descriptor without an alias is read back with its own member list as the alias. |
| StatsDescriptor.AliasWithColon | libdm/libdm-stats.c:768-778 | An alias with a colon is never read back, whatever else the parser makes of the text. |
| StatsDescriptor.DescriptorSurvives | libdm/libdm-stats.c:754-836 | What is sent for a group is read back with members, alias and user data exactly if it has a non-empty alias without a colon and the user data is not a single hyphen. |
| StatsExtents.MergedBytes | libdm/libdm-stats.c:4603-4691 | Merging keeps the sequence of byte addresses: nothing is lost, added or moved. |
| StatsExtents.MergedApart | libdm/libdm-stats.c:4603-4691 | Neighbouring merged pieces are never physically adjacent. |
| StatsExtents.RecordsLoseNothing | libdm/libdm-stats.c:4566-4587 | For extents on sector boundaries the records in sectors describe the same bytes. |
| StatsExtents.Mapper.MapExtents | libdm/libdm-stats.c:4603-4691 | A batch has the effect of its extents in order, with the flush at its end, and the count of records is returned. |
| StatsExtents.Mapper.MapFile | libdm/libdm-stats.c:4731-4766 | The loop goes on until the end of the file or an empty answer. |
| StatsExtents.StepsTrack | libdm/libdm-stats.c:4626-4671 | After any extents all merged pieces but the last are in the table and the last is pending. |
| StatsExtents.RunIsOnePass | libdm/libdm-stats.c:4731-4757 | A run over batches none of which ends at logical offset 0 is one pass over all extents. |
| StatsExtents.BatchesDoNotMatter | libdm/libdm-stats.c:4603-4691 | The table is the in-order merge of the allocated extents however they are cut into batches, exactly unless nothing is allocated or the first of several batches is a lone extent at logical offset 0. |
| NodeOps.NodeQueue.DelNodeOp | libdm/libdm-common.c:1684-1692 | One operation leaves the queue and its counter goes down. |
| NodeOps.NodeQueue.OtherNodeOps | libdm/libdm-common.c:1694-1707 | The counters tell exactly whether an operation of another type is queued. |
| NodeOps.NodeQueue.UnstackForDel | libdm/libdm-common.c:1757-1769 | A delete drops the operations on its name until only deletes are left. |
| NodeOps.NodeQueue.UnstackForAdd | libdm/libdm-common.c:1770-1783 | An add drops the first delete of its name. |
| NodeOps.NodeQueue.UnstackForRename | libdm/libdm-common.c:1784-1799 | A rename drops everything on its old name. |
| NodeOps.NodeQueue.StackNodeOp | libdm/libdm-common.c:1735-1837 | The queue after a request, with every counter equal to the number of queued operations of its type; the request comes last, and read-ahead never relies on udev. |
| NodeOps.NodeQueue.PopNodeOps | libdm/libdm-common.c:1839-1859 | The queue is empty and the operations that do not rely on udev have been carried out in order. |
| NodeOps.QueueOrdered | libdm/libdm-common.c:1735-1837 | In every queue that requests can build, only deletes of the same name precede a delete, and nothing on its old name precedes a rename. |
| NodeOps.CancelledIs | libdm/libdm-common.c:1757-1799 | Exactly what is left of every such queue: an add has taken away the first delete of its name, a delete all operations on its name unless only deletes were queued, a rename all operations on its old name. |
| NodeOps.SameOrigins | libdm/libdm-common.c:1839-1859 | Two runs of operations leave the same directory, whatever it held, exactly if every node has the same origin in both. |
| NodeOps.KeptOrigin | libdm/libdm-common.c:1757-1799 | Dropping the operations on a name changes exactly the nodes that dropped renames leave behind; there, carrying all out leaves nothing. |
| NodeOps.SourceOrigin | libdm/libdm-common.c:1784-1799 | The node of the name itself stays the same exactly if nothing sets it, or it was moved away before and what sets it leaves nothing there. |
| NodeOps.StackedIsExact | libdm/libdm-common.c:1735-1859 | On every queue that requests can build, stacking a request and flushing is the same as flushing and carrying it out, for every directory, exactly if a delete leaves no node behind, and a rename none but the one it replaces and moves the node it would have moved at once. |
| NodeOps.FlushIsDirect | libdm/libdm-common.c:1735-1859 | For runs of requests that are exact when made, flushing leaves the directory as if every request had been carried out at once. |
| NodeOps.RunIsExact | libdm/libdm-common.c:1735-1859 | For any run of requests that do not rely on udev the two outcomes agree for every directory exactly if each node that is named has the same origin in the queue and in the requests. |
| NodeOps.WithoutRenames | libdm/libdm-common.c:1735-1859 | Every run of add, remove and read-ahead requests gives the same name-to-device map flushed or carried out at once. |
| NodeOps.RenamesDiffer | libdm/libdm-common.c:1757-1799 | With renames it need not: for any two names, two pairs of requests that are not exact, each with a directory for which the maps differ. |
| UdevCookie.RunCounts | libdm/libdm-common.c:2705-2763 | Under every interleaving the semaphore is the number of outstanding tasks plus one until the waiter decrements it, and only a successful waiter destroys it. |
| UdevCookie.WaiterDecrements | libdm/libdm-common.c:3037-3044 | The waiter's decrement never fails. |
| UdevCookie.SampleIsExact | libdm/libdm-common.c:3022-3035 | An immediate wait reports not ready, and leaves the semaphore alone, exactly if a task is outstanding when it samples the value. |
| UdevCookie.WaiterIsWoken | libdm/libdm-common.c:3049-3064 | A waiter can go on exactly when no task is outstanding. |
| UdevCookie.RunSettles | libdm/libdm-common.c:3010-3090 | If no task is counted in between the zero and the destruction, every wait that returns succeeds with no task outstanding, and no completion fails. |
| UdevCookie.TimelyIsExact | libdm/libdm-common.c:3010-3090 | In all states of a run no task is outstanding once zero has been seen and no completion has failed, exactly if no task is counted in between the zero and the destruction. |
| UdevCookie.DestroyIsExact | libdm/libdm-common.c:3049-3064 | A wait that has seen zero succeeds, with no task outstanding exactly if the semaphore is still zero when it is destroyed. |
| UdevCookie.OutstandingIsLost | libdm/libdm-common.c:2930-2983 | The completion of any task that is outstanding after the wait fails. |
| UdevCookie.LateTaskIsLost | libdm/libdm-common.c:2930-2983 | A run with a late assignment in which the wait returns while the task is outstanding and its completion fails. |
| NameMangling.UnmangleUndoesMangle | libdm/libdm-common.c:576-627 | Every name unmangles from its hex-mangled form to itself, strictly or not, and unmangling is reported exactly if a character was mangled. |
| NameMangling.MangledIsWhite | libdm/libdm-common.c:457-470 | The mangled form has only whitelisted characters and backslashes. |
| NameMangling.MangledIsDecodable | libdm/libdm-common.c:605-619 | Every code that mangling writes can be scanned. |
| NameMangling.MangledIsSpelled | libdm/libdm-common.c:457-470 | Letters, digits and the eight listed characters stay, and every other byte becomes a backslash, an x and its two lower-case hexadecimal digits. |
| NameMangling.AcceptedStays | libdm/libdm-common.c:457-470 | Names of accepted characters are kept in both modes. |
| NameMangling.StrictRefuses | libdm/libdm-common.c:564-627 | A name without codes stays as it is, except that strict unmangling refuses it exactly if a character is neither accepted nor a backslash. |
| NameMangling.HexDigitsAre | libdm/libdm-common.c:594-610 | The digits of a code may be in lower or upper case. |
| NameMangling.AutoIsIdempotent | libdm/libdm-common.c:488-570 | Automatic mode keeps a clean name, hex-mangles one without marks, refuses exactly the mixtures, and keeps its own result. |
| NameMangling.HexMode | libdm/libdm-common.c:488-570 | Hex mode always gives the hex-mangled form and reports whether anything was mangled. |
| NameMangling.TwiceIsDetected | libdm/libdm-common.c:472-482 | A hex-mangled name has the pattern that automatic mode refuses exactly if the original already carried a mark. |
| NameMangling.MangleOne | libdm/libdm-common.c:509-551 | One turn of the loop appends a whole piece or fails for lack of room or a mixture. |
| NameMangling.MangleString | libdm/libdm-common.c:488-570 | The buffer holds the mangled name, or -1 is returned exactly for a mixture or a form that does not fit. |
| NameMangling.UnmangleString | libdm/libdm-common.c:576-627 | The buffer holds the unmangled name up to a broken code, or is empty after a refused character. |
| ReportSelection.CheckSelection | libdm/libdm-report.c:2134-2169 | Short-circuit evaluation gives the value of the tree. |
| ReportSelection.SelectionIsRead | libdm/libdm-report.c:4241-4405 | Every expression of the grammar is read to its end, into the tree with AND below OR. |
| ReportSelection.OnlyExpressions | libdm/libdm-report.c:4241-4350 | The parser accepts exactly the expressions; a missing or extra parenthesis, operator or operand is refused. |
| ReportSelection.SelectionIsComputed | libdm/libdm-report.c:2134-2169 | Parsing and evaluating any expression gives its value with each negation of a negation dropped. |
| ReportSelection.ChainIsExact | libdm/libdm-report.c:4251-4265 | For each row a chain of directly nested negations is computed right exactly if its length is odd. |
| ReportSelection.SelectionIsTrue | libdm/libdm-report.c:2134-2169 | For expressions whose chains of nested negations are odd, above all those without nesting, the outcome is the truth value. |
| ReportSelection.DoubleNegationIsWrong | libdm/libdm-report.c:4252-4265 | A doubly negated item gives the opposite of its truth value for every row. |
| JsonGroup.RunInv | libdm/libdm-report.c:5243-5315 | At every moment of a legal run (nothing pushed onto a report that has been output, objects without a name only into arrays, no report popped before its output unless its parent has a finished child) the output is the beginning of a JSON text: brackets well nested, members in objects and values in arrays, commas exactly between elements, each piece indented by four for every open bracket. |
| JsonGroup.StepShown | libdm/libdm-report.c:5243-5315 | Every legal step adds exactly the array names and rows it is to show: a pushed array its name, the output of a report its name and one object for each displayed row. |
| JsonGroup.AllPoppedIsComplete | libdm/libdm-report.c:5608-5630 | Finishing completes the text and brings the indentation back to zero. |
| JsonGroup.ItemPushedInv | libdm/libdm-report.c:5448-5481 | A pushed array, or an object pushed into an array, opens the next element properly. |
| JsonGroup.OutputInv | libdm/libdm-report.c:5288-5315 | The output of a report opens its array behind its siblings; on top of the stack it succeeds. |
| JsonGroup.PoppedInv | libdm/libdm-report.c:5547-5606 | Popping closes exactly what the item opened. |
| JsonGroup.UnnamedOnlyInArray | libdm/libdm-report.c:5465-5474 | Below the top level an object without a name may be pushed exactly where an array is open. |
| JsonGroup.PushedOntoOutput | libdm/libdm-report.c:5288-5315 | An array pushed onto a report that has been output lands in the array of that report: the text can be read exactly if the nearest item that is no report is a named array, and has a finished child just if the innermost array has an element. |
| JsonGroup.OutputOntoOutput | libdm/libdm-report.c:5288-5367 | The same condition is exact for the output of a report that is pushed there, whatever its rows. |
| JsonGroup.UnnamedOntoOutput | libdm/libdm-report.c:5465-5474 | For an object without a name that is pushed there, only the condition about the comma remains. |
| JsonGroup.PoppedWithoutOutput | libdm/libdm-report.c:5564-5606 | A report popped without output counts as finished: what is printed stays in step with the stack exactly if its parent had a finished child before. |
| JsonGroup.NextArray | libdm/libdm-report.c:5251-5286 | Exactly under the same condition the next array pushed after such a pop can be read. |
| JsonGroup.ReportGroup.JsonOutputArrayStart | libdm/libdm-report.c:5251-5286 | A comma where a sibling is finished, an object of its own inside an array, then the array. |
| JsonGroup.ReportGroup.FindParent | libdm/libdm-report.c:5503-5508 | The parent is the nearest item that is no report. |
| JsonGroup.ReportGroup.PushReport | libdm/libdm-report.c:5485-5535 | A report is stacked without output. |
| JsonGroup.ReportGroup.PushItem | libdm/libdm-report.c:5448-5535 | An array or object is opened and stacked; an object without a name at the top level is refused. |
| JsonGroup.ReportGroup.OutputRows | libdm/libdm-report.c:5129-5224 | Exactly the displayed rows are printed, with commas between them. |
| JsonGroup.ReportGroup.OutputReport | libdm/libdm-report.c:5288-5367 | The report on top is output once; one below it is refused. |
| JsonGroup.ReportGroup.PopItem | libdm/libdm-report.c:5547-5606 | The item's brackets are closed and its parent counts one more finished child. |
| JsonGroup.ReportGroup.OutputAndPopAll | libdm/libdm-report.c:5608-5630 | After legal use the whole text is complete JSON and the indentation is zero. |

## Left out

- Memory allocation failures, logging, ioctl, sysfs, SELinux, mknod and thread plumbing: only their abstract effect is modelled.
- Floating point in the configuration language: a float token is refused by `ConfigParser.ParseType`, where the source converts it.
- Parsing only one section of a configuration, and the warnings about duplicate nodes.
- ConfigRoundTrip.ParseUndoesWrite: the formatting flags of values are not restored, since the text does not carry all of them.
- ConfigCascade.Tree.OverridePath: nodes are values here, so that sharing of nodes between layers is not captured; only `ConfigLinks` has the pointers.
- DepTreeDiscovery.DmTree.AddDev: nodes are addressed by device number instead of by pointer, and a device without a kernel entry stands for every ioctl failure.
- DepTreeSuspend.SuspendAll: presuspend links, thin-pool messages during suspend, and failing ioctls are not modelled.
- DepTreeSuspend.LiveTree.ActivateChildren: pending renames, sibling reactivation and messages are not modelled.
- Preloading, deactivation and the VDO messages and table line of the tree.
- ThinPool.SendMessages: the metadata-snapshot messages, and reading the pool's status text, are not modelled.
- TableLines.EmitRaid: lines are sequences of words; the buffer that grows when a line does not fit is not modelled. A 64-bit bitmap element is kept as its two halves.
- TableLines.EmitMirror: the flags are the low 32 bits, which are all that the bit count sees; building device names does not fail.
- StatsTable.ParseList: a line's numbers and its group's members arrive parsed; histogram bounds are left out.
- StatsDescriptor.ParseAuxDataGroup: a descriptor without the separator behind its list is excluded, because the source then reads behind the end of the string; the escaping that the kernel removes is left out.
- StatsWalk.Handle.Walk: the variants that take their own cursor are left out.
- StatsGroupTag.TagFill: a bitset is a sequence of bits; the search by machine words in libdm/datastruct/bitset.c is left out.
- BitsetList.ParseBitList: a list with the value 4294967295 is excluded, because the source computes its successor in 32 bits.
- StatsExtents.Mapper.MapFile: failing ioctls are left out; an answer that never comes counts as an empty one.
- The overlap check of groups, histograms, metrics, percentages and the cache of group histograms.
- NodeOps.NodeQueue.PopNodeOps: owners, modes and read-ahead values are left out; a rename or add does not fail, and the branch of a rename that checks the work of udev and removes the old node is not modelled.
- UdevCookie.RunSettles: one waiter at a time, at most one completion for each task, and no failures of the semaphore calls other than those of the protocol.
- NameMangling.MangleString: the terminator that sprintf writes behind each code is not modelled; with exactly four bytes left it lies outside the buffer that is passed.
- NameMangling.UnmangleString: codes that start with white space or 0x are excluded, because scanf treats them in its own way.
- ReportSelection.SelectionIsRead: an expression is a sequence of tokens; finding operators, names and values in the characters, and the comparisons themselves, are left out.
- JsonGroup.ReportGroup.PushReport: a report without a name is excluded, because its output uses the name through a null pointer.
- JsonGroup.ReportGroup.OutputRows: the fields inside a row object, their escaping, and reports that keep their rows for several outputs are left out.
- Basic and single report groups, time ranges, sorting, and the remaining libdm modules (files, timestamps, regular expressions, hashes, pools, target status parsing).
