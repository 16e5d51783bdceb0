# Tilbo in Dafny

Tilbo is a daemon that organises files by tags: it keeps a relational index of which file carries which tag,
an in-memory graph of the same relation for "related files" queries, a virtual filesystem whose directory names
are tag expressions, rules that derive tags from metadata, and a socket on which clients send requests. This
project models those parts and proves what they promise, over every input, every run and every interleaving.

`dafny verify dfyconfig.toml` checks everything. The files, from the bottom up:

- `Options`, `Text`, `TagRelation`, `Priorities`, `Overlay`: missing values, splitting strings, the plain relation from
  paths to tag sets, sorting with ties, and laying maps over one another by priority.
- `TagGraph` is the graph package as a class with its two adjacency maps, counters and search loop. `Traversal`
  says on the plain relation what a search must answer; `Distance` is the theory of balls, levels and walks
  that decides when the capped search finds true distances.
- `TagIndex` is the SQL index: three tables with ids, the queries as they are written, and a class whose methods
  insert and delete rows. `Csv` is the line in which a file's attribute keeps its tags, as Go's `encoding/csv` writes
  and reads it between the store's trims; `TagFiles` is the store. `Tagging` is the tag request handler over the three
  stores, `TagRace` its interleavings.
- `ExprCodec` is the path-expression parser, whose `%XX` codes are those of section 2.1 of RFC 3986, written for four
  characters only; `Grammar` describes the accepted names from outside, without its functions; `VirtualDirs` compiles it to queries, browses, and moves files; `EntryNames`, `Inodes`, `DirCache`
  fill a directory; `CacheRace` is its cache under concurrent use.
- `Ipc` is the request multiplexer, client and server, one step per atomic action.
- `Harvest` and `Rules` merge by priority; `Debounce` and `WalkFilter` are the watcher's timers and the scan.

Code that changes state in place is modelled by classes and loops, each proved against a specification on values;
protocols are step machines whose runs are all sequences of enabled steps. What an operation computes is also said
in plain terms, on its inputs and outputs alone, beside the specification functions that its proof uses. A Go string is a sequence of bytes held
as chars below 256. A Go map is a map, and iterating it picks any key left, so nothing proved depends on an order.

Where the code departs from what its comments or its users may expect, the model follows the code, and a lemma says
exactly when the two differ:

- The counting query gives nothing when an AND expression names a tag twice, in whatever spelling
  (`CompilationPreservesMeaning`, `RepeatedTagSelectsNothing`).
- The listing for no tags at all is documented as all tags; a tag on no surviving file is missing from it
  (`EmptyIncludeListing`).
- An OR expression loses spaces at the ends of its tags (`OrRoundTrip`); a batch lookup drops the empty tag that a
  single lookup returns (`GetFileTagsBatch`).
- A numbered listing name can collide with a file that really bears it (`NamesAreDistinct`, `LookalikesCollide`).
- A file's attribute does not give back every tag: "\r\n" inside one becomes "\n", and the last one loses white space
  at its end unless it is quoted (`RoundTrip`, `SpaceAtEndIsLost`). So attribute and graph can part after a request
  (`AttributesFollow`), and rules that derive such a tag, or the empty one, can find it missing again on every run
  (`RulesSettle`).
- A tag request writes the attribute of a file that is not indexed and then reports the path as an error
  (`OneStoreOnly`).
- A move into a directory does not act on its exclusions, and a directory that repeats a tag does not list what is
  moved into it (`WhereAMoveLands`).
- Two overlapping tag requests on one path can leave stale tags in the graph (`OverlapKeepsStaleTags`,
  `EveryRequestCanBeOvertaken`).
- A call that registers after the read loop has drained waits until it is cancelled (`LateCallsAreStuck`,
  `CallCanSlipPastTheDrain`).
- A lookup that found its cache warm misses if an invalidation comes between (`WarmLookupCanMiss`,
  `FirstLookupCanMiss`).
- The debouncer sends outside its lock, so two callbacks of one path can swap and the older event come last
  (`TogetherCanOvertake`, `OlderEventCanComeLast`).
- The scan and the watcher disagree about excluded files, excluded ancestors of the root, and an excluded "/"
  (`AgreementIsExact`, `ExcludedFileIsScanned`, `ExcludedAncestorIsScanned`, `ExcludedSlashIsWatched`).
- Merging and rule credit depend on the order of equal priorities (`IndependentIffWinnersAgree`, `RegistrationOrder`).
- A comment in graph.go puts the frontier cap at twenty times the limit; the code uses eight. Another calls a tag a
  stopword when its count exceeds the threshold; the code already skips it when the two are equal. The package
  documentation of the filesystem says that index changes show within two seconds; its query cache lives for thirty.

## Model

| member | source | states |
|---|---|---|
| `TagGraph.Graph.AddEdge` | internal/graph/graph.go:301-318 | one edge is entered on both sides of the graph, and nothing else changes |
| `TagGraph.Graph.RebuildCounts` | internal/graph/graph.go:322-328 | the file count and every tag count are exact for the current maps |
| `TagGraph.Graph.DropEdges` | internal/graph/graph.go:97-108 | a path disappears from both sides although only its own tags are visited; the two sides stay inverse |
| `TagGraph.Graph.Load` | internal/graph/graph.go:64-76 | the graph stands for exactly the rows read, whatever it held before, with no empty tag entry left |
| `TagGraph.Graph.LoadEmbeddings` | internal/graph/graph.go:80-87 | the given vectors replace those of their paths, and nothing else changes |
| `TagGraph.Graph.SetFileTags` | internal/graph/graph.go:97-117 | the path has exactly the given tags, every other path is untouched, and the representation invariant is kept |
| `TagGraph.Graph.RemoveFile` | internal/graph/graph.go:120-135 | the path and its embedding are gone and nothing else; the invariant is kept |
| `TagGraph.ValidGraphIsDetermined` | internal/graph/graph.go:64-135 | a graph maintained step by step and one rebuilt from scratch for the same relation differ at most in empty tag entries |
| `TagRelation.FromPairsIsMembership` | internal/graph/graph.go:64-76 | the relation built row by row is membership in the rows, whatever their order or repetition |
| `TagGraph.Graph.CreditTag` | internal/graph/graph.go:205-217 | one shared tag adds its contribution once to each unscored file that carries it; `SumFallsOff` says what contributions are worth |
| `TagGraph.Graph.DiscoverNextHop` | internal/graph/graph.go:194-220 | exactly the unscored files next to the frontier are found, each with the sum over all its (frontier file, shared tag) pairs, in whatever order the maps are iterated |
| `TagGraph.Graph.ApplySimilarityBoost` | internal/graph/graph.go:222-238 | each pending file gains its positive similarity to the seed, times the weight, and loses nothing to a negative one |
| `TagGraph.Graph.AdvanceFrontier` | internal/graph/graph.go:240-281 | the new frontier is a top selection of at most the cap; its files, and no others, are recorded with score, hop and similarity |
| `TagGraph.Graph.Hop` | internal/graph/graph.go:181-189 | a round that does not end the search scores at least one new file and keeps the search invariant, so the rounds are bounded by the number of files; one that ends it had nothing new in reach |
| `TagGraph.Graph.FormatRelatedOutput` | internal/graph/graph.go:283-298 | all scored files, each once, best first, cut only by a positive limit |
| `TagGraph.Graph.Related` | internal/graph/graph.go:154-192 | the reported files are the best of a set of scored files; a file's score less what its similarity adds, times its hop, is the sum of weight times idf over the tags, on fewer than 50 files or a twentieth of all, that it shares with files scored one hop before; each hop keeps everything new in reach or as many as the cap (eight times the limit, or 400) allows, none outscored by one it cut, until the range or the reach ends; and the hops are complete true distances if and only if no level within range is wider than the cap |
| `Traversal.Query.SumTakesOut` | internal/graph/graph.go:205-217 | the score sum does not depend on the order of its terms: any term can be taken out first |
| `Traversal.Query.SumFallsOff` | internal/graph/graph.go:205-217 | a hop's sum times the hop is the gain of its pairs, which does not depend on the hop: the same sharing counts half as much at twice the distance |
| `Traversal.Query.GainByPairs` | internal/graph/graph.go:205-217 | a gain is made up pair by pair of weight times idf of the file count and the number of files with the tag |
| `Traversal.Query.JustifiedIsEarned` | internal/graph/graph.go:194-238 | what the search scores is earned in that sense, plus the positive similarity times its weight |
| `Traversal.Query.LinkedByTellingTag` | internal/graph/graph.go:168-207 | two files are linked if and only if they share a tag on fewer than 50 files or on less than a twentieth of all |
| `Traversal.Query.CreditStep` | internal/graph/graph.go:205-217 | crediting one more edge turns the partial sums of all pending files into those including it |
| `Traversal.Query.ScoresAreNonNegative` | internal/graph/graph.go:194-238 | with non-negative weights no score is negative, because a tag is on no more files than there are |
| `Traversal.Query.HopKeepsGreedy` | internal/graph/graph.go:240-281 | later hops never make an earlier cut unjust: a file passed over scored no more at that hop than those kept |
| `Traversal.Query.HopKeepsExplained` | internal/graph/graph.go:181-189 | every file already scored stays explained by the hop before it, and the newly kept ones are explained too |
| `Traversal.Query.ExplainedIsRooted` | internal/graph/graph.go:154-192 | the scored files can be traced back hop by hop to the seed |
| `Distance.Net.RootedHasWalk` | internal/graph/graph.go:154-192 | each reported hop has a chain from the seed whose i-th file was scored at hop i, through tags that are not stopwords |
| `Distance.Net.BallIsWalks` | internal/graph/graph.go:154-192 | the ball of radius k is the set of files that walks of at most k links reach |
| `Distance.Net.CompleteIsShortest` | internal/graph/graph.go:154-192 | in a complete outcome the hop is the length of a shortest walk |
| `Distance.Net.HopKeepsProgress` | internal/graph/graph.go:240-281 | after each hop either exactly the ball has been seen, or some file has been cut from its level for good |
| `Distance.Net.HopKeepsFilled` | internal/graph/graph.go:240-281 | a hop that keeps all it finds or as many as the cap allows leaves every earlier hop filled to the cap as well |
| `Distance.Net.ProgressDecides` | internal/graph/graph.go:181-189 | at the end the outcome is complete if and only if every level within range fits the cap |
| `TagIndex.Tables.CountMeansAll` | internal/index/search.go:104-122 | COUNT(DISTINCT) = n selects a file if and only if the list has no repetition and the file has all of it |
| `TagIndex.Tables.NoneMeansDisjoint` | internal/index/search.go:104-137 | the exclusion selects files with none of the tags, and the OR form files with at least one |
| `TagIndex.Tables.BrowseSplits` | internal/index/index.go:524-598 | a browse level is shared out between choosing and refusing a tag, without overlap or loss, exactly when the tag is new or the level empty |
| `TagIndex.Tables.ListedIffOpensNonEmpty` | internal/index/index.go:524-598 | a tag is offered if and only if it is not yet used and choosing it leaves at least one file |
| `TagIndex.Tables.EmptyIncludeListing` | internal/index/index.go:524-598 | the listing for no tags is "all tags outside the exclusions", as documented, exactly when each of those is on some surviving file |
| `TagIndex.DB.UpsertTag` | internal/index/index.go:197-203 | a name gets one id for good, no other name changes its id, and no file changes its tags |
| `TagIndex.DB.GetFileTags` | internal/index/search.go:299-316 | the tags of a path, each once |
| `TagIndex.DB.GetFileTagsBatch` | internal/index/search.go:320-375 | an entry for each path asked for, holding its tags each once, except an empty name |
| `TagIndex.DB.SetFileTags` | internal/index/index.go:314-341 | deleting and re-inserting rows through tag ids leaves exactly the given names on the path and every other path as it was |
| `TagIndex.DB.ModifyFileTags` | internal/index/search.go:382-419 | row by row, "add" leaves the path's tags and the given names, "remove" the tags without the names, "set" the names, and no other path changes; an unknown path or operation changes no table |
| `TagIndex.DB.Search` | internal/index/search.go:77-254 | the total counts all matches; the page holds matches only, each once, and all of them unless the limit cuts it |
| `TagIndex.DB.ListFileTagPairs` | internal/index/index.go:645-656 | the rows exported are exactly the relation the tables stand for |
| `Tagging.LoadGraphState` | internal/daemon/daemon.go:265-283 | after start-up graph and index stand for the same relation, and the graph has the vectors that could be listed |
| `Csv.ReadingGivesKept` | internal/xattr/xattr.go:50-126 | for every list of names, reading back what was written gives each of them with its line ends changed, the last one trimmed unless it is quoted, and no empty one; commas, quotes and all else survive |
| `Csv.RoundTrip` | internal/xattr/xattr.go:50-126 | a list comes back as it was, empty names apart, if and only if no name holds "\r\n" and the last does not end in unquoted white space |
| `Csv.RoundTripAsSet` | internal/xattr/xattr.go:50-126 | the same for the set of names: an altered name is never made up for by another |
| `Csv.SpaceAtEndIsLost` | internal/xattr/xattr.go:50-126 | for one, "x " comes back as "x" |
| `Csv.PlainNamesAreJoined` | internal/xattr/xattr.go:104-115 | names that need no protection are joined by commas as they are |
| `Csv.AsciiNeedsQuotes` | internal/xattr/xattr.go:104-115 | an ASCII name stands in quotes exactly if it has a comma, a quote or a line end, begins with white space, or is "\\." |
| `Csv.SpaceAroundIsIgnored` | internal/xattr/xattr.go:73-83 | white space before or behind a value changes nothing, whoever wrote the value |
| `Csv.TrimmedHasNoSpace` | internal/xattr/xattr.go:73-83 | and none of it is left when the line is parsed |
| `Csv.StrayQuoteFails` | internal/xattr/xattr.go:78-81 | a quote inside an unquoted field makes a value unreadable |
| `Csv.BadQuotedFieldFails` | internal/xattr/xattr.go:78-81 | and so does a quoted field that is not closed, or followed by anything but a comma or a line end |
| `TagFiles.Store.WriteTags` | internal/xattr/xattr.go:99-126 | what is read afterwards is the list that was written, empty names apart, if and only if the list survives; a file that cannot be written keeps its value |
| `TagFiles.Store.ReadTags` | internal/xattr/xattr.go:50-95 | the fields of the trimmed line except empty ones; none for a file without the attribute, and an error for a line with a stray or unclosed quote |
| `TagFiles.Store.ApplyTags` | internal/daemon/handlers.go:304-336 | what is written is, in some order, the tags read from the file with the names added, or without them, or the names alone, as the operation says; no other file changes, nor does one that cannot be written |
| `Tagging.PredictDiff` | internal/daemon/handlers.go:137-181 | the difference announced before the write is the difference the operation will make |
| `Tagging.TagPath` | internal/daemon/handlers.go:135-202 | one path of a request, on file, index and graph: index and graph agree afterwards, and the event is exactly what was added and removed |
| `Tagging.HandleTag` | internal/daemon/handlers.go:113-211 | over a whole request, repeated paths included, index and graph stay equal; each known path ends with its tags and the names, or without the names, or with the names alone, as the operation says, and no other path changes; one event tells each real change, with exactly what was added and removed; and the attribute of each writable path has been read, changed and written in turn |
| `Tagging.PathsAreAccountedFor` | internal/daemon/handlers.go:113-211 | each requested path is answered ok or in error, once for each time it was asked for |
| `Tagging.AppliedMeaning` | internal/daemon/handlers.go:113-211 | however often and among whatever else a path is asked for, it ends up with the operation done once on its tags; other paths are untouched |
| `Tagging.EventsAnnounce` | internal/daemon/handlers.go:135-202 | repeating the operation on a path changes nothing more, so each changed path is announced exactly once and no unchanged one is |
| `Tagging.AttributesFollow` | internal/daemon/handlers.go:183-202 | when a file's attribute and the graph agree before a request that can change both, they agree after it in every order of writing if and only if every tag the file should end with is safe: not empty, without "\r\n", and not ending in unquoted white space |
| `Tagging.SafeTagsArrive` | internal/daemon/handlers.go:183-202 | with safe tags only, each file's attribute ends with exactly the operation's outcome, however often the file is asked for; other files are untouched |
| `Tagging.OneStoreOnly` | internal/daemon/handlers.go:183-202 | if only one of attribute and index can change, they agree afterwards exactly if nothing changed: an unindexed file's attribute is written although its path is answered as an error |
| `Tagging.EventsReplay` | internal/daemon/handlers.go:135-202 | a listener that replays the events on the old tags gets the new tags; each event adds only absent tags, removes only present ones and is not empty |
| `TagRace.SerialRunsAgree` | internal/daemon/handlers.go:113-211 | if requests on one path are kept apart, index and graph agree whenever nothing is in progress |
| `TagRace.OverlapKeepsStaleTags` | internal/daemon/handlers.go:187-196 | whenever a request has read back and not yet published, another one on the path can overtake it, and the graph is then stale exactly when the other one made a difference |
| `TagRace.EveryRequestCanBeOvertaken` | internal/daemon/handlers.go:187-196 | such a moment comes in every request |
| `ExprCodec.PercentEncode` | internal/fuse/expr.go:310-331 | the loop yields the encoding in which exactly the four operator characters become codes |
| `ExprCodec.PercentDecode` | internal/fuse/expr.go:336-358 | the loop yields the decoding, with a truncated code and a malformed one told apart |
| `ExprCodec.DecodeUndoesEncode` | internal/fuse/expr.go:310-358 | decoding an encoded tag gives the tag back, for every byte string |
| `Grammar.DecodeMeaning` | internal/fuse/expr.go:336-358 | a name decodes to a text if and only if it stands for it, each character for itself and each code of two hexadecimal digits of either case for its byte |
| `Grammar.FourCodes` | internal/fuse/expr.go:310-331 | the codes written for the four operator characters |
| `Grammar.OthersAreNotEncoded` | internal/fuse/expr.go:310-331 | a tag without these is its own name |
| `ExprCodec.SpecialNames` | internal/fuse/expr.go:76-81 | "@untagged" is the untagged directory, other names with '@' are kept whole, and all others are tag expressions |
| `ExprCodec.ParseTagExpr` | internal/fuse/expr.go:147-220 | the two parsing loops with all their error exits compute the grammar's meaning function |
| `Grammar.ParserMeaning` | internal/fuse/expr.go:147-220 | the parser accepts a name as an expression if and only if the name is printable and means that expression: tags between commas, or between '+' with '!' before excluded ones and the first included, each part a non-empty name that decodes |
| `Grammar.TrimMeaning` | internal/fuse/expr.go:165 | a part of an OR expression is read between its spaces |
| `Grammar.AsciiIsPrintable` | internal/fuse/expr.go:151-155 | an ASCII name is printable exactly between ' ' and '~' |
| `ExprCodec.AcceptedTagsAreNotEmpty` | internal/fuse/expr.go:147-220 | no accepted expression holds an empty tag, and it always includes at least one |
| `ExprCodec.AndRoundTrip` | internal/fuse/expr.go:147-220 | any mixture of non-empty printable included and excluded tags, printed with '+' and '!' and parsed, gives back exactly its included and its excluded tags in order; only one that begins with an exclusion is refused |
| `ExprCodec.RootNameOpensItself` | internal/fuse/server.go:187-247 | a tag listed in the root opens as the expression for itself if and only if it is non-empty, printable and does not start with '@' |
| `ExprCodec.OrReadBack` | internal/fuse/expr.go:162-185 | tags printed with ',' come back with the spaces at their ends lost, or not at all if one is only spaces |
| `ExprCodec.OrRoundTrip` | internal/fuse/expr.go:162-185 | an OR expression gives back its tags if and only if none begins or ends with a space |
| `VirtualDirs.CompilationPreservesMeaning` | internal/fuse/expr.go:224-276 | for every accepted name the compiled query selects exactly the files that satisfy it as a Boolean formula, unless an AND repeats a tag: then it selects none |
| `VirtualDirs.RepeatedTagSelectsNothing` | internal/fuse/expr.go:224-276 | a tag repeated in another spelling is such a case |
| `VirtualDirs.UntaggedSelectsTagless` | internal/index/search.go:145-148 | the untagged directory holds exactly the files without tags |
| `VirtualDirs.TagQuery` | internal/fuse/server.go:278-290 | a directory shows the files that satisfy its name's formula, none if an AND repeats a tag, and "@untagged" those without tags; all of them up to ten thousand |
| `VirtualDirs.BrowseDir.LookupFollowsName` | internal/fuse/server.go:675-727 | the listed name of a tag leads to the level of that tag, except for the empty tag and a plain "@files" |
| `VirtualDirs.BrowseDir.ReaddirMeaning` | internal/fuse/server.go:639-669 | a level lists "@files" and, under their codes, exactly the unused tags that some file here has |
| `VirtualDirs.BrowseDir.ListedNamesOpen` | internal/fuse/server.go:675-727 | each listed name opens what it stands for: the files here, or the non-empty level of the tag |
| `VirtualDirs.BrowseQuery` | internal/fuse/server.go:757-765 | the files directory of a level shows the files with all included and no excluded tags, all of them up to ten thousand |
| `VirtualDirs.FilesAreBrowsed` | internal/fuse/server.go:757-765 | the search that a level sends selects the files among which its tags are listed |
| `VirtualDirs.BrowseDir.BrowsePathArrives` | internal/fuse/server.go:639-765 | by following any sequence of offered names one arrives at the level of exactly those tags, its includes stay free of repetition, the name "@files" behind them opens its files, and these are the files having all of the chosen and none of the refused tags |
| `VirtualDirs.BrowseDir.StepNarrows` | internal/fuse/server.go:639-727 | an offered tag opens a non-empty part of the files here, and choosing and refusing it share them out |
| `VirtualDirs.Rename` | internal/fuse/server.go:460-521 | each way out gives its error and changes nothing: a target that is no tag directory, a failed query, an unlisted name, the same directory, a directory that is not an AND of tags; a real move leaves (old − source's tags) ∪ destination's tags, tag by tag through the index, and neither directory's cache answers again before a new query |
| `VirtualDirs.WhereAMoveLands` | internal/fuse/server.go:460-521 | on the tables a move has left, the file is selected at its destination exactly when that directory repeats no tag and excludes none of the file's, and still at its source exactly when that one repeats no tag, all its tags were put back and it excludes none |
| `EntryNames.IntStr` | internal/fuse/server.go:953-965 | for every 64-bit number the digits fit the 20-byte buffer and are its decimal form; a negative one prints as nothing |
| `EntryNames.ValueOfDecimal` | internal/fuse/server.go:953-965 | the digits determine the number |
| `EntryNames.GeneratedIsInjective` | internal/fuse/server.go:942-951 | a numbered name tells both its basename and its number |
| `EntryNames.ListedName` | internal/fuse/server.go:942-951 | a file with a basename of its own is listed under it; one that shares it gets the number of those before it in front of the extension |
| `EntryNames.NamesAreDistinct` | internal/fuse/server.go:93-115 | all names of a listing differ if and only if no unique basename is the numbered name of another file |
| `EntryNames.LookalikesCollide` | internal/fuse/server.go:942-951 | for every basename there is a listing with two equal names |
| `Inodes.InodeTable.ManyProbesReachFree` | internal/fuse/server.go:151-176 | pigeonhole: probes taking more values than are in use reach a free one, so the search ends |
| `Inodes.InodeTable.AllocInode` | internal/fuse/server.go:151-176 | a known path keeps its number; a new one gets the first free of its probes; the two maps stay inverse |
| `Inodes.InodeTable.AllocAll` | internal/fuse/server.go:151-176 | over any run of requests equal numbers mean equal paths, none is 0 and none is ever changed |
| `DirCache.EntryName` | internal/fuse/server.go:942-951 | the counter maps make the loop give each result the name its position calls for |
| `DirCache.TagCache.Fill` | internal/fuse/server.go:93-115 | one entry for each result under its name and inode; the name index leads from every listed name to the last entry of that name |
| `DirCache.TagCache.Invalidate` | internal/fuse/server.go:118-122 | at no time does the cache count as fresh, and it answers no name, until it is filled again; its entries stay |
| `CacheRace.RunKeepsInv` | internal/fuse/server.go:295-449 | what the checked and re-checked lock guarantees is kept by every run of readers, writers and invalidations |
| `CacheRace.RenameIsSeen` | internal/fuse/server.go:295-521 | in every interleaving, what begins after a move has invalidated is answered from a query made after the move's writes, or fails, or misses because a further invalidation came between |
| `CacheRace.FillsAreApart` | internal/fuse/server.go:295-331 | two fills with no invalidation between them are at least the cache's lifetime apart |
| `CacheRace.WarmForThirtySeconds` | internal/fuse/server.go:87-89 | a check finds the cache warm exactly if it was filled since the last invalidation and less than thirty seconds ago |
| `CacheRace.WarmLookupCanMiss` | internal/fuse/server.go:367-449 | an invalidation can slip between warming and lookup and then the lookup misses; without one it does not |
| `CacheRace.FirstLookupCanMiss` | internal/fuse/server.go:367-449 | a run from the start in which the first lookup misses for that reason |
| `Ipc.StepKeepsInv` | internal/ipc/client.go:71-192 | conservation of ids, channel histories, faithfulness of answers, single delivery and settlement are kept by every step of caller, reader, server, pusher and connection |
| `Ipc.CallReturnsItsOwnAnswer` | internal/ipc/server.go:174-249 | in every interleaving a call's result is what the handler made of that call's own request, and no request is answered twice; events never satisfy a call |
| `Ipc.ResultsByCase` | internal/ipc/server.go:211-249 | a call that returns a body was answered with it; one that returns a remote error was refused with it, or its handler failed with that message or gave nothing, both under code 3 |
| `Ipc.QuietCallIsAnswered` | internal/ipc/client.go:133-192 | on a quiet connection a call goes through and returns what its handler answers, case by case |
| `Ipc.NextAnswerIsReturned` | internal/ipc/client.go:95-116 | in any reachable state a response next in line for a pending call is taken and returned by it |
| `Ipc.OtherMessagesArePassedOver` | internal/ipc/client.go:95-116 | an event, or a response no pending call waits for, is read and changes nothing else |
| `Ipc.TakenAnswersArrive` | internal/ipc/client.go:71-192 | in every run a response taken for a call stays with the reader or in the call's channel until the call returns, and only the drain ends a call for want of a connection |
| `Ipc.IdsAreConserved` | internal/ipc/client.go:71-192 | every issued id is pending or departed, never both; each channel gets at most one send and one close, never a send after a close, and the send never blocks |
| `Ipc.DeparturesAreFinal` | internal/ipc/client.go:71-192 | however a run goes on, an id that has left the pending map never comes back, never leaves in another way, and is never given to another call |
| `Ipc.DrainFreesEarlierCalls` | internal/ipc/client.go:121-128 | after the drain a call still waits on an open empty channel if and only if it registered after the drain |
| `Ipc.LateCallsAreStuck` | internal/ipc/client.go:133-192 | however a run goes on, such a call waits on until it is cancelled |
| `Ipc.CallCanSlipPastTheDrain` | internal/ipc/client.go:71-128 | such a call exists: there is time to register and write between the drain and the close |
| `Harvest.RunAndMerge` | internal/harvester/pipeline.go:91-128 | in whatever order results arrive, the merged map has exactly the keys some harvester produced, each with the value of one whose priority no other producer of the key exceeds |
| `Harvest.DistinctPrioritiesSuffice` | internal/harvester/pipeline.go:27-35 | if harvesters that share a key differ in priority, any two maps merged from the same results in any order are equal |
| `Overlay.IndependentIffWinnersAgree` | internal/harvester/pipeline.go:114-128 | the merge does not depend on how ties are ordered if and only if the top producers of each key agree on its value |
| `Rules.Engine.Register` | internal/rules/engine.go:38-45 | the rules are those before and the new one, in ascending priority |
| `Rules.Engine.Eval` | internal/rules/engine.go:64-114 | the added tags are, each once, exactly those absent from the file that some succeeding, unsuppressed rule yields, and each is credited to such a rule of highest priority |
| `Rules.RegistrationOrder` | internal/rules/engine.go:38-114 | registering in another order derives the same tags, and the credit is independent of ties if and only if the top rules of each tag share a name |
| `Rules.SuppressingMoreDerivesLess` | internal/rules/engine.go:117-119 | more overrides never derive more, and what they take away was yielded by suppressed rules only |
| `Rules.ApplyDiff` | internal/daemon/processor.go:481-511 | file, index and graph all get the tags, or, if the file cannot be written, none does |
| `Rules.ApplyRules` | internal/daemon/processor.go:249-327 | all three stores get the tags read from the file and behind them those derived and missing, or none is touched: if nothing was missing, or the attribute cannot be parsed, or the file is not indexed or not writable |
| `Rules.RulesSettle` | internal/daemon/processor.go:249-327 | a second run of the same rules writes nothing, whatever the attribute held and in whatever order tags were added, if and only if every derived tag is safe |
| `Debounce.StepKeepsInv` | internal/watcher/watcher.go:725-754 | an entry is pending exactly while it is its path's latest and unclaimed, under any order of events, late timers, claims and sends |
| `Debounce.EmittedOnceAndNeverSuperseded` | internal/watcher/watcher.go:725-754 | in every run an event is emitted at most once, only if none newer for its path had come when it was claimed, and each path has at most one pending entry, its latest |
| `Debounce.ClaimIsQuiet` | internal/watcher/watcher.go:734-745 | a callback claims its event exactly if none newer has come for the path, and not before 200 milliseconds after the event |
| `Debounce.SendOrDrop` | internal/watcher/watcher.go:747-752 | a claimed event is sent unless 512 wait to be read, and dropped then |
| `Debounce.ChannelIsBounded` | internal/watcher/watcher.go:747-752 | no more than 512 ever wait |
| `Debounce.SupersededIsSilent` | internal/watcher/watcher.go:733-745 | an event still pending when a newer one arrives is never emitted, even if its timer had expired |
| `Debounce.NeverTogetherIsInOrder` | internal/watcher/watcher.go:736-752 | as long as no two callbacks of a path are in flight at once, each path's emissions are a subsequence of its events |
| `Debounce.TogetherCanOvertake` | internal/watcher/watcher.go:747-752 | at any moment when two are and the channel has room, the later event can come out first, so that the older is the path's last emission |
| `Debounce.SlowStartMeets` | internal/watcher/watcher.go:725-754 | a run from the start that reaches such a moment, for any two events of a path |
| `Debounce.OlderEventCanComeLast` | internal/watcher/watcher.go:725-754 | a run from the start that settles, drops nothing, and emits the older of a path's two events last |
| `Debounce.PromptIsNeverTogether` | internal/watcher/watcher.go:725-754 | if every send follows its claim within one quiet period, that moment never comes |
| `Debounce.LastEventIsLastEmission` | internal/watcher/watcher.go:725-754 | once a run without such a moment has settled without a full channel, the last emission for each path is its last event |
| `Debounce.PromptRunsEndRight` | internal/watcher/watcher.go:725-754 | in particular when every send follows its claim within one quiet period |
| `WalkFilter.HiddenBelowRoot` | internal/fsutil/hidden.go:21-45 | the string test for hidden components looks at exactly the names below the root |
| `WalkFilter.PrefixIsAncestor` | internal/watcher/watcher.go:667-674 | for clean paths a string prefix up to a slash is an ancestor, except that "/" is nobody's |
| `WalkFilter.FilterMeaning` | internal/watcher/watcher.go:523-532 | the filter on strings accepts a path if and only if it is at or below the root, visible, and neither excluded nor below an excluded path other than "/" |
| `WalkFilter.Syncer.WalkEntry` | internal/sync/syncer.go:171-209 | a callback skips excluded and hidden directories, syncs visible files and nothing else |
| `WalkFilter.Syncer.Walk` | internal/sync/syncer.go:145-209 | over every tree the pruned walk syncs, in order, exactly the visible files with no excluded directory above them at or below the root |
| `WalkFilter.FilesAreTheTrees` | internal/sync/syncer.go:145-147 | the files of the walk are those of the tree, no more and no fewer |
| `WalkFilter.AgreementIsExact` | internal/sync/syncer.go:171-209 | for every tree and configuration, exactly when scan and filter decide alike: normally, if no reached file is itself excluded; with an ancestor of the root excluded, if every file is hidden or below an excluded directory of the tree; with "/" watched and excluded, if every file is hidden or excluded otherwise |
| `WalkFilter.ExcludedFileIsScanned` | internal/sync/syncer.go:181-186 | a tree on which they differ: an excluded file is scanned and not watched |
| `WalkFilter.ExcludedAncestorIsScanned` | internal/sync/syncer.go:181-186 | a tree on which they differ: below an excluded ancestor of the root all is scanned and nothing watched |
| `WalkFilter.ExcludedSlashIsWatched` | internal/watcher/watcher.go:667-674 | a tree on which they differ: with "/" watched and excluded nothing is scanned and all is watched |
| `WalkFilter.ScanIsFilter` | internal/watcher/watcher.go:666-686 | with every excluded path a directory at or below the root and not "/", the scan syncs precisely the files the filter accepts |

## Left out

- Floating point: scores are reals, the idf and the cosine are abstract functions, the idf non-negative where a lemma needs it.
- The order of equal scores and the ORDER BY of queries: a selection or a page is any that the sort or limit allows.
- The backing graph store, which is written and never read, and the "f:" and "t:" prefixes of its keys, which are injective.
- 64-bit overflow of limit times eight in the frontier cap.
- TagIndex.DB.Search: models tag and untagged criteria, limit and total; metadata, full-text, vector and time filters and the offset are not part of it.
- TagIndex.DB.ModifyFileTags: database failures other than an unknown path are not modelled, so neither is a transaction that rolls back.
- TagIndex.DB.UpsertTag: ids are any unused numbers, as SQLite's are; tag rows are never removed, as in the code paths modelled.
- Provenance, overrides and the other tables of the index; stale file deletion, which rests on SQL LIKE patterns.
- TagFiles.Store.WriteTags: sidecar files, a failing read followed by a working write, and the provenance attribute are not modelled. What `encoding/csv` and `strings.TrimSpace` do is the Go library's and not part of the repository.
- Tagging.OneStoreOnly: where only the attribute can change it speaks of safe tags; with others the outcome depends on the order of writing.
- Coherence of index and graph across filesystem events, deletion and moves in the virtual filesystem, which update only some of the stores.
- Special expressions other than the untagged one, and metadata expressions; a '/' in a tag, which the kernel would split.
- ExprCodec.RootNameOpensItself: whether a run of bytes from 128 up decodes to printable characters is an abstract predicate on such runs.
- Inodes.InodeTable.AllocInode: the hash is an abstract function, so that a free probe exists is required; the code would search on without one.
- DirCache.TagCache.Fill: fewer than 2^63 results are required, as any slice of the program has.
- Several directory nodes for one expression, each with its own cache; file attributes, Lstat checks and kernel entry timeouts.
- VirtualDirs.BrowseDir.BrowsePathArrives: speaks of all matches; the limit of the query is in `VirtualDirs.BrowseQuery`.
- VirtualDirs.CompilationPreservesMeaning: speaks of all matches; the limit of the query is in `VirtualDirs.TagQuery`.
- VirtualDirs.Rename: whether the source's cache could be warmed is given; the query that warms it is `DirCache.TagCache.Fill`, and its interleaving with other readers is `CacheRace`.
- CacheRace.RenameIsSeen: one directory's cache; the rename invalidates the two directories' caches one after the other, and the lemma holds for each.
- Ipc.CallReturnsItsOwnAnswer: one connection; framing, encoding and the writer's lock are atomic steps, and a broken connection may lose any tail of either direction.
- Harvest.RunAndMerge: harvesters are whatever results they send; asynchronous harvesters and matching by path and type are left out.
- Debounce.LastEventIsLastEmission: requires that no two callbacks of a path are in flight at once; `OlderEventCanComeLast` shows what can happen otherwise.
- The inotify fallback's own debouncer and its event sources; the decoding of kernel events into paths.
- WalkFilter.Syncer.Walk: entries with walk or stat errors and symbolic links to directories are left out; relative paths are computed on the names of clean absolute paths.
- Extractors, thumbnails, trash, configuration, command line, user interfaces and migrations, which would add only easy members.
