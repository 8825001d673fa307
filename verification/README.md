# mc: models and proofs

This project models the parts of the `mc` object storage client whose behaviour is
decided by algorithms rather than by flags and calls to servers, and proves what
they guarantee. `dafny verify dfyconfig.toml` checks all of it.

| file | part of the client |
|---|---|
| `DirOrder`, `DirWalk`, `WalkExactness`, `WalkEvents`, `WalkPlaces`, `WalkComplete` | the recursive listing of local directories: comparator, order, events, stops |
| `LocalFiles`, `PutFile` | removal with empty parents; write to a temporary file and commit by rename |
| `Accounting` | the transfer accounter under concurrent calls of `Read` |
| `Difference`, `DifferenceOrder` | the merge that compares two listings |
| `HealIndexes`, `HealTolerance`, `HealExactness`, `HealGuarantee`, `HealStats` | disks by set and by server, servers that may be stopped, counters of the heal display |
| `ConfigTypes`, `NamedHosts`, `NamesKept`, `NamesThroughPass`, `ConfigMigration`, `ConfigRepair`, `AliasStore` | configuration versions, migration, repair, and the cached alias store |
| `ClientUrls` | parsing, printing and joining URLs |
| `PrettyFilter`, `PrettyOutput` | the terminal filter of `cat`, with UTF-8 as in section 3 of RFC 3629 |
| `TraceStats` | the aggregator of traces by function name |
| `Text`, `MapWalk`, `Sequences` | byte strings as Go compares and cuts them; walks over Go maps; places in sequences |

How things are modelled:

- Code that changes state step by step is a method over a class or a loop with
  invariants, proved against a specification function; laws are lemmas about that
  function.
- A walk over a Go map is a loop that picks any remaining key, so every result holds
  for every order. `sort.Sort` is any function that returns the same entries with no
  neighbours that the comparator puts the other way round.
- Choices of the operating system (which call fails, what a reader delivers) are
  parameters. Saving a configuration either replaces the record or fails and leaves it.
- A `char` of a string stands for one byte; where the source loops over characters, they
  are decoded from the bytes.
- `globalMCConfigVersion` is "10" (cmd/globals.go:42).

Where the code does not do what its comments or its callers expect, the code is kept
and the exact condition is proved:

- The directory comparator adds the slash on one side only, so it leaves some pairs of
  directories unordered. `WalkOrderExactly` gives the trees for which every allowed sort
  still sends the files in path order; directories `a` and `a-` with files break it.
- The reported server tolerance depends on the order of a map walk and can be too high
  (`OrderMatters`). `AlwaysSafeExactly` says for which pools it cannot, a condition that
  `SortedDecides` reads off the sorted servers; it is never below the guaranteed number,
  and exact for walks by descending count.
- While reads run, the accounter can show more than the total, exactly when the calls
  together read more (`OvershootExactly`).
- With directories last, entries of directories are missing after a stop; the two options
  agree exactly when nothing below the root is unreadable (`FirstAndLastExactly`,
  `UnreadableChildIsMissing`).
- The comparison of two sorted listings never ends when a key is a regular file on one side
  only (`EndsExactly`), as an object against a directory marker below its own URL
  (`MarkerClash`). On listings in any order its reports are right exactly when the
  listings are aligned (`ReportsExactly`); comparing normalised keys
  (cmd/difference.go:309-310) can give listings that are not (`SwappedIsMisreported`).
- The terminal filter works chunk by chunk; a rune that lies across two chunks is
  replaced by errors (`ChunksExactly`, `SplitRuneIsLost`).
- Version 8 records are stamped with the current version (cmd/config-old.go:262), so a pass
  that starts at version 7 or older stops there, and loading finds no aliases: only starts
  at version 8 or 9 keep their hosts loadable (`LoadableExactly`, `EarlyHostIsNotLoaded`).
- The repair of version 6 hosts drops every host that has no scheme and is not one of six
  known names, once it writes at all (`RepairedNamesExactly`, `OtherHostIsDropped`). The rewriting of glob names
  is never reached (`GlobsAreNeverRewritten`).
- The step to version 7 may lose hosts or aliases to names such as "s3" or "cloud0";
  `KeptInEveryOrderExactly` says when it cannot, `HostIsLost` gives a file that loses one.
  `KeptThroughPassExactly` says the same of the whole pass, which also drops demo names.
- A file path of letters before its only "://", or one that starts with "//", does not
  survive `newClientURL` (`FilePathsKeptExactly`, `FilePathsLost`). A joined URL is not read
  back when the added path makes a new "://" (`JoinReparsesExactly`, `JoinsThatBreak`).
- The prefix test of `deleteFile` compares strings, so it can reach a sibling directory
  (`SiblingIsRemoved`); `RemovedOutsideExactly` says when anything outside the base path goes.
- The size display runs past its table above 2^60 bytes (`ShownSize`).
- The least duration of a trace record is wrong after a duration that is not positive,
  unless the last trace has the least one (`ExtremesExactly`, `LeastIsForgotten`).

## Model

| member | source | states |
|---|---|---|
| DirOrder.LessExactly | cmd/client-fs.go:860-872 | the comparator is true path order (directories with a slash) on every pair except two directories where one name continues the other with a byte below the slash; those it leaves unordered |
| DirOrder.InversionNeedsClash | cmd/client-fs.go:860-887 | in a sorted listing any two entries in the wrong order, however far apart, lie between one pair of clashing directories |
| DirWalk.WalkInOrder | cmd/client-fs.go:1025-1076 | without a trap, the files are sent in strictly increasing byte order of full path, for every allowed sort, read errors included |
| WalkExactness.InsertionSortIsGood | cmd/client-fs.go:876-887 | a sort as assumed exists for all slices, even where the comparator is not transitive |
| WalkExactness.TrapOrder | cmd/client-fs.go:876-887 | a listing with a trap has an allowed sort result with the two enclosed entries swapped |
| WalkExactness.WalkOrderExactly | cmd/client-fs.go:859-887 | on trees without an unreadable directory every allowed sort gives files in path order if and only if no directory has two clashing directories around two entries that hold files |
| WalkExactness.PlainNamesHaveNoTrap | cmd/client-fs.go:859-872 | names of bytes above the slash never form a trap |
| WalkExactness.TrapExample | cmd/client-fs.go:859-872 | directories "a" and "a-" with a file each are a trap |
| WalkEvents.ListDir | cmd/client-fs.go:1025-1076 | the recursion sends exactly the events of the walk and says whether to stop |
| WalkEvents.ListDirOpt | cmd/client-fs.go:1013-1089 | the channel gets the walk framed by the entry of the root, and is closed |
| WalkEvents.StopsExactly | cmd/client-fs.go:1026-1051 | a walk stops if and only if a directory it reaches fails with an error other than the tolerated ones, whatever the sort and the option |
| WalkEvents.FirstAndLastExactly | cmd/client-fs.go:1059-1088 | directories first and directories last give the same files and errors in the same order always, and permutations of the same events exactly when no directory below the root is unreadable |
| WalkEvents.NothingAfterStop | cmd/client-fs.go:1044-1088 | after a stopping error only the closing entry of the root follows |
| WalkPlaces.PlacesInWalk | cmd/client-fs.go:1051-1088 | every entry and every failure is sent at most once, and every directory before (or after) everything at or below its path |
| WalkComplete.SendsExactly | cmd/client-fs.go:1013-1089 | read off the tree: without a stop exactly one entry for each file that is reached, one for each directory when they are shown, and one failure with its reason for each directory that is not opened; with a stop, exactly those before it |
| WalkComplete.DeniedIsReported | cmd/client-fs.go:1036-1043 | a denied directory is reported and its neighbours are listed |
| WalkComplete.IncompleteShowsFiles | cmd/client-fs.go:1059-1088 | an incomplete-uploads listing sends no directory entry |
| WalkEvents.RootIsNotFound | cmd/client-fs.go:1013-1035 | listing "/" sends one failure, not found |
| LocalFiles.FileSystem.DeleteFile | cmd/client-fs.go:668-697 | the recursion ends, removes exactly the specified paths and nothing else, and reports the specified error |
| LocalFiles.FailsExactly | cmd/client-fs.go:668-697 | an error is reported if and only if the next path in turn is there, is no directory with contents, and is denied, the root, or a file asked for with a slash |
| LocalFiles.NonEmptyParentIsNoError | cmd/client-fs.go:669-676 | deleting one of two files of the base directory succeeds |
| LocalFiles.DeletionIsChain | cmd/client-fs.go:668-697 | the removed paths are the deleted one and consecutive parents, each empty when removed, each after the first with the base path as prefix, the tree closed throughout |
| LocalFiles.ChainKeepsClosed | cmd/client-fs.go:668-697 | what is left has every parent directory it needs |
| LocalFiles.DeletionIsMaximal | cmd/client-fs.go:664-697 | deletion stops only at an error, outside the base path, at the top, or at a parent that still has contents |
| LocalFiles.DeletionStaysInside | cmd/client-fs.go:686-691 | deleting at or below a clean base path, with or without a slash at its end, removes nothing outside it |
| LocalFiles.RemovedOutsideExactly | cmd/client-fs.go:668-697 | nothing outside goes if and only if nothing goes or the deleted path lies inside; a parent outside goes exactly when the deleted path is outside, its parent has the base as string prefix, and both can be removed |
| LocalFiles.SiblingIsRemoved | cmd/client-fs.go:686-691 | with base "/d/a", deleting "/d/ab/x" removes the directory "/d/ab" |
| PutFile.CheckPathLength | cmd/client-fs.go:404-444 | accepts exactly the paths other than ".", ".." and "/" whose slash-free stretches have at most 255 characters, decoded from UTF-8 |
| PrettyOutput.RunesOfEncoded | cmd/client-fs.go:424-443 | the characters counted are those the bytes of the path spell |
| PutFile.FsClient.Put | cmd/client-fs.go:285-396 | the tree, the count and the error after a call, for every choice of what fails |
| PutFile.FsClient.PutPart | cmd/client-fs.go:553-558 | without a size all is copied; a successful call with a size wrote exactly that many bytes |
| PutFile.CommitsExactly | cmd/client-fs.go:285-378 | when a file is committed, by every choice of the environment, and that it then holds all the data, or the first bytes of the given number |
| PutFile.ParentIsMade | cmd/client-fs.go:287-292 | the directory of the destination is made if and only if what is there on the way is directories and nothing missing is denied |
| PutFile.TempIsBeside | cmd/client-fs.go:311-312 | the temporary file lies in the directory of the destination |
| PutFile.PutIsAtomic | cmd/client-fs.go:285-396 | the destination is as before unless the rename was reached and worked, and then holds exactly the copied bytes; nothing else changes but new directories, and no temporary file stays when its removal works |
| PutFile.SuccessHasSize | cmd/client-fs.go:353-378 | a committed file has the announced size: always when copying by size, otherwise when a positive size was announced |
| PutFile.MadeOnlyAddsAbove | cmd/client-fs.go:292-297 | making missing directories keeps all entries and adds only directories on the way |
| Accounting.Accounter.Read | cmd/accounting-reader.go:182-194 | one uninterrupted read is the four atomic steps run to the end |
| Accounting.Accounter.Stat | cmd/accounting-reader.go:142-151 | the snapshot is given once and the channel never closed twice |
| Accounting.StepKeepsInv | cmd/accounting-reader.go:177-194 | every atomic step of every call keeps the invariant: progress never below what was added up to the total, an excess always about to be lowered |
| Accounting.AllReadsAccounted | cmd/accounting-reader.go:177-194 | every interleaving of any number of reads ends with the bytes read, cut at a positive total |
| Accounting.ProgressDuringRun | cmd/accounting-reader.go:168-194 | at any moment the value shown is between what was added up to the total and what was added, and above the total only while some call still has to lower it |
| Accounting.OvershootExactly | cmd/accounting-reader.go:182-194 | some interleaving shows more than a positive total at some moment if and only if the calls together read more than it |
| Accounting.EveryRunCanFinish | cmd/accounting-reader.go:182-194 | every run can be continued until all calls have returned, within a bounded number of steps |
| Difference.DifferenceInternal | cmd/difference.go:227-391 | after any number of rounds the loop is where the rounds of the model lead |
| Difference.DifferenceExactly | cmd/difference.go:241-388 | on sorted listings without a type clash the loop ends and has sent exactly what is due: entries on one side only, and the reports of the pairs, each once, by increasing key |
| Difference.EndsExactly | cmd/difference.go:320-334 | on sorted listings the loop ends if and only if no key is a regular file on one side only |
| Difference.PairDiffsExactly | cmd/difference.go:335-375 | which reports a pair of the same key gets, by sizes, times and metadata |
| Difference.NoErrorIsSkipped | cmd/difference.go:241-262 | a comparison that finishes met no error, one that fails names one it met; for listings in any order |
| Difference.InvalidAreReported | cmd/difference.go:292-303 | a comparison that finishes has reported every invalid name it read; for listings in any order |
| Difference.ClashRepeats | cmd/difference.go:323-334 | on such a pair every round sends the same report and reads nothing |
| Difference.MarkerClash | cmd/difference.go:286-334 | an object and a directory marker below its URL get the same key and different types, so the comparison never ends |
| Difference.PathOrderIsSorted | cmd/difference.go:286-290 | any listing in path order is sorted under the other URL too |
| DifferenceOrder.ReportsExactly | cmd/difference.go:241-388 | for listings in any order, with different keys and no type clash: of the reports asked for exactly those due are sent if and only if the common keys come in the same order on both sides and every other entry is below the next common key |
| DifferenceOrder.SortedIsAligned | cmd/difference.go:393-395 | sorted listings meet that condition |
| DifferenceOrder.EqualIsAligned | cmd/difference.go:393-395 | a listing and itself meet it in any order |
| DifferenceOrder.SwappedIsMisreported | cmd/difference.go:305-388 | the same two entries in different orders: one is reported as missing on either side |
| HealIndexes.GenerateSetsStatus | cmd/admin-heal.go:233-251 | the index by set has exactly the occurring sets, with total, ready and incapable counts and the used space modulo 2^64 |
| HealIndexes.GenerateServersStatus | cmd/admin-heal.go:254-275 | the index by server lists exactly the disks whose endpoint gives that server, in order, with the pool of the first |
| HealIndexes.OnlineDisksForSet | cmd/admin-heal.go:196-207 | whether a server has a disk of the set, and how many of those are ready |
| HealIndexes.IndexesAgree | cmd/admin-heal.go:232-275 | over distinct servers the online counts of a set add up to at most its ready disks, and over all servers to exactly those when every endpoint parses; ready is total minus incapable |
| HealIndexes.SetsPartitionDisks | cmd/admin-heal.go:233-251 | the totals over all sets add up to the number of disks |
| HealIndexes.ServersPartitionDisks | cmd/admin-heal.go:254-275 | each disk is listed under its own server as often as it occurs and under no other |
| HealTolerance.SetTolerance | cmd/admin-heal.go:301-325 | the inner walk is the greedy count along the order in which the servers came up |
| HealTolerance.ComputePoolTolerance | cmd/admin-heal.go:290-335 | the result is the least greedy count over the sets of the pool for some walks, or the number of servers without a set |
| HealGuarantee.CountsArePlaces | cmd/admin-heal.go:233-251 | the counts of a set are the numbers of its disks, and of those with state "ok" that are not healing |
| HealGuarantee.ToleranceOfDisks | cmd/admin-heal.go:361-373 | from the disks: the tolerance shown is at least every number of servers of which any choice leaves, in every set of the pool, all disks but the parity ready |
| HealGuarantee.DescendingIsSafe | cmd/admin-heal.go:290-335 | from the disks: with descending walks and no set short, such a number is at most the tolerance if and only if it is safe |
| HealGuarantee.AlwaysSafeExactly | cmd/admin-heal.go:290-335 | from the disks: in every order the result is safe if and only if no set is short and the number of stopped servers alone decides |
| HealGuarantee.HoldsExactly | cmd/admin-heal.go:306-315 | the servers counted for a set are those whose first disk is in the pool and that have a disk of the set |
| HealTolerance.GreedyReachesGuarantee | cmd/admin-heal.go:304-325 | in every order the greedy count of a set reaches every number of its servers of which any choice can be stopped |
| HealTolerance.TopServers | cmd/admin-heal.go:304-325 | no choice of servers holds more ready disks than the first ones of a descending walk |
| HealTolerance.DescendingIsExact | cmd/admin-heal.go:304-325 | a descending walk of a set counts exactly the guaranteed numbers |
| HealTolerance.ToleranceReachesGuarantee | cmd/admin-heal.go:290-335 | for all orders the tolerance of a pool is at least every number guaranteed for all of its sets |
| HealTolerance.DescendingToleranceIsExact | cmd/admin-heal.go:290-335 | with descending walks and no set short of ready disks, a number is guaranteed for the pool if and only if it is at most the tolerance |
| HealTolerance.ShortSetGivesZero | cmd/admin-heal.go:313-325 | a set already short of ready disks gives tolerance zero, and nothing is guaranteed for it |
| HealTolerance.RemainingNeverNegative | cmd/admin-heal.go:301-320 | over both indexes of the same disks the remaining count never goes below zero |
| HealTolerance.HoldsInOnePool | cmd/admin-heal.go:306-315 | a server with all disks in its recorded pool counts for exactly the sets it has disks of |
| HealExactness.NeverTooHighExactly | cmd/admin-heal.go:290-335 | no order of the walks makes the result too high if and only if no set is short of ready disks and, for every number, when some servers of that number can be stopped in every set then any can |
| HealExactness.SortedDecides | cmd/admin-heal.go:304-325 | with the servers sorted by online count, any number of them can be stopped when the largest can, and some when the smallest can |
| HealExactness.OrderMatters | cmd/admin-heal.go:290-335 | three disks on two servers with parity one: one order reports a tolerance of one, which is not guaranteed |
| NamedHosts.DecimalInjective | cmd/config-migrate.go:378-379 | different numbers give different decimal names |
| NamedHosts.DecimalIsValue | cmd/config-migrate.go:378-379 | the decimal name of a number has its value, in digits without a leading zero |
| NamedHosts.NameHosts | cmd/config-migrate.go:338-389 | the loops give the entries of the walk in the order met, with the defaults for names not taken |
| NamedHosts.LastClaimWins | cmd/config-migrate.go:338-387 | every entry is that of the last walked host that claims its name by an alias or as its generated name |
| NamesKept.AliasIsKept | cmd/config-migrate.go:339-350 | a safe alias of a listed host has its URL, access key, secret key and API, in every order |
| NamesKept.HostIsPresent | cmd/config-migrate.go:351-387 | with safe aliases every listed host has an entry with its URL, access key, secret key and API, in every order |
| NamesKept.KeptInEveryOrderExactly | cmd/config-migrate.go:338-389 | what is written, defaults included, has all hosts and all aliases of listed hosts in every order if and only if each such alias is safe, a condition on the file |
| NamesThroughPass.KeptThroughPassExactly | cmd/config-migrate.go:323-439 | every pass from a version 6 file leaves all listed hosts and all their aliases if and only if each alias outlasts both steps, a condition on the file: a demo name must name what the default puts back |
| NamesKept.HostIsLost | cmd/config-migrate.go:338-389 | two hosts, one with the alias "cloud0": walked in this order the other is lost |
| NamesKept.DefaultsReplaceNothing | cmd/config-migrate.go:388-389 | loading the defaults adds the missing names and replaces none |
| NamesKept.OwnNameIsKept | cmd/config-migrate.go:351-387 | with no alias named "s3", "gcs" or "cloud" and a number, every host is found under its generated name |
| ConfigMigration.GeneralizeHosts | cmd/config-migrate.go:287-315 | for every order: other hosts keep their entries, S3 hosts become one with the real keys of one of them, examples fill the rest |
| ConfigMigration.S3KeysAreReal | cmd/config-migrate.go:287-315 | the one S3 host has the keys of a listed S3 host, real ones if any has them |
| ConfigMigration.EarlyHostsByField | cmd/config-migrate.go:55-256 | up to version 5 every host keeps its keys, with the API "v4" from version 4 on |
| ConfigMigration.ConfigDir.V1ToV101 | cmd/config-migrate.go:55-107 | aliases and hosts kept, three example hosts added where missing |
| ConfigMigration.ConfigDir.V4ToV5 | cmd/config-migrate.go:224-256 | keys kept, the API of every host becomes "v4" |
| ConfigMigration.ConfigDir.V5ToV6 | cmd/config-migrate.go:260-319 | the generalized hosts, and the gcs alias unless the file had one |
| ConfigMigration.ConfigDir.V6ToV7 | cmd/config-migrate.go:323-397 | the named hosts for some order of the walk |
| ConfigMigration.ConfigDir.V7ToV8 | cmd/config-migrate.go:401-439 | demo names dropped, defaults added, the record stamped with the current version |
| ConfigMigration.ConfigDir.MigrateConfig | cmd/config-migrate.go:31-52 | a completed pass ends at a version no step reads, with the record that the starting one determines up to the order of the map walks, for every starting version; an unread file is untouched; an interrupted one is still readable |
| ConfigRepair.FixGlobs | cmd/config-fix.go:182-258 | a star in a host name of a version 6 file ends the process with the file untouched |
| ConfigRepair.GlobsAreNeverRewritten | cmd/config-fix.go:206-246 | every test for a rewrite needs a star, so no file is ever rewritten |
| ConfigRepair.RepairHosts | cmd/config-fix.go:141-167 | for every order: entries with a scheme and the six known names with theirs, and a change reported exactly when a known name was there |
| ConfigRepair.RepairedNamesExactly | cmd/config-fix.go:149-167 | the names after a writing repair, exactly; hosts without scheme that are not known are dropped |
| ConfigRepair.RepairedHasNoneBroken | cmd/config-fix.go:127-178 | a second repair finds nothing |
| ConfigRepair.RepairAndMigrate | cmd/main.go:239-248 | a start that completes leaves a file no step looks at, what the pass makes of the file, or of the repaired file when hosts were broken; a settled file is left as it is |
| ConfigRepair.StartTwice | cmd/main.go:239-248 | after a completed start a second one completes and leaves the file of the first, whatever its saves would do |
| ConfigRepair.FromVersion6 | cmd/config-migrate.go:323-439 | through the whole pass, with ordinary alias names: each alias of a listed host but the demo names keeps its host's URL, keys and API, and every host has an entry |
| ConfigRepair.FromVersion8 | cmd/config-migrate.go:442-532 | after a pass every host but the three demo names keeps name, URL, keys and API with automatic paths; defaults exactly when none is left |
| ConfigRepair.FromVersion9 | cmd/config-migrate.go:483-532 | after a pass every host keeps name, URL, keys and API; its path is the image of its lookup; the session token is lost; defaults exactly when there was no host |
| AliasStore.Client.LoadConfigV10 | cmd/config-v10.go:113-145 | the cached object itself, or a new one with the aliases of the file |
| AliasStore.Client.SaveConfigV10 | cmd/config-v10.go:148-165 | the cache is set before the file and also when saving fails |
| AliasStore.Client.SaveMcConfig | cmd/config.go:131-149 | a successful save leaves cache, closure and file in agreement; a failed one leaves the file |
| AliasStore.Client.SetAlias | cmd/alias-set.go:158-176 | the file gets the alias through the shared object; on failure the file is as before and the shared object is changed |
| AliasStore.Client.RemoveAlias | cmd/alias-remove.go:95-109 | the file loses the alias, which must exist somewhere |
| AliasStore.Client.Start | cmd/main.go:251-260 | a missing file is written with the defaults, then loaded |
| AliasStore.Client.RunAll | cmd/config-v10.go:113-165 | over any run of loads, sets and removes the cache is the file, every load is the same object showing what a plain map would hold, and only the removal of an unknown alias ends the run |
| AliasStore.LastCallDecides | cmd/alias-set.go:158-176 | after a run a name holds what the last call on it left, and other names are untouched |
| AliasStore.LoadableExactly | cmd/config-migrate.go:31-52 | after a pass over any old file, loading finds aliases if and only if the pass began at version 8 or 9, and then they are its hosts |
| ClientUrls.ParseExactly | cmd/client-url.go:65-134 | a string is an object storage URL if and only if it is http or https, "://", a host without slash or at-sign, and nothing or a path, with no second "://"; the parts are the parts of the URL |
| ClientUrls.ParseThenPrint | cmd/client-url.go:108-190 | printing a parsed object storage URL gives the string or the string with a slash, and parsing that gives the URL |
| ClientUrls.PrintThenParseExactly | cmd/client-url.go:108-190 | parsing the print of a URL gives it back exactly when it is well formed |
| ClientUrls.FilePathsKeptExactly | cmd/client-url.go:108-134 | a path that is no object storage URL is kept exactly when it does not start with "//" and is not letters before its only "://" |
| ClientUrls.FilePathsLost | cmd/client-url.go:108-134 | of "ftp://x/y" and of "//x/y" only "/y" is left |
| ClientUrls.JoinURLs | cmd/client-url.go:137-147 | the first argument gets the joined path in place and keeps its other fields, also when both arguments are the same object |
| ClientUrls.UrlJoinPath | cmd/client-url.go:193-197 | the result is the first string with one slash made sure of, then the second path without one leading slash; it is read back as the join exactly when the second path adds no separator |
| ClientUrls.JoinAssociative | cmd/client-url.go:137-147 | joining paths is associative for all paths |
| ClientUrls.JoinReparsesExactly | cmd/client-url.go:137-197 | a joined URL is read back as the join exactly when the path, less one leading slash, has no "://" and does not go on with a slash after ":/" |
| PrettyFilter.DecodeEncode | cmd/cat-main.go:139-145 | decoding an encoded rune gives it back whatever follows |
| PrettyFilter.EncodeDecode | cmd/cat-main.go:139-145 | a complete sequence is the encoding of what it decodes to |
| PrettyFilter.FilterIdempotent | cmd/cat-main.go:137-147 | filtering the output of the filter changes nothing, for every byte string |
| PrettyFilter.FilterGivesValid | cmd/cat-main.go:137-147 | the output is always valid UTF-8 |
| PrettyFilter.ChunksExactly | cmd/cat-main.go:134-162 | filtering two chunks in turn is filtering them together if and only if no rune lies across the cut |
| PrettyFilter.ValidEndsAtBoundary | cmd/cat-main.go:134-162 | after a chunk of valid UTF-8 no rune lies across the cut, whatever follows |
| PrettyOutput.FilterExactly | cmd/cat-main.go:134-147 | the output is the one valid UTF-8 string whose characters are those of the input, with '^' and '?' for each that cannot be printed |
| PrettyOutput.OutputIsPrintable | cmd/cat-main.go:137-147 | no character that cannot be printed comes out |
| PrettyOutput.UnchangedExactly | cmd/cat-main.go:137-147 | an input comes out unchanged if and only if it is valid and all of it can be printed |
| PrettyOutput.EncodeIsTable | cmd/cat-main.go:142 | the lengths, ranges and bits of the encoding, as in the table of RFC 3629 |
| PrettyOutput.PrettyStdout.Write | cmd/cat-main.go:134-162 | nothing is lost: written and buffered bytes are those before followed by the input as shown; success exactly when all of it was taken |
| HealStats.GetHColCode | cmd/admin-heal-ui.go:53-68 | the first colour whose threshold is not exceeded, and an error exactly outside the table |
| HealStats.ColoursAscend | cmd/admin-heal-ui.go:38-68 | more surplus shards never give a worse colour |
| HealStats.BucketColour | cmd/admin-heal-result-item.go:63-97 | red for an unavailable drive, else yellow for a missing one, else green; grey without drives |
| HealStats.ThresholdsExactly | cmd/admin-heal-ui.go:53-68 | a surplus gets the colour of the first threshold it does not exceed |
| HealStats.AfterColourExactly | cmd/admin-heal-result-item.go:37-130 | the colour counted for an item: by the surplus of its online disks over data blocks or quorum, or by its drives |
| HealStats.UiData.UpdateStats | cmd/admin-heal-ui.go:102-143 | every counter stays the exact count of the items seen that it stands for |
| HealStats.CountersAddUp | cmd/admin-heal-ui.go:102-143 | the histogram of online drives sums to the items scanned, so do colours and errors, and no more is healed than scanned |
| HealStats.UiData.GetPercentsNBars | cmd/admin-heal-ui.go:170-194 | every bar has 12 characters, of which the share in twelfths, rounded up, is filled: none exactly without items of the colour, all exactly above eleven twelfths; every share is that of its colour |
| HealStats.PercentsAddUp | cmd/admin-heal-ui.go:170-194 | the shares of the four colours and of the errors make a hundred percent |
| HealStats.ShownSize | cmd/admin-heal-ui.go:149-168 | the table is overrun exactly above 2^60 bytes; otherwise the number is the size in the unit, rounded down, at most 1024 and zero only for zero bytes |
| TraceStats.StatTrace.Add | cmd/admin-trace.go:1007-1050 | the record of every name stays the fold over its traces; the latest time stays the greatest end, the oldest the first one |
| TraceStats.OldestExactly | cmd/admin-trace.go:1011-1020 | the oldest time shown is the least end exactly when no later trace ended before the first |
| TraceStats.FoldSums | cmd/admin-trace.go:1033-1048 | counts, sums and the greatest time to first byte hold for all traces |
| TraceStats.ExtremesExactly | cmd/admin-trace.go:1024-1032 | the greatest duration is right unless all are negative; the least one exactly when all are positive or the last trace has it |
| TraceStats.RecordsIgnoreOrder | cmd/admin-trace.go:1007-1050 | with positive durations the records do not depend on the order of the traces |
| TraceStats.CountsAddUp | cmd/admin-trace.go:1007-1050 | the counts over all names add up to the number of traces |

## Left out

- Flags, help texts, messages, tables and colours on the terminal: user interface.
- Everything that talks to servers (`madmin`, `minio-go`, HTTP, TLS, credentials): unseen libraries and the network.
- JSON: a configuration is read and written as a typed record. `fixConfigV3` depends on how JSON matches field names and is not part of this model, and neither is `fixConfigLocation`, which acts on Windows only.
- Permissions, ownership, extended attributes, file times, symbolic links and the Windows and macOS branches; a symbolic link in a listing counts as a file.
- `Watch`, `listRecursiveInRoutine`, `listInRoutine` and `listPrefixes`: they depend on an external walker or are single loops over a listing.
- `clusterSummaryInfo`, `arg-kvs.go`, permission tables: easier than what is here.
- Clock readings and rates: speed, durations of transfers and of heals.
- Accounting.AllReadsAccounted: asks that the buffer lengths sum to less than 2^63, since the 64-bit counter wraps beyond that.
- Accounting.Accounter.Read: `SetTotal` and `Set` by other callers during a run are not among the steps; the total is fixed while reads run.
- Accounting.Accounter.Stat: the speed and the duration of the snapshot, which are clock readings.
- DirWalk.WalkInOrder: paths are joined with one slash, as `filepath.Join` does for the clean absolute paths the client is built with.
- WalkExactness.InsertionSortIsGood: for insertion sort, which `sort.Sort` uses on at most 12 entries. That longer slices come out without neighbours in the wrong order is assumed; where no two directories of a listing clash the comparator is a strict total order, and this says only that sorting sorts.
- WalkExactness.WalkOrderExactly: the direction that finds a bad order is for trees without a directory that stops the walk; the other direction, WalkInOrder, has no such condition.
- WalkEvents.ListDirOpt: size, time and mode of an entry are not in its event.
- LocalFiles.FileSystem.DeleteFile: the remover's refusals are a set of paths, since each path is tried at most once; the results sent by `Remove` are left out.
- PutFile.FsClient.Put: `put` and `putN` share one body here, told apart by their copy and their size check.
- Difference.DifferenceInternal: the key of an entry, its URL under the target in normal form, and whether its name is UTF-8 are fields of the entry; the comparisons of times and metadata are parameters. Pairs without a difference are reported on request, which no caller makes (cmd/difference.go:177, 224).
- Difference.DifferenceExactly: for sorted listings without errors and with valid names; an error ends the loop at once, and an invalid name is reported by itself only while both sides last.
- DifferenceOrder.ReportsExactly: for listings without errors, invalid or repeated names; when the comparison ends with the source, reports of entries that only the target has are not counted.
- HealTolerance.ComputePoolTolerance: the walk is cut into one method for each loop.
- HealStats.UiData.UpdateStats: the counters do not wrap at 64 bits, and the online counts are those the result reports; colours before healing matter only through their error.
- HealStats.UiData.GetPercentsNBars: exact arithmetic instead of floating point.
- HealStats.ShownSize: exact arithmetic; in floating point the limit moves by the rounding of 2^60.
- TraceStats.StatTrace.Add: sums do not wrap at 64 bits; a time is a number with 0 for the zero time, and the mutex is left out.
- PrettyFilter.PrettyStdout.Write: which runes are printable or space is a parameter; the proofs need only that '^' and '?' are.
- AliasStore.Client.RemoveAlias: aliases from the environment are one flag; the lock around the configuration and the checks of URLs and API names are left out.
- ConfigMigration.ConfigDir.Save: a failed save leaves the file as it was; what the library does to the file when it fails is unseen.
