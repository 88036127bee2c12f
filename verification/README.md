# containerware: a verified model

containerware is an application server in C. Listener threads accept FastCGI requests and route
each to the least loaded worker of a host; every worker is a thread with a bounded queue of
requests. Requests are reference counted and shared between the threads. The server is configured
from an INI file. This project models that code in Dafny and proves what it keeps, over every
interleaving and every history where that is the point.

| files | what they model |
|---|---|
| `Workers`, `Pool`, `PoolSafety`, `PoolTheorems` | the worker pool as a transition system: its steps are the regions that a lock protects; any number of listeners, workers and requests |
| `WorkerHosts` | the same per-worker regions on a real array |
| `References` | reference counts, and the release cascade from request to endpoint to server |
| `Slots`, `PtrLists`, `Registries`, `Dispatch`, `PoolDispatch` | the growing pointer lists, the name registries on them, the choice of a worker, and what it means for the pool |
| `Tables`, `EntryLists`, `Dictionaries` | the dictionary: on values, as the list of its entries, and as three parallel arrays with cached hashes |
| `CStrings`, `IniLines`, `IniValues`, `IniFiles`, `IniSections`, `IniLayout`, `IniRoundTrip`, `IniExact` | the INI reader and printer, and when one undoes the other |
| `ConfigTables`, `Configs`, `LoadedFiles`, `LoadedViews`, `LoadedOrder`, `LoadedSections` | the configuration layers, and what the loops over a loaded and layered file see |
| `RequestPaths` | the request path: splitting, percent-decoding in place, handing out segments |
| `Headers`, `Responses`, `ResponseRuns`, `HeaderBlocks`, `ResponseTexts` | the response headers and the output of a request |

Code that changes fields or buffers is a class or a method here, proved against a function on
values; the theorems are about these functions and about every run of them.

Where the code differs from what it is evidently for, the model follows the code, and the exact
condition under which the intended property holds is proved:

- `worker.c:281` copies to the address of the field `requests` instead of the array. The model
  removes the head of the queue, which is what the lines around it assume.
  `CopyAsWrittenKeepsBuffer` says when the statement as written leaves the field alone: exactly for
  a queue of one request.
- A worker that ends itself after a spurious wakeup, or is stopped, still accepts requests that are
  never served (`SpuriousWakeupEndsAWorker`, `ZombieKeepsItsQueue`).
- `config_foreach_container` does not always call back in the order of the section lines
  (`CalledInFileOrder`, with the file of `OvertakingIsCalledOutOfOrder`).
- `cw_request_headers_send` reads `r` before it is set if the first header listed has no values
  (`BlockIsComplete`, `BlockCanVanish`).
- Registered names are stored in 48 bytes and longer ones are cut (`RegisteredIsLocated`).
- A dictionary that was printed and loaded again is not always the same: values must be stripped,
  keys clean, and lines short, for instance. `SectionLineReadsBack` and `EntryLineReadsBack` give
  the condition for a line, `RoundTripExact` for every dictionary: it comes back iff it is empty or
  `WellFormed`. No file with a container section does: its name has a colon, and such names are not
  listed as sections (`ColonNameIsLost`, `ContainersAreLost`). An empty section name comes back in
  front of the others only (`EmptySectionComesFirst`, `EmptySectionOnlyFirst`).
- A value added to a key that is present is hidden behind the old one, but not if a hole is before
  it (`LookupAfterAdd`, `PackedHidesAddition`, `AdditionInFront`).
- `iniparser_load` returns a dictionary even if lines had syntax errors, as long as a later line
  stores something (`ErrorsOfFile`).
- `host_set_minworkers` ignores a request between the minimum and the number of active workers
  (`SetMinWorkers`).

## Model

| member | source | states |
|---|---|---|
| PoolSafety.InvPreserved | worker.c:269-318 | every step any thread can take, at any point of any other thread's region, keeps the invariant of counts, queues, locks and endpoints |
| PoolSafety.ReachableInv | listener-endpoint-thread.c:26-68 | the invariant holds after every run from the initial state, with any number of listeners, workers and requests |
| PoolTheorems.CountsInEveryRun | libcontainer/refcount.c:9-31 | in every run a request's count is the number of its holders, at most two; outside the regions that move it, its listener's hold plus the queue slots that hold it; it is finished once, by the release that reaches zero |
| PoolTheorems.NothingFreedInUse | endpoints/fcgi/request.c:80-97 | in every run no thread uses a freed request, releases a zero count or shifts an empty queue, and no freed request is queued, current or being routed |
| PoolTheorems.EndpointsOutliveTheirRequests | endpoints/fcgi/endpoint.c:79-99 | in every run an endpoint's count is its listener's reference plus one per live request |
| PoolTheorems.ProcessedAtMostOnce | listener-endpoint-thread.c:26-68 | in every run a request is on at most one queue, at one position, once |
| PoolTheorems.FirstInFirstOut | worker.c:275-302 | in every run what a queue took in is what its worker finished followed by what is queued; the bound holds; a running worker works on the head |
| PoolTheorems.RefusedIsFreed | listener-endpoint-thread.c:26-68 | a request refused by a full queue changes no worker and no count, and its listener's release that follows is the last one: it is freed, once |
| PoolTheorems.NoLostWakeup | worker.c:185-311 | in every run a worker that waits without a pending signal has an empty queue; without spurious wakeups a signalled one finds a request and none ends itself |
| PoolTheorems.SelfStopNeedsEmptyQueue | worker.c:296-311 | in every run, with spurious wakeups or without, a worker that has ended itself has had a wakeup that found its queue empty |
| PoolTheorems.SpuriousWakeupEndsAWorker | worker.c:296-311 | wherever a worker waits without a signal, one spurious wakeup ends it |
| PoolTheorems.ZombieKeepsItsQueue | worker.c:168-188 | a stopped worker never runs again, and what is or gets queued on it stays there in every continuation |
| PoolTheorems.QueueRegion | worker.c:168-188 | the steps of queueing, taken together, are what the array code does: nothing for a full queue; else the request at the end of it, one more reference, and a signal to a waiting worker |
| PoolTheorems.RequestRegion | worker.c:269-302 | the three steps of finishing a request and taking the next, taken together, are what the array code does, with its reply and with one release of the finished request |
| PoolDispatch.RefusedOnlyUnderLoad | worker.c:115-188 | in every run, however the unlocked scan interleaves with it: if the worker picked refuses the request, each IDLE or RUNNING worker had, when it was read, 32 requests less those queued on the one picked since; if these are fewer than 32, the host may have no more workers |
| PoolDispatch.RefusedOnlyIfAllFull | worker.c:115-188 | so if nothing was queued on it in between, the queue of every IDLE or RUNNING worker was full when it was read, and the host had all the workers it may have |
| PoolDispatch.NewWorkerRefuses | worker.c:158-188 | a worker created for a request refuses it only after 32 others were queued on it |
| WorkerHosts.WorkerHost.QueueRequest | worker.c:168-188 | the array takes the request behind the others, or refuses and stays as it is when it is full |
| WorkerHosts.WorkerHost.ShiftLeft | worker.c:275-285 | the shifting loop removes the head and keeps the order of the rest |
| WorkerHosts.WorkerHost.NextRequest | worker.c:269-296 | the finished head is dropped and released, its endpoint and server with it if the count reaches zero; then a ZOMBIE is refused, an empty queue waits IDLE, and else the head is delivered and the worker RUNNING |
| WorkerHosts.WorkerHost.Resumed | worker.c:296-318 | after a wakeup the worker takes the head, or becomes a ZOMBIE on an empty queue |
| WorkerHosts.WorkerHost.Start | worker-thread.c:22-50 | EMPTY to IDLE before the container's worker runs; without one, ZOMBIE with status 255 at once |
| WorkerHosts.WorkerHost.Exit | worker-thread.c:22-50 | ZOMBIE after it has run, with the queue as it is |
| WorkerHosts.CopyAsWrittenKeepsBuffer | worker.c:281-281 | the statement as written leaves the field alone iff the queue holds one request |
| References.CountsExactly | libcontainer/refcount.c:9-31 | a release always undoes an addref; the wrapping counters count exactly iff they do not leave their range |
| References.Request.Release | endpoints/fcgi/request.c:80-97 | the release that reaches zero, and no other, finishes the connection and drops the endpoint, and through it perhaps the server |
| References.Request.constructor | endpoints/fcgi/request.c:43-72 | a request takes the connection out of the endpoint and retains the endpoint |
| References.Endpoint.Release | endpoints/fcgi/endpoint.c:85-99 | the release that reaches zero, and no other, frees the endpoint and drops the server |
| References.Endpoint.Process | endpoints/fcgi/endpoint.c:127-147 | an accepted connection is kept for the next acquire; a failed accept keeps none |
| References.Endpoint.Acquire | endpoints/fcgi/endpoint.c:149-165 | hands the kept connection to a new request with one reference, once |
| References.Server.Release | endpoints/fcgi/server.c:56-75 | the release that reaches zero frees the server |
| PtrLists.HistoryIsMultiset | ptrlist-impl.h:85-153 | over every history of adds and removes the slots hold the multiset it describes and the allocation is a multiple of the block size |
| PtrLists.GrownHasRoom | ptrlist-impl.h:85-124 | after the growth check a slot is empty: the path after the scan cannot be reached |
| PtrLists.AddedPacked | ptrlist-impl.h:85-124 | in an add-only list the entries are the first slots, in the order added |
| PtrLists.PtrList.Grow | ptrlist-impl.h:85-124 | a full list grows by one block of empty slots and keeps its entries |
| PtrLists.PtrList.AddUnlocked | ptrlist-impl.h:85-124 | the item goes to the first empty slot of the grown list; the count follows |
| PtrLists.PtrList.RemoveUnlocked | ptrlist-impl.h:137-153 | the first slot that holds the item is emptied; without one nothing changes |
| Registries.RegisteredIsLocated | container.c:23-95 | a registration is found again under its name, and refuses a second one, iff the name has at most 47 bytes |
| Registries.RegisteredKeepsOthers | container.c:23-95 | it changes what is found under no other name than the one stored |
| Registries.Registry.Register | server.c:22-58 | the loop over all slots refuses exactly the names that are located already; the reference taken first is given back then |
| Registries.Registry.Locate | container.c:74-84 | the look-up of both registries: the loop over the first `count` slots misses no entry |
| Registries.Registry.LocateContainer | container.c:66-95 | the container registered under the name, with one more reference; NULL and -1 exactly without one |
| Registries.Registry.EndpointFor | server.c:65-98 | a new endpoint with one reference on the server registered under the scheme; -1 and none exactly without a scheme, a server or a socket the server can open, and then no reference is taken |
| Dispatch.Host.FindWorker | worker.c:121-161 | a worker that is IDLE or RUNNING, with the fewest requests of all that are, and the first of those; none iff no worker is, or each has requests and more workers are allowed |
| Dispatch.Host.Locate | worker.c:115-162 | that worker and no change, or else a new one; the count of active workers stays the length of the list |
| Dispatch.Host.Create | worker.c:42-108 | one more active worker in the list, or no change |
| Dispatch.MinWorkersReached | host.c:105-135 | the count never falls, and never rises above maxchildren or the request; a clamped request above minchildren and the count is reached exactly if every needed creation succeeds |
| Dispatch.Host.SetMinWorkers | host.c:105-135 | clamps the request to maxchildren; minchildren becomes it if it is lower, or if it is above both minchildren and the active workers, and only then the workers missing are created, whichever creations fail; else nothing changes |
| Dictionaries.DictionaryHash | iniparser/src/dictionary.c:88-104 | the loop computes the hash in 32-bit wrapping arithmetic over sign-extended bytes |
| Dictionaries.HashValues | iniparser/src/dictionary.c:88-104 | what the hash is of the empty key, of "a" and of a byte above 127 |
| Dictionaries.MemDouble | iniparser/src/dictionary.c:38-49 | a block of twice the size: the old contents, then zeros |
| Dictionaries.Dictionary.FindSlot | iniparser/src/dictionary.c:175-193 | comparing hashes first finds the slot that comparing strings finds, duplicates included |
| Dictionaries.Dictionary.Get | iniparser/src/dictionary.c:175-193 | the value of the first slot with the key, NULL included; the default only for an absent key |
| Dictionaries.Dictionary.Grow | iniparser/src/dictionary.c:249-262 | doubling keeps every slot and its hash |
| Dictionaries.Dictionary.FindFree | iniparser/src/dictionary.c:263-268 | the wrapping scan ends, at the first free slot along it, whatever the holes |
| Dictionaries.Dictionary.Insert | iniparser/src/dictionary.c:288-325 | the new entry is in a slot that was free; all others are kept |
| Dictionaries.Dictionary.Set | iniparser/src/dictionary.c:221-275 | the arrays follow the table operation whose lookups LookupAfterSet describes |
| Dictionaries.Dictionary.Add | iniparser/src/dictionary.c:288-325 | a NULL value is refused; otherwise there is one more entry |
| Dictionaries.Dictionary.Unset | iniparser/src/dictionary.c:338-373 | the first slot with the key becomes a hole |
| Tables.HistoryIsMap | iniparser/src/dictionary.c:221-373 | over every history of set and unset, through any doublings, the keys stay distinct, the entries are as many as the map's, and every lookup answers what the map answers |
| EntryLists.HistoryIsPacked | iniparser/src/dictionary.c:221-325 | over every interleaving of set and add, through any doublings, the entries are the first slots: an addition at the end, a set in the place of the first entry of its key, or at the end for a new one |
| Tables.LookupAfterSet | iniparser/src/dictionary.c:221-275 | a set key reads as its value, every other key as before |
| Tables.LookupAfterAdd | iniparser/src/dictionary.c:288-325 | an added value is read iff its key was absent or the wrapping scan stops in front of the key's first slot; every other look-up is as before |
| Tables.PackedHidesAddition | iniparser/src/dictionary.c:288-325 | without holes a key that is present always hides the addition |
| Tables.AdditionInFront | iniparser/src/dictionary.c:311-316 | a table with a hole in front, where the addition hides the old value |
| Tables.LookupAfterUnset | iniparser/src/dictionary.c:338-373 | other keys are untouched; the key is gone iff no later slot had it |
| Tables.GrownHasRoom | iniparser/src/dictionary.c:249-268 | after the growth check a slot is free, by pigeonhole |
| Tables.FreeSlotIsFirst | iniparser/src/dictionary.c:263-268 | the scan passes only occupied slots before it stops |
| Tables.AddPacked | iniparser/src/dictionary.c:288-325 | without unset, entries are the first slots in insertion order, through all growth |
| Tables.SetPacked | iniparser/src/dictionary.c:221-275 | setting keeps this: in place for a present key, at the end for an absent one |
| CStrings.Strlwc | iniparser/src/iniparser.c:44-58 | lower case of at most the buffer's length |
| CStrings.CaseTable | iniparser/src/iniparser.c:44-58 | tolower: each of the 26 letters by its table, and nothing else changes |
| CStrings.SpaceTable | iniparser/src/iniparser.c:74-92 | isspace: the six characters of the C locale |
| CStrings.StrLwcFixed | iniparser/src/iniparser.c:44-58 | a key survives strlwc iff it is in lower case and fits |
| CStrings.Strstrip | iniparser/src/iniparser.c:74-92 | the text without the spaces around it |
| CStrings.StripFixed | iniparser/src/iniparser.c:74-92 | stripping changes nothing iff no space is at either end |
| CStrings.StripAround | iniparser/src/iniparser.c:74-92 | spaces put around a stripped text are what stripping takes away |
| IniLines.SectionLineReadsBack | iniparser/src/iniparser.c:574-580 | a printed section line reads as its section iff the name is stripped, in lower case and without ']'; with an empty name iff the buffer holds spaces only |
| IniLines.EntryLineReadsBack | iniparser/src/iniparser.c:581-609 | a printed entry reads as its key and value iff the key is clean, no comment starts in the value, its quotes do not count, and the line is no section |
| IniLines.ParsedKeyIsClean | iniparser/src/iniparser.c:581-607 | every key read is stripped, in lower case and without '=' |
| IniLines.SectionsHaveNoBracket | iniparser/src/iniparser.c:574-580 | no section name read contains ']', even where an empty header keeps the buffer |
| IniValues.QuotedValueIsRead | iniparser/src/iniparser.c:581-595 | a value in quotes of either kind reads as the stripped text between them, comment characters included; only two quotes of the other kind read as nothing |
| IniValues.UnclosedQuoteIsRead | iniparser/src/iniparser.c:581-595 | a quote that is not closed counts as well, unless only spaces follow it |
| IniValues.PlainValueIsRead | iniparser/src/iniparser.c:581-595 | a value without quotes reads as the text up to the first ';' or '#', stripped; two quotes of one kind as nothing |
| IniValues.EmptyValueIsRead | iniparser/src/iniparser.c:596-607 | nothing or a comment behind the '=' is the empty value |
| IniValues.CommentIsRead | iniparser/src/iniparser.c:569-573 | a line that starts with '#' or ';' is a comment, with '=' or without; a line of spaces is empty |
| IniValues.SectionIsRead | iniparser/src/iniparser.c:574-580 | a line between brackets is the section up to the first closing one, stripped and in lower case; "[]" keeps the buffer |
| IniValues.ErrorIff | iniparser/src/iniparser.c:608-611 | any other line is an error iff it has no '=' or nothing in front of it |
| IniFiles.IniparserLoad | iniparser/src/iniparser.c:629-730 | the loop over physical lines loads the text, continuations included; NULL exactly after a line that does not fit or if the error count ErrorsOfFile describes is not zero |
| IniFiles.ReadLine | iniparser/src/iniparser.c:663-676 | one fgets and the check behind it let a line pass iff it fits the rest of the buffer, and then have read all of it |
| IniFiles.ContinuationJoins | iniparser/src/iniparser.c:677-692 | a line that ends with a backslash, spaces behind it or not, and the next one load as one line, in comments too |
| LoadedFiles.ErrorsOfFile | iniparser/src/iniparser.c:690-723 | a file that can be read gives a dictionary iff every line with a syntax error has a later line that stores something |
| IniFiles.TrimRight | iniparser/src/iniparser.c:678-683 | the backward loop removes exactly the trailing spaces |
| IniSections.GetString | iniparser/src/iniparser.c:368-379 | the first binding of the lower-case key, NULL included; the default only for an absent one |
| IniSections.SetString | iniparser/src/iniparser.c:525-528 | sets the lower-case key |
| IniSections.FindEntry | iniparser/src/iniparser.c:500-510 | true iff a slot has the lower-case key |
| IniSections.GetNSec | iniparser/src/iniparser.c:112-127 | the number of colon-free entries |
| IniSections.GetSecName | iniparser/src/iniparser.c:143-163 | the n-th colon-free key in slot order, NULL outside the range |
| IniSections.GetSecNKeys | iniparser/src/iniparser.c:278-301 | the number of entries with the section's prefix, 0 for a section that is absent |
| IniSections.GetSecKeys | iniparser/src/iniparser.c:317-351 | exactly their keys in slot order, filling the array without overrun |
| IniSections.DumpSectionIni | iniparser/src/iniparser.c:244-268 | appends the section's text: its line, and a line for each entry in slot order |
| IniSections.DumpIni | iniparser/src/iniparser.c:206-230 | the text of all sections in slot order, or the plain list without sections |
| IniLayout.SectionLayout | iniparser/src/iniparser.c:244-268 | character by character: an empty line, the name in brackets, for each entry its key, blanks up to column 30, " = " and its value, and an empty line |
| IniLayout.DumpLayout | iniparser/src/iniparser.c:206-230 | the sections that are found, in order, and an empty line; without sections "key = value" for each entry |
| IniRoundTrip.ViewsPartition | iniparser/src/iniparser.c:112-301 | if every entry is a section, once, or under one: n is the number of sections plus the entries of each; the counts of iniparser_getsecnkeys add up to it iff each section is found under its name, as a stripped lower-case one is |
| IniRoundTrip.RoundTrip | iniparser/src/iniparser.c:206-730 | loading the printed text of a well-formed dictionary, keys that repeat included, succeeds, binds every key alike, shows the same sections with the same entries in order, and prints as the identical text |
| IniRoundTrip.ReloadedBindings | iniparser/src/iniparser.c:663-723 | every key, present or not, is bound after loading as before printing: to its first value, or to NULL for a section |
| IniRoundTrip.ReloadedViews | iniparser/src/iniparser.c:278-351 | sections and the entries of each section keep their order |
| IniExact.RoundTripExact | iniparser/src/iniparser.c:206-730 | a dictionary, whatever is in it, comes back iff it is empty, or well-formed: it has sections, each once, every section line and every entry is printable, and every entry is under a section |
| IniExact.ColonNameIsLost | iniparser/src/iniparser.c:112-230 | an entry without a value whose name has a colon never comes back |
| LoadedSections.ContainersAreLost | config.c:113-145 | so what a file with a container section loads to never comes back from its own dump |
| IniExact.LeadingSpaceIsLost | iniparser/src/iniparser.c:581-607 | a value with a space in front does not come back |
| IniExact.EmptySectionComesFirst | iniparser/src/iniparser.c:574-580 | an empty section name in front of the others does |
| IniExact.EmptySectionOnlyFirst | iniparser/src/iniparser.c:574-580 | behind another section it does not |
| ConfigTables.LayersResolve | config.c:78-88 | each key is its override, else its first binding in the file; if that is NULL or absent, its default if it has one |
| ConfigTables.CopyPreserves | config.c:198-213 | the copy has the same entries in the same order iff no hole is before an entry and keys are distinct, in lower case and short |
| ConfigTables.CountBoundSeesAll | config.c:209-212 | a loop that ends at n sees all entries iff no hole is before an entry |
| ConfigTables.LayerKept | config.c:166-179 | whatever is set, the keys of a layer stay distinct, in lower case and in front |
| LoadedSections.ConfigOfFile | config.c:68-98 | the same told by the lines of the file: the override; else the first value line unless a section line has the name; else the default; else NULL for a section or a NULL override, and nothing otherwise |
| ConfigTables.TitleIs | config.c:120-145 | a name is found exactly in the keys that are "container", spaces, ':', spaces and that name, which is not empty and does not start with a space |
| Configs.ApplyOverrides | config.c:78-81 | the loop sets every override, in order |
| Configs.ApplyDefaults | config.c:82-88 | the loop sets every default whose key reads as NULL at its turn |
| Configs.CopyDict | config.c:198-213 | a fresh dictionary with the entries CopyPreserves describes |
| Configs.LoadModules | config.c:217-235 | hands over every non-NULL value under modules:module in slot order; -1 without a configuration |
| Configs.ContainerTitle | config.c:120-145 | the pointer loops find a name exactly in these keys, and that name |
| Configs.CollectSection | config.c:146-159 | the dictionary of a section is filled from every entry behind it with its prefix |
| Configs.ForeachContainer | config.c:101-164 | the names and dictionaries handed to the callback, in order; -1 without a configuration |
| Configs.Config.Load | config.c:68-98 | the layered table replaces both layers; if the file gives no dictionary both layers are kept |
| Configs.Config.Set | config.c:166-170 | an override before loading, a change of the configuration after it |
| Configs.Config.SetDefaultValue | config.c:173-185 | a default before loading; after it, a change only where the key reads as NULL |
| Configs.Config.Get | config.c:188-195 | the caller's default only for a key absent from the configuration, or before loading from the defaults |
| LoadedFiles.LoadedTable | iniparser/src/iniparser.c:692-716 | the table of every file is determined by its section and value lines, without holes; every value line is under the section last named; every key survives strlwc |
| LoadedViews.EntriesOfKey | iniparser/src/iniparser.c:697-704 | the entries of a key are its lines in file order, duplicates included; a section line of that name puts one NULL first, in the place of a value stored before it; an override or default replaces the first value or is the only one |
| LoadedViews.NullEntries | iniparser/src/iniparser.c:697-704 | a NULL entry is the first of its name; a key has one, and reads as NULL, iff its last section line or setting is NULL |
| LoadedViews.PutKeepsNullsFirst | config.c:166-170 | changes after loading keep NULL entries first |
| LoadedViews.LayeredStores | config.c:68-98 | the layered table is that of the file's lines followed by the overrides and the defaults that apply |
| LoadedOrder.CalledOncePerSection | config.c:113-162 | for every file, with overrides and defaults: one call for each container section, in the order in which a line or setting first stores its name |
| LoadedOrder.CalledOnce | config.c:113-162 | no section is called for twice, whatever was set after loading |
| LoadedOrder.CalledInFileOrder | config.c:113-162 | the calls follow the order of the section lines, with NULL settings behind them, iff no value line stores a later section's name ahead of an earlier section |
| LoadedSections.OvertakingIsCalledOutOfOrder | config.c:113-162 | a file of four lines whose sections are called in the opposite order |
| LoadedSections.StoredBehindSection | iniparser/src/iniparser.c:697-704 | every value line under a section has its entry behind that of the section |
| LoadedSections.DictOfSection | config.c:146-159 | the section's dictionary, for every key: the last value stored under section:key if an entry was added for it behind the section's, and otherwise nothing |
| LoadedSections.ContainersOfConfig | config.c:101-164 | for every file, overrides and defaults: one call for each container section, in that order, with a dictionary that holds exactly these keys |
| LoadedSections.ModulesOfConfig | config.c:217-235 | for every file, overrides and defaults: the values visited are those of modules:module in file order; an override, a default or a section line of that name changes at most the first |
| LoadedSections.FileBinding | iniparser/src/iniparser.c:368-379 | a key is absent without lines of its name, reads as NULL if a section line has it, else as its first value line |
| RequestPaths.DecodeInPlace | libcontainer/endpoint.c:319-333 | decoding in the buffer gives the one-pass decoding that DecodeReads describes: finished bytes and decoded rest are one constant text, and the rest shrinks |
| RequestPaths.DecodeReads | libcontainer/endpoint.c:319-333 | each of the 256 bytes is read from its two digits in the tables, in either case; a '%' without two digits stands for itself |
| RequestPaths.ReplaceEscape | libcontainer/endpoint.c:325-330 | an escape becomes the byte its digits have in the tables, and the tail moves up behind it, terminator included |
| RequestPaths.DecodeChangesEscapesOnly | libcontainer/endpoint.c:321-331 | a text is its own decoding iff no '%' in it is followed by two hexadecimal digits |
| RequestPaths.DecodeSegment | libcontainer/endpoint.c:315-335 | the segment stored is the decoding cut at its first NUL |
| RequestPaths.EscapedNulEndsSegment | libcontainer/endpoint.c:319-335 | "%00" ends a segment, whatever follows it |
| RequestPaths.RequestInfo.Segments | libcontainer/endpoint.c:281-343 | the loops over the path give the decoded segments, without empty ones and without the query |
| RequestPaths.RequestInfo.Consume | libcontainer/endpoint.c:384-403 | the first parameter moves to the end of the current array; both together stay the request |
| RequestPaths.RequestInfo.Peek | libcontainer/endpoint.c:406-420 | what the next Consume returns |
| RequestPaths.PathRoundTrip | libcontainer/endpoint.c:281-347 | any escaping, by the tables of the digits in either case, of any non-empty NUL-free segments, with any slashes around them and any query, gives back exactly the segments |
| RequestPaths.EscapedEncodes | libcontainer/endpoint.c:319-333 | escaping just '%', '/' and '?' is such an escaping, for every segment |
| Headers.StatusLineRead | libcontainer/endpoint.c:247-266 | three digits, with or without a space and a reason, are read as that status |
| Headers.StatusIs | libcontainer/endpoint.c:247-266 | a value is accepted as a status exactly if it is spaces, perhaps a plus sign, zeros, the three digits of a number from 100 to 999, and then the end or a space |
| Headers.ValuesAfterSet | libcontainer/endpoint.c:115-186 | names that differ in case are one name; setting replaces or appends there and nowhere else; a refusal changes nothing |
| Headers.SetKeepsSound | libcontainer/endpoint.c:115-186 | there stays exactly one status value, and its number is the cached status |
| Headers.KeysSent | libcontainer/endpoint.c:201-245 | with a callback that never stops, all lines in listing order, or none if r starts as -2 and the first header listed is empty |
| Headers.SentInChunks | libcontainer/endpoint.c:201-245 | for any callback: the headers are sent in the order listed, each value in order up to the first negative answer; -2 ends the sending, -1 goes on to the next header |
| Headers.StopsAtMinusTwo | libcontainer/endpoint.c:232-241 | no call follows one that returned -2 |
| Responses.HeaderHash.Set | libcontainer/endpoint.c:115-186 | the step-by-step writes to the hash are the setting ValuesAfterSet describes; -1 exactly for a status that is none, and for appending NULL to another header |
| Responses.HeaderHash.SetStatus | libcontainer/endpoint.c:247-266 | caches the status iff the value is one that StatusIs describes, and refuses it otherwise |
| Responses.HeaderHash.Send | libcontainer/endpoint.c:201-245 | the nested loops make the calls KeysSent and StopsAtMinusTwo describe, for any callback |
| Responses.FcgiRequest.SetHeaderLine | endpoints/fcgi/request.c:150-161 | an error exactly after the headers are sent, and then no change |
| Responses.FcgiRequest.WriteHeader | endpoints/fcgi/request.c:183-195 | puts the name, ": ", the value and a newline, and adds their length to wbytes |
| Responses.FcgiRequest.WriteBody | endpoints/fcgi/request.c:163-181 | the first write puts the header block and a newline before its body, of which the bytes taken are put out; wbytes stays the length of the output |
| ResponseRuns.AlwaysSound | libcontainer/endpoint.c:188-266 | in every run there is one status value and its number is the cached status in 100..999 |
| ResponseRuns.OutputOfRun | endpoints/fcgi/request.c:150-181 | over every run the output is empty, or the block of the headers as they were at the first write and the bodies in order; wbytes is its length |
| HeaderBlocks.EachValueOnce | libcontainer/endpoint.c:201-245 | whatever the listing order, the lines carry each stored value once, in order, and one status line |
| HeaderBlocks.BlockIsComplete | libcontainer/endpoint.c:201-245 | the block has all lines iff not both r starts as -2 and the first header listed is empty; otherwise it has none |
| HeaderBlocks.NoResetIsComplete | libcontainer/endpoint.c:201-245 | a run that resets no header before its first write cannot meet that case |
| HeaderBlocks.BlockCanVanish | libcontainer/endpoint.c:208-241 | a run whose output lacks even the status |
| HeaderBlocks.ValuesOfRun | endpoints/fcgi/request.c:150-161 | until the first write, the values under a name, the status included, are those accepted and appended since it was last replaced |
| HeaderBlocks.ResponseOfRun | endpoints/fcgi/request.c:150-195 | every run, except where BlockIsComplete says the block vanishes, puts out the lines, a newline and the bodies; the lines of each name are the values given before the first write, once and in order, and one of them is the cached status |
| ResponseTexts.ResponseReadsBack | endpoints/fcgi/request.c:150-195 | reading the bytes of such a response line by line, if no name has a ':' and no text a newline, gives back the values of every name in order, each name as last spelled, one status, and behind an empty line the bodies |

## Left out

- The jsondata, liburi and FCGX libraries: hashes and arrays are maps and sequences, the order of `jd_keys` is any order, the output stream is the string of bytes it has taken, and the parsed URI object is not part of this model.
- Allocation failure and the overflow of `int` sizes, including the dictionary that a failed `mem_double` leaves broken.
- Race freedom of `container_register` and `server_register`: the duplicate check and the addition are two critical sections, so registration is modelled as sequential.
- Liveness, fairness and the bound `active <= maxchildren`: a stopped worker can be handed requests, and workers that have not started are skipped when the bound is checked.
- PoolTheorems.CountsInEveryRun: counts are unbounded in the pool; References models their 64-bit wrap-around and says when it does not matter.
- Pool.Enabled: lets a listener be given any worker, which covers every choice; Dispatch proves which one `worker_locate` makes on a list that does not change meanwhile, and PoolDispatch what follows in the pool if each slot is read at one moment of its own.
- The reference counts of the server object, of containers and of hosts in the pool's steps; the server's are in References.
- IniFiles.IniparserLoad: says nothing for a file with a line of spaces only, where the source reads before its buffer, or with a section and key that together exceed the buffers.
- RequestPaths.RequestInfo.Peek: models `cw_request_info_vpeek`; its wrapper `cw_request_info_peek` tests the wrong field.
- Responses.FcgiRequest.WriteBody: a failing stream takes no bytes of the body, and the header block is always taken.
- The INI functions for numbers and booleans, `iniparser_unset`, and the plain dump functions: easy members on top of the dictionary.
- Logging, the main program, module loading, the socket listener thread, the dummy endpoint, the containers and the generated documentation.
