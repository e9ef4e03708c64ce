# The IPAM allocator and its stores, verified

This project models the core of go-ipam: the allocator in `prefix.go`, the in-memory store in `memory.go`
that it updates with optimistic locking, the file store in `file.go` and the JSON records of `json.go`, and
proves what they keep.

A *prefix* is a CIDR: family, address and length (RFC 4632, section 3.1; RFC 4291, section 2.3). A stored
*record* of a prefix holds its acquired addresses (`ips`), its child prefixes (`children`, false = taken), the
`isParent` flag, the name of its parent and a `version`. A *namespace* is a map from prefixes to records.

| File | What it holds |
|---|---|
| `Powers.dfy`, `Cidrs.dfy` | alignment arithmetic; ranges, containment and overlap as `net/netip` computes them |
| `FreeSpace.dfy`, `Counting.dfy` | the free space of a parent as maximal aligned blocks, best fit, sizes, the 64-bit usage count |
| `Records.dfy` | one record and the local edits: acquire and release of addresses and children |
| `Store.dfy`, `Memory.dfy` | the store as a value with its conditional update; the class with its tables and copies |
| `Json.dfy` | records as JSON objects, the legacy rule, the list loops |
| `Ops.dfy`, `Ipamer.dfy` | each operation as a function of the stored records; the class whose methods are proved to act as them |
| `Effects.dfy` | what each operation does in each of its cases, errors included, and that records stay good |
| `Forests.dfy` | what sequential runs keep: the forest of prefixes, with the exact guard of every operation |
| `Exhaustion.dfy` | draining a prefix of its addresses, tiling it with children |
| `FileStore.dfy` | the write-through cache over a file with modification stamps |
| `Edits.dfy` | the local edit a request makes on a snapshot, and exactly when an older snapshot does as well |
| `Protocol.dfy` | concurrent calls as a state machine: one storage access a step, any number of calls |
| `Traces.dfy` | the theorems over every run of that machine, and its agreement with `Ops` |
| `Refusals.dfy` | every refusal in every run has its reason; the lock of `NewPrefix` |
| `Trees.dfy` | the tree of prefixes under concurrency: interleavings that give nothing back act as sequential runs |
| `Limits.dfy` | where promises fail: exact conditions, and runs that show it |

What `go4.org/netipx` computes is defined here as executable code (`FreeSpace.FreeBlocks`, `BestFit`,
`ContainsPrefix`); nothing about it is taken for granted. `BlocksUnique` shows that the list is the only
ascending list of maximal free blocks, so any other way to compute it agrees.

Reading the names: `Apply` runs a whole operation alone; in `Protocol`, a `Life` is the history of a prefix
from one creation to the next, its `log` the committed edits in order. A life is *tainted* once a snapshot was
written that did not match the stored record in what the request depends on (`Edits.Matches`);
`Traces.UntaintedIffChain` shows that the flag is exact, and `FirstLifeIsUntainted` that it takes a prefix that
was deleted and created again. Every theorem that asks for `Untainted` therefore holds outright in runs that
never create a prefix a second time. `Limits.GrantedTwice` and `Limits.ParentlessMayOverlap` show that the
condition is needed: the version restarts at 0, so a delayed write of an earlier life can go through.

Where the code and its documentation part, the model follows the code:

- `ipam.go` documents that `Load` deletes all prefixes before loading; the code refuses a namespace that has any.
- `prefix.go` documents at most 2^31 reported prefixes; the sum wraps at 64 bits first, so an untouched IPv6
  parent of length 62 or less is reported to have none.
- Delete and child release look at addresses only: a prefix with live children goes (`Limits.ParentDeleted`).
- The limit in child release is two addresses for both families, while hasIPs uses one for IPv6
  (`Limits.OverlapAfterRelease`).
- Two ways a held address goes with its prefix, and only these (`Traces.DeleteTakesHosts`): hasIPs only counts,
  so hosts go unnoticed while they are no more than the reserved addresses released
  (`Limits.HeldAddressDeleted`); and a delete checks first and then deletes whatever is stored, so an address
  acquired in between is lost with nothing ever released (`Limits.DeletedWhileHeld`, `Limits.GrantedAgain`).
- A specific child with host bits is marked unmasked in the parent and stored masked (`Limits.RangeLost`).
- The file store remembers the stamp before it parses, so a file that does not decode is reported once; the
  next write replaces it by what is in memory (`FileStore.UnreadableFileIsReplaced`).

## Model

| member | source | states |
|---|---|---|
| `Cidrs.OverlapsIffShared` | prefix.go:461 | the overlap test used on prefixes answers yes exactly when some address lies in both |
| `Cidrs.Geometry` | prefix.go:461-463 | overlap is symmetric, is ranges meeting, and of two overlapping prefixes the longer lies inside the other |
| `Cidrs.LastInFamily` | prefix.go:493-498 | every prefix, also one at the top, ends inside its family's address space |
| `Cidrs.AddressSpaces` | prefix.go:660-661 | 32-bit and 128-bit address spaces, with their sizes written out |
| `FreeSpace.BlocksSound` | prefix.go:213-229 | every listed free block is aligned, inside the parent, free of taken children, and the list ascends without overlap |
| `FreeSpace.MaximalBlock` | prefix.go:213-229 | every wholly free prefix lies inside one listed block |
| `FreeSpace.BlocksPartition` | prefix.go:213-229 | the blocks hold exactly the addresses of the parent that no taken child holds |
| `FreeSpace.BlocksUnique` | prefix.go:226-236 | an ascending list of free blocks covering every free block is this list |
| `FreeSpace.BestFitIsTightest` | prefix.go:234 | the choice is the longest block that is long enough, lowest first, and there is none only if no block fits |
| `FreeSpace.SelectionExact` | prefix.go:231-251 | a child of a length is found exactly if an aligned block of that length is wholly free; it is cut from the low end of a tightest maximal block |
| `FreeSpace.ContainsPrefixExact` | prefix.go:253-256 | a specific child is available exactly if each of its addresses is free |
| `Counting.FreeCountExact` | prefix.go:664-672 | summing over the free list counts the free aligned blocks of a length exactly |
| `Counting.SizesConserved` | prefix.go:641-661 | sizes of free blocks and of taken children add up to the parent's size |
| `Counting.FreeCountMeans` | prefix.go:664-668 | what is counted are exactly the wholly free aligned blocks of that length inside the parent |
| `Counting.AvailablePrefixes` | prefix.go:636-678 | the loop reports the wrapped and capped count, and lists, ascending, exactly the free blocks that hold at least a /30 or /126 |
| `Counting.ReportedIff` | prefix.go:659-677 | for every parent, /31, /32, /127 and /128 included: the figure is the capped true number of free blocks exactly if that fits 64 bits or its low bits reach the cap; always for IPv4 and IPv6 from length 63 |
| `Counting.UntouchedV6CountIsZero` | prefix.go:670-676 | every untouched IPv6 parent of length 62 or less is reported as having none |
| `Records.NewRecordOk` | prefix.go:470-501 | a new record is good, normal for the encoding included, and holds just the reserved addresses of the masked prefix |
| `Records.ScanFindsLeast` | prefix.go:382-392 | the scan ends, finds the least address not held, and finds none only if all are held |
| `Records.AcquireIpExact` | prefix.go:358-393 | when each error occurs; else the address is in range, was free, is the wish or the least free one, and only it is added |
| `Records.AcquireIpOk` | prefix.go:400 | acquiring an address keeps a record good |
| `Records.ReleaseIpOk` | prefix.go:436-440 | releasing an address keeps a record good |
| `Records.SelectChildExact` | prefix.go:206-258 | by length success exactly if an aligned free block exists, tightest fit, low end; a specific child exactly if all its addresses are free |
| `Records.SelectedChildIsFree` | prefix.go:206-258 | the child is strictly inside the parent, of the requested length and meets no taken child |
| `Records.AcquireChildOk` | prefix.go:265-271 | marking the child keeps taken children apart and the record good, and takes just that child |
| `Records.HasIPsCounts` | prefix.go:603-615 | the count test holds exactly if more host addresses are held than reserved ones were released |
| `Records.HasIPsExact` | prefix.go:603-615 | it tells whether a host address is held exactly if none is, or more are than reserved ones were released; so always with the reserved addresses held, for every length |
| `Records.ReservedReleaseHidesAHost` | prefix.go:436-440 | for both families: releasing a reserved address hides what is held exactly if that is a single host address |
| `Records.DrainStep` | prefix.go:382-392 | one more address of a partly drained prefix: the next one up, or the no-address error at capacity |
| `Memory.Prefix.DeepCopy` | prefix.go:33-43 | a copy has the same content and fresh tables |
| `Memory.Memory.constructor` | memory.go:15-22 | a new store has the default namespace, empty |
| `Memory.Memory.CreatePrefix` | memory.go:26-38 | stores exactly the given content if the prefix is new; the store never comes to share the caller's tables; other namespaces stay |
| `Memory.Memory.ReadPrefix` | memory.go:39-50 | returns the stored content in fresh tables, or which of the two things is missing |
| `Memory.Memory.DeleteAllPrefixes` | memory.go:52-57 | that namespace is empty, all others stay |
| `Memory.Memory.ReadAllPrefixes` | memory.go:59-71 | every record once, in any order, each in fresh tables |
| `Memory.Memory.ReadAllPrefixCidrs` | memory.go:73-86 | exactly the stored prefixes, each once, in any order |
| `Memory.Memory.UpdatePrefix` | memory.go:88-112 | acts as the conditional update on that namespace, on a private copy |
| `Memory.Memory.DeletePrefix` | memory.go:113-121 | removes that record whatever its version, and nothing else |
| `Memory.Memory.CreateNamespace` | memory.go:123-130 | adds an empty namespace, or changes nothing if it exists |
| `Memory.Memory.ListNamespaces` | memory.go:132-140 | each namespace once |
| `Memory.Memory.DeleteNamespace` | memory.go:142-148 | removes the namespace with all its records, or reports that it is absent |
| `Json.RecordRoundTrip` | json.go:19-49 | decode after encode is the identity exactly for normal records, else sets isParent only; normalising twice is normalising once |
| `Json.ToJson` | json.go:59-63 | the loop encodes every record in order |
| `Json.ToPrefix` | json.go:19-34 | decoding yields the record, with the legacy rule, in fresh tables |
| `Json.FromJsons` | json.go:80-91 | the loop decodes every object in order into fresh tables |
| `Ops.DumpThenLoad` | prefix.go:508-548 | dump then load into an emptied namespace gives back the normalised records in whatever order they were dumped, the old ones exactly if all were normal |
| `Effects.NewRecordExact` | prefix.go:470-501 | a new record field by field: masked names, no children, no child prefix length, version 0, and held are the first address and, for IPv4, the last; encoding and decoding leaves it alone |
| `Effects.CommitExact` | memory.go:88-112 | an edited snapshot is written exactly if the record is stored with its version, answers the lock error exactly on another version, and on an error nothing changes |
| `Effects.CreateInExact` | memory.go:26-38 | succeeds exactly in a present namespace without that prefix, names which of the two failed, and adds just that record |
| `Effects.UpdateInExact` | memory.go:88-112 | succeeds exactly on the stored version, names which of three things failed, and replaces just that record with its version raised |
| `Effects.ReleaseIpExact` | prefix.go:436-440 | a held address is taken out and nothing else changes; one that is not held is not found |
| `Effects.SelectChildErrors` | prefix.go:206-263 | exactly when each of the five errors of a child request is reported, in the order of the checks |
| `Effects.AcquireIpEffect` | prefix.go:350-406 | exactly when each error occurs, and then nothing is stored; else the address was free, in range, the wish or the least free one, and the record gains just it |
| `Effects.ReleaseIpEffect` | prefix.go:428-446 | succeeds exactly if that prefix holds the address, and then just that address is gone; else not found and nothing changes |
| `Effects.NewPrefixEffect` | prefix.go:120-142 | succeeds exactly if no stored prefix shares an address with it; then the answer is the new record, stored beside all others; else the overlap error and nothing changes |
| `Effects.DeleteEffect` | prefix.go:144-162 | not found, or refused on the count of addresses, changing nothing; else the answer is the stored record, and just it is gone |
| `Effects.AcquireChildEffect` | prefix.go:185-287 | a refused mark changes nothing; a child whose name is stored already is an error that leaves the mark; else the child's new record is added |
| `Effects.UnmarkEffect` | prefix.go:298-313 | the three errors of the first half of a child release, each exactly when; else the parent shows the child as free and nothing else changes |
| `Effects.ReleaseChildEffect` | prefix.go:297-321 | a refused first half changes nothing; a refused delete leaves the mark off; else the child's record is gone too |
| `Effects.LoadEffect` | prefix.go:525-548 | a namespace with prefixes is refused and left alone; an empty one holds exactly the decoded records exactly if no prefix occurs twice, else exactly those in front of the first repetition |
| `Effects.ApplyKeepsGood` | prefix.go:120-446 | every operation, whatever it is called with, keeps every record good, and normal for the encoding |
| `Effects.RunsComeBack` | prefix.go:508-548 | what any run of operations leaves, guarded or not, is given back exactly by dump and load, in any order |
| `Ipamer.PrefixesOverlapping` | prefix.go:450-467 | no error exactly when no address lies in both an existing and a new prefix |
| `Ipamer.Ipamer.PrefixFrom` | prefix.go:323-334 | the record of the masked prefix in fresh tables, or why not |
| `Ipamer.Ipamer.NewPrefixRecord` | prefix.go:470-501 | builds the new record that `NewRecordExact` describes, in fresh tables |
| `Ipamer.Ipamer.NewPrefix` | prefix.go:120-142 | acts as DoNewPrefix on the namespace: refused exactly on overlap; the result shares nothing with the store |
| `Ipamer.Ipamer.DeletePrefix` | prefix.go:144-162 | acts as DoDelete: refused when hasIPs, else the record is gone |
| `Ipamer.Ipamer.AcquireSpecificIP` | prefix.go:350-393 | the scan loop acts as DoAcquireIp: same address, same error, same store |
| `Ipamer.Ipamer.AcquireAndStore` | prefix.go:395-406 | editing the snapshot does not touch the store until the update: ok exactly if the record is stored with the snapshot's version, the lock error exactly on another, the store unchanged on an error, else just that address added |
| `Ipamer.Ipamer.ReleaseAndStore` | prefix.go:440-444 | the same for taking an address out of the snapshot |
| `Ipamer.Ipamer.WriteBack` | memory.go:88-112 | writing a snapshot: ok exactly on the stored version, the lock error exactly on another, and nothing written on an error |
| `Ipamer.Ipamer.ReleaseIPFromPrefix` | prefix.go:428-446 | acts as DoReleaseIp |
| `Ipamer.Ipamer.MarkFreeChild` | prefix.go:188-276 | acts as DoMark: the parent is written with the selected child taken |
| `Ipamer.Ipamer.MarkChild` | prefix.go:309-313 | a mark edited into the snapshot reaches the store exactly if the record is stored with the snapshot's version; the lock error exactly on another, the store unchanged on an error |
| `Ipamer.Ipamer.CreateChild` | prefix.go:277-286 | acts as DoCreate: the child's new record is stored |
| `Ipamer.Ipamer.AcquireChildPrefix` | prefix.go:185-287 | acts as DoAcquireChild, the two writes in order |
| `Ipamer.Ipamer.Unmark` | prefix.go:298-313 | acts as DoUnmark |
| `Ipamer.Ipamer.ReleaseChildPrefix` | prefix.go:297-321 | acts as DoReleaseChild: the parent is written before the child is looked at |
| `Ipamer.Ipamer.DeleteNamespace` | prefix.go:571-580 | only an empty namespace is deleted |
| `Ipamer.Ipamer.NamespacedDump` | prefix.go:508-518 | the encoding of every record once |
| `Ipamer.Ipamer.NamespacedLoad` | prefix.go:525-548 | acts as DoLoad: a namespace with prefixes is refused and left alone; an empty one holds exactly the decoded records exactly if no prefix occurs twice, else those in front of the first repetition |
| `Forests.OverlapMeansAncestor` | prefix.go:120-142 | in a forest two stored prefixes overlap only if one is an ancestor of the other |
| `Forests.HostsApart` | prefix.go:209-211 | in a forest no host address is held by two prefixes |
| `Forests.RefusedExactlyWithHosts` | prefix.go:153-155 | in a forest delete and child acquire are refused for held addresses exactly when one beside the reserved is held |
| `Forests.SelectedIsNew` | prefix.go:231-258 | in a forest a child that a parent selects is not stored yet |
| `Forests.AcquireChildStores` | prefix.go:265-286 | in a forest creating the selected child never fails, and the forest is kept |
| `Forests.GrantableIff` | prefix.go:206-258 | a specific child is granted exactly if it is longer than the parent, no address is held, and it lies wholly in free space |
| `Forests.UnmarkedIff` | prefix.go:297-313 | in a forest the first write of a child release goes through exactly if the named parent is stored, is a parent, and the copy holds at most two addresses |
| `Forests.NewPrefixKeeps` | prefix.go:120-142 | a new root keeps the forest, and is refused exactly on overlap |
| `Forests.DeleteKeeps` | prefix.go:144-162 | delete keeps the forest exactly if it is refused or hits a root without live children |
| `Forests.AcquireChildKeeps` | prefix.go:185-287 | child acquire keeps the forest exactly if no child with host bits is taken |
| `Forests.ReleaseChildKeeps` | prefix.go:297-321 | child release keeps the forest exactly under its guard: refused before the write, or a clean release |
| `Forests.ReleaseIpKeeps` | prefix.go:428-446 | address release keeps the forest exactly if the address is not reserved |
| `Forests.KeepsForestIff` | prefix.go:120-446 | every operation keeps the forest exactly under a guard on the state before the call |
| `Forests.RunsKeepForestIff` | prefix.go:120-446 | over whole runs of any length the store stays a forest exactly if every guard was met |
| `Forests.RunsAreSafe` | prefix.go:120-446 | in every guarded run from the empty store, prefixes overlap exactly along ancestor links and no host address is held twice |
| `Forests.ChildRoundTrip` | prefix.go:185-321 | acquire a child and release it: same stored prefixes, same free space, other records untouched, and the same child again |
| `Exhaustion.Draining` | prefix.go:382-392 | a fresh prefix yields exactly 2^h-2 (IPv4), 0 (/32) or 2^h-1 (IPv6) addresses in ascending order, then the no-address error |
| `Exhaustion.Tiling` | prefix.go:213-273 | exactly 2^(L-l) requests for length L succeed on a parent of length l, the children tile it, the next fails |
| `FileStore.SpaceRoundTrip` | file.go:169-171 | one namespace written and decoded comes back normalised |
| `FileStore.DecodeSpaceExact` | file.go:131-139 | decoding stores every object under the prefix inside it, whatever its key, and nothing else |
| `FileStore.FetchedExact` | file.go:106-131 | exactly which contents decode; no file and one too short to parse are empty stores, others hold the namespaces they name and the default one if memory had it |
| `FileStore.FileRoundTrip` | file.go:131-187 | what persist writes decodes to memory's content exactly if the default namespace is there and all records are normal |
| `FileStore.FileGivesBack` | file.go:106-187 | a store whose namespaces were built by the operations, in any runs, is read back from the file exactly |
| `FileStore.FileInjective` | json.go:36-49 | no two stores are written alike |
| `FileStore.EncodeList` | file.go:169-171 | the loop keys every record's object by its prefix, in any order |
| `FileStore.FileStore.constructor` | file.go:61-69 | a new file store agrees with whatever the file holds |
| `FileStore.FileStore.ClearParent` | file.go:72-90 | memory is empty but for the default namespace |
| `FileStore.FileStore.LoadNamespace` | file.go:132-139 | in any order, succeeds exactly if no prefix occurs twice, and then holds the decoded namespace; else the part of it in front of a duplicate |
| `FileStore.FileStore.LoadAll` | file.go:131-141 | in any order, succeeds exactly if the document decodes, and then memory is its decoding; else of the part loaded before a duplicate stopped it |
| `FileStore.FileStore.Reload` | file.go:106-142 | fails exactly on a new file that does not decode, with memory unchanged or holding the part in front of a duplicate, and never looks at it again; else memory is left alone on an equal stamp and is the decoded file otherwise |
| `FileStore.FileStore.EncodeAll` | file.go:156-172 | the document encodes every namespace, in any order |
| `FileStore.FileStore.Persist` | file.go:148-187 | the file holds memory's encoding under the remembered stamp; they agree exactly if the default namespace is there and all records are normal |
| `FileStore.FileStore.CreatePrefix` | file.go:192-205 | succeeds exactly if, in the store it finds (the decoded file, or on an equal stamp memory), the namespace is there and the prefix is not; then adds just that record and writes the result; on an error the file stays; agreement of file and memory is kept exactly for normal records |
| `FileStore.FileStore.ReadPrefix` | file.go:207-214 | reads from the store it finds |
| `FileStore.FileStore.DeleteAllPrefixes` | file.go:216-227 | empties the namespace of the store it finds, and writes that |
| `FileStore.FileStore.ReadAllPrefixes` | file.go:229-237 | every record of the store it finds once |
| `FileStore.FileStore.ReadAllPrefixCidrs` | file.go:239-247 | exactly the prefixes of the store it finds, each once |
| `FileStore.FileStore.UpdatePrefix` | file.go:249-260 | succeeds exactly if the record is stored with that version in the store it finds, the lock error exactly on another; then replaces just that record with its version raised, and writes the result |
| `FileStore.FileStore.DeletePrefix` | file.go:261-272 | removes the record from the store it finds, and returns a copy in fresh tables |
| `FileStore.FileStore.CreateNamespace` | file.go:274-285 | adds the namespace to the store it finds |
| `FileStore.FileStore.ListNamespaces` | file.go:287-294 | exactly the namespaces of the store it finds, each once |
| `FileStore.FileStore.DeleteNamespace` | file.go:296-307 | removes it from the store it finds; file and memory still agree exactly if it was not the default one |
| `FileStore.FileStore.Rewritten` | file.go:92-110 | after any rewrite of the file the next operation looks at it, and file and memory are in agreement again exactly if the default namespace was not deleted |
| `FileStore.UnreadableFileIsReplaced` | file.go:106-205 | a file that does not decode is an error once; the next write puts in its place what is in memory, the old store or a part of the file |
| `Edits.EditKeepsRecord` | prefix.go:350-446 | every local edit keeps a snapshot good, with its name, parent and version, and never clears isParent |
| `Edits.MatchesIff` | prefix.go:185-446 | an edit of an old snapshot gives the record and grant that the stored one would, exactly if the two agree on all that matters: everything for an address, for a child everything but its own entry |
| `Protocol.CommitMeets` | memory.go:101-110 | within a life a version determines the content: a write that goes through finds exactly the snapshot it was made from |
| `Protocol.ExecKeepsInv` | prefix.go:120-446 | each step of any call keeps the invariant |
| `Protocol.AlwaysInv` | prefix.go:120-446 | every reachable state of any interleaving satisfies the invariant |
| `Traces.RecordsStayGood` | prefix.go:209-271 | in every reachable state, recreations included, records and snapshots keep taken children apart and strictly inside, addresses in range, and are never parent and address holder at once |
| `Traces.StatesComeBack` | prefix.go:508-548 | dump and load give back every reachable store of any interleaving exactly |
| `Traces.FirstLifeIsUntainted` | memory.go:107-110 | a prefix never created a second time is never hit by a stale write |
| `Traces.UntaintedIffChain` | memory.go:101-110 | a life is untainted exactly if each of its records is what its request makes of the record before |
| `Traces.StoredIsReplayed` | memory.go:88-112 | no lost update: the stored record is what the committed requests yield when run one after another on the new record |
| `Traces.WriteIsAtomicIff` | memory.go:107-110 | a late write, of an address or of a child, acts as the atomic request, grant included, exactly if snapshot and stored record match for it |
| `Traces.CommitIsAtomic` | memory.go:88-112 | in every run a commit is the request done in one atomic step on the present store, with the same grant, exactly if the snapshot matches, and it does if read in the same life; a write that does not commit changes nothing |
| `Traces.RefusalIsAtomic` | prefix.go:206-251 | a call whose edit is refused answers what its request would have answered in one atomic step, without effect, on the store as it was when it read |
| `Traces.GrantsAreApart` | prefix.go:372-405 | between two grants of one address in a life a release of it was committed |
| `Traces.ChildGrantsAreApart` | prefix.go:253-273 | between grants of children of one parent that share an address a release of the first was committed |
| `Traces.StaysParent` | prefix.go:271 | in a life isParent never goes back to false |
| `Traces.CountsHostsIff` | prefix.go:603-615 | in every reachable state hasIPs is right exactly if no host address is held, or more are than reserved ones were released |
| `Traces.CountsHosts` | prefix.go:603-615 | under any interleaving in which no reserved address is released, hasIPs holds exactly when a host address is held |
| `Traces.DeleteTakesHosts` | prefix.go:146-156 | in every reachable state a delete takes held addresses exactly if hasIPs holds by then, and then another call committed or created the prefix again since the check, or if the hosts are no more than the reserved addresses released |
| `Traces.GivesUpOnlyAfterTenCommits` | prefix.go:706-716 | ten failed attempts mean that at least ten commits, none of the caller, followed its first read |
| `Traces.AtMostTenAttempts` | prefix.go:706-716 | a call that lost the race is tried again exactly until its tenth write, and a lost write changes nothing; one whose record is gone ends at once with that error |
| `Traces.CommitsOnce` | prefix.go:706-716 | a successful call commits its record exactly once, a failed address call and one that gave up never |
| `Traces.AnswersAreLogged` | prefix.go:395-405 | what a successful call answers is what its committed entry says, while that life lasts |
| `Traces.AnswersAreApart` | prefix.go:372-405 | of two calls answered with one address in one life, a release was committed in between |
| `Traces.ChildAnswersAreApart` | prefix.go:253-273 | of two calls answered with children that share an address in one life, a release of the first was committed in between |
| `Traces.RootsStayApart` | prefix.go:120-142 | stored prefixes that NewPrefix created never overlap, whatever child operations run besides; in untainted lives they are those without a parent |
| `Traces.AloneIsApply` | prefix.go:120-446 | the steps of one call without interference do what the whole operation does, outcome included |
| `Traces.AloneNeverConflicts` | memory.go:107-109 | without interference no call meets a version conflict |
| `Refusals.RefusalsAreDeserved` | prefix.go:120-446 | in every run, whatever error a call ended with, at some moment since the call began the store gave the reason: for `NewPrefix` a stored prefix overlapped or had its name, for a delete it was missing or hasIPs held, for an edit the atomic request failed alike or the record was gone |
| `Refusals.WaitsForLock` | prefix.go:121-122 | a waiting `NewPrefix` does not move while the lock is held |
| `Refusals.LockIsFreed` | prefix.go:121-122 | in every run the holder of the lock is about to store its prefix, and that step frees it |
| `Refusals.LockIsForNewPrefix` | prefix.go:121-122 | no other call looks at the lock or touches it |
| `Trees.InterleavingIsSequential` | prefix.go:120-287 | every interleaving of calls that give nothing of the tree back leaves what a guarded sequential run leaves, but for marked children about to be stored; the run has exactly one request for each call that took effect, and each such call answers what its request answers at its place in the run |
| `Trees.QuietIsSequential` | prefix.go:120-287 | while no child is being stored, the store is exactly what that run leaves |
| `Trees.ChildrenLieInParents` | prefix.go:265-286 | then each stored child lies in a stored parent that marks it, and each marked child is stored or about to be |
| `Trees.InterleavingsAreSafe` | prefix.go:120-287 | then stored prefixes overlap only along ancestor links, and no host address is held by two |
| `Limits.GrantedTwice` | memory.go:107-110 | for every prefix with two addresses to give, a run across a recreation answers two calls with one address in one life, with no release committed in between and none asked for |
| `Limits.ParentlessMayOverlap` | prefix.go:120-142 | across a recreation two stored prefixes without a parent in their record can overlap |
| `Limits.HeldAddressDeleted` | prefix.go:153-155 | for every prefix with an address to give, a run deletes it while that address is held, after a reserved one was released |
| `Limits.DeletedWhileHeld` | prefix.go:146-156 | for every prefix with an address to give, a run with no release at all deletes it while a call holds the address, acquired between check and delete |
| `Limits.GrantedAgain` | prefix.go:146-156 | after that the same address is granted to a second call |
| `Limits.ParentDeleted` | prefix.go:144-162 | a run deletes a parent and leaves its live child without a stored parent |
| `Limits.OverlapAfterRelease` | prefix.go:305-315 | a run releases an IPv6 child with one address and is then granted a larger child around it: two stored prefixes overlap with no ancestor link |
| `Limits.RangeLost` | prefix.go:265-270 | a run acquires and releases a child with host bits; nothing is stored below the parent, and its range is refused |
| `Limits.ReleaseOfOwnRecord` | prefix.go:297-321 | a stored child is released exactly if it holds no host address; a refusal leaves the store alone exactly unless it is IPv6 with one acquired address, whose range is then given back while it stays stored |
| `Limits.ReleaseFreesIff` | prefix.go:265-270 | releasing a specific child frees its range exactly if the request carried no host bits |

## Left out

- Text forms: parsing and printing of CIDRs, addresses, JSON and gob, with their errors, IPv6 zones and IPv4-mapped addresses. Prefixes and records are values; only masked and unmasked prefixes are told apart. The empty prefix name that the store refuses cannot be written.
- The boolean stored with an acquired address: the code never reads it, so `ips` is a set.
- 64-bit width of `version`: it is an unbounded integer here, as overflow takes 2^63 commits.
- Failing file reads, writes, stats and JSON encodings; clocks, delays and jitter. Every file write is given a new stamp.
- Locks inside the stores: a storage call is one atomic step. Some methods hold a read lock or none, so data races below that level are not covered.
- Retries in the sequential class `Ipamer`: without interference none happens (`Traces.AloneNeverConflicts`); the ten attempts are steps in `Protocol`.
- Concurrency over the file store and over several namespaces: `Protocol` has one namespace of the in-memory store. `Load` and namespace deletion are not among its calls.
- `Trees.InterleavingIsSequential`: for runs without delete, child release, release of a reserved address and children with host bits; with those the forest is lost already in sequential runs, as `Limits` shows, and child release under concurrency has no statement about the whole tree.
- `Traces.GrantsAreApart`: within one life of the prefix only, as are its companions; across lives `Limits.GrantedTwice` refutes it.
- `Traces.RootsStayApart`: speaks of prefixes that `NewPrefix` created rather than of those whose record names no parent, which can overlap after a stale write.
- `Usage` apart from the prefix count: the address figures are one shift and one map size.
- `ReleaseIP`, `Dump`, `Load`, `AcquireIP` and the read-all calls of the allocator: they only pass on to modelled operations with default arguments.
- The database stores (`sql.go`, `postgres.go`, `redis.go`, `etcd.go`, `mongodb.go`), the command line and the RPC service are not part of this model.
