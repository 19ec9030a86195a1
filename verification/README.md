# Verified model of the rustyos kernel's paths, caches and allocators

A Dafny model of five parts of the kernel, each proved against a short reference definition.

* **Paths** (`PathSpec`, `PathComponents`, `Paths`, `PathBuffers`). `PathSpec.Parse` says what a byte
  string means: split on `/`, drop `""` and `.`, keep a leading root or `.`. The double-ended iterator,
  with its two states and lazy trimming, is proved to yield exactly that list from both ends at once.
  `parent`, `ancestors`, `strip_prefix`, `starts_with`, `ends_with`, `pop`, `set_extension` and
  `with_extension` are built on it.
* **Directory cache** (`Vfs`, `CacheKeys`, `DirCache`, `CacheRuns`). A lookup through any reachable cache
  is compared with a plain walk from the root.
* **RAM file system directories** (`RamFs`). 256-byte slots in 4096-byte blocks refine a list of names.
* **Kernel heap** (`Bits`, `Chains`, `Buckets`, `KernelHeap`). Nine bucket classes with bitmaps and linked
  overflow buckets refine a set of live blocks.
* **Page free list** (`FreeLists`, `FreeRuns`, `ReturnedRuns`, `EntryLists`, `EntryPages`, `PageRuns`,
  `FilledPage`). Chained 170-entry pages, with entry pages made and unlinked on the way, refine a list of free runs.
* **Physical frames** (`Frames`, `FrameBitmap`, `FrameAllocator`, `WrittenFrames`). Frame numbers over a region
  list, the boot allocator, and the bitmap allocator that takes over from it, as meant and as the code has it.

Classes hold the fields the kernel updates in place. A ghost `model` or an abstraction function ties each
to the value its lemmas speak about.

## Where the code and its comments differ

The code is modelled as it is. Where a comment asks for something else, both are modelled and the exact
condition under which the code does what the comment says is proved.

* `push` adds a separator when the last byte *is* one; its comment says when it is *not* one
  (kernel/src/fs/path/pathbuf.rs:61-62). `PushAsWritten` gives the condition. Cache keys inherit it: with
  the rule of the code `/y/z` is cached under the key `//yz`. `CacheRuns.Run` holds with that rule for every
  path that is not ambiguous, and `AmbiguousLookup` shows that every ambiguous path fails for some file
  system. With the rule of the comment `Run` holds for every path.
* `first_free_frame` looks for a word that is not zero; its comment wants a word with a free frame
  (kernel/src/memory/frame/mod.rs:129-130). `WrittenFindsLowest` gives the condition; `TakeAsWritten` says
  from which take on a frame in use is handed out again.
* `address_to_frame` subtracts a region's end from its start (kernel/src/memory/frame/mod.rs:157). The
  subtraction is modelled wrapping at 64 bits. `WrittenNumberIsRight` gives the condition, and
  `ReleaseAsWritten` what releasing a frame then does. `WrittenFrames.Run` says what each call of any run of
  takes and releases does with the code's own test and numbers.
* `address_to_frame` panics instead in a build that checks the subtraction. `CheckedNumberIsRight` gives
  the condition.
* `remove_entry` leaves a copy of the last entry behind when the entries fill whole pages
  (kernel/src/memory/allocator/page.rs:208-223), also when an empty page is linked behind them.
  `RemoveIsExact` gives the condition. Allocation, merging and returning a run inherit it: `TookKeeps`,
  `SquashSorted` and `GaveSorted` say exactly when the free runs stay disjoint. After that the same pages
  can be handed out twice: `SameRunTwice` gives a run of calls from one long free run that ends so.
* `add_entry_page` takes its page from the first run of the page that was last. A run of one page is then
  removed from a full page, and the same copy is left behind (lines 386-409). `CleanGive` covers it.
* `dealloc_pages` forgets a run that lies above every entry, unless the entries fill the pages
  (kernel/src/memory/allocator/page.rs:306-308 and 331-339). It does not merge a run with the one before it
  when it merged with the one after it (lines 315-321), or when the two are on different pages. `GaveFree`
  and `GaveCoalesced` state this exactly.
* `with_extension` differs from `set_extension` for a name whose stem is a single dot, and panics when its
  cut falls inside a character (kernel/src/fs/path/mod.rs:155-171). `WithExtensionAgrees` gives the
  condition.
* A kernel allocation panics when there is a page for a new bucket's blocks and none for the bucket
  (kernel/src/memory/allocator/mod.rs:207). `AllocOutcome` states exactly when.
* A lookup of a root spelled with spare bytes, such as `//`, finds no cached ancestor and panics
  (kernel/src/fs/dentry.rs:81-91). `Faithful` states exactly which lookups panic.

## Modelling decisions

* Paths are byte sequences. Character boundaries are modelled where a string is sliced inside a name;
  every other cut is next to a separator, a dot or an end.
* Integers are unbounded except where noted.
* Time, page-allocator answers, page-table frames, mapping failures and the fixed file system are
  parameters. The page allocator's answers to the kernel heap are aligned pages, not page 0 and not in use
  there (`KernelHeap.Honest`).
* Locks and reference counts are modelled sequentially.
* The file system behind the cache lists only directories (`Vfs.Coherent`), as the RAM file system
  does (`RamFs.AsFileSystem`).
* Memory regions are page-aligned, ascending, disjoint and below 2^52 (`Frames.GoodRegions`).

## Model

| member | source | states |
|---|---|---|
| PathComponents.Interleave | kernel/src/fs/path/components.rs:147-211 | for every string and every order of `next` and `next_back`, what came from the front, the re-parsed remainder and the reversed back items make up the component list, and an end stops only when the list is used up |
| PathComponents.Components.constructor | kernel/src/fs/path/components.rs:43-51 | a new iterator has the whole component list ahead of it |
| PathComponents.Components.Next | kernel/src/fs/path/components.rs:150-179 | yields the first remaining component and leaves the rest; none exactly when nothing remains |
| PathComponents.Components.NextBack | kernel/src/fs/path/components.rs:183-210 | yields the last remaining component and leaves the rest; its bytes end the shortest prefix that means the same |
| PathComponents.Components.AsPath | kernel/src/fs/path/components.rs:53-62 | the bytes left are part of the slice, re-parse to exactly the components not yet yielded, and cannot be shortened at either end |
| PathComponents.Components.TrimLeft | kernel/src/fs/path/components.rs:125-133 | drops only pieces that mean nothing, up to the first that means something |
| PathComponents.Components.TrimRight | kernel/src/fs/path/components.rs:136-144 | drops only pieces that mean nothing, cutting at separators, and never the start |
| PathComponents.Cursor.OpenFront | kernel/src/fs/path/components.rs:153-164 | the start yields the root or a leading `.`, and what follows is the body |
| PathComponents.Cursor.StepFront | kernel/src/fs/path/components.rs:96-106 | one piece off the left accounts for exactly the components lost |
| PathComponents.Cursor.StepBack | kernel/src/fs/path/components.rs:110-122 | one piece off the right accounts for exactly the components lost and leaves the start alone |
| PathComponents.Cursor.CloseBack | kernel/src/fs/path/components.rs:193-205 | when the body is used up from the back, the start is all that remains |
| PathComponents.Cursor.FinishedIsEmpty | kernel/src/fs/path/components.rs:71-73 | an iterator reports that it is finished only with nothing left |
| PathSpec.BodyJoin | kernel/src/fs/path/components.rs:96-122 | splitting at any separator splits the components: the law both directions rest on |
| PathSpec.ParseNames | kernel/src/fs/path/components.rs:11-17 | after the start there are only `..` and real names, and the root appears exactly in absolute paths |
| PathSpec.TrimmedIsShortest | kernel/src/fs/path/components.rs:135-144 | a right-trimmed string means something different from each of its shorter prefixes |
| PathSpec.TrimTail | kernel/src/fs/path/components.rs:135-144 | only separators and dots are trimmed away |
| PathSpec.TrimIsUnique | kernel/src/fs/path/components.rs:135-144 | meaning and trimmedness determine the bytes |
| Paths.Parent | kernel/src/fs/path/mod.rs:55-64 | the shortest prefix with all components but the last; none exactly for the empty path and the root |
| Paths.TruncationIsUnique | kernel/src/fs/path/mod.rs:55-64 | the bytes of a parent are determined by the path |
| Paths.FileName | kernel/src/fs/path/mod.rs:70-75 | the last component when it is a name, and where its bytes end |
| Paths.IterAfter | kernel/src/fs/path/mod.rs:239-253 | succeeds exactly when one item list is a prefix of the other, and leaves exactly the rest |
| Paths.StripPrefix | kernel/src/fs/path/mod.rs:84-88 | succeeds exactly on a component prefix; the result has exactly the remaining components, and its bytes are a part of the path that cannot be shortened |
| Paths.StartsWith | kernel/src/fs/path/mod.rs:95-97 | component prefix, both directions |
| Paths.EndsWith | kernel/src/fs/path/mod.rs:104-106 | component suffix, both directions |
| Paths.Ancestors.Next | kernel/src/fs/path/ancestors.rs:16-20 | yields the stored path and stores its parent |
| Paths.AncestorStep | kernel/src/fs/path/ancestors.rs:16-20 | each step loses one component of the original path and the chain ends at the root or the empty path |
| Paths.AncestorChain | kernel/src/fs/path/ancestors.rs:13-21 | the i-th ancestor has the first n-i components, stripping it never fails and gives back the rest, and the chain ends in `/` or the empty path |
| Paths.ShortestEnds | kernel/src/fs/dentry.rs:81-87 | the last ancestor of an absolute path is the one byte `/` |
| PathBuffers.SplitName | kernel/src/fs/path/mod.rs:256-269 | stem and extension make up the name, with no dot in the extension and something in the stem |
| PathBuffers.JoinName | kernel/src/fs/path/mod.rs:256-269 | a stem, a dot and a dot-free extension split back into themselves |
| PathBuffers.SetExtensionMeaning | kernel/src/fs/path/pathbuf.rs:102-122 | only the last component changes, and only its extension |
| PathBuffers.SetExtensionReadBack | kernel/src/fs/path/pathbuf.rs:102-122 | `extension` reads back what was set exactly when it has no dot and no separator; stem and parent are kept |
| PathBuffers.SetExtensionCleared | kernel/src/fs/path/pathbuf.rs:102-122 | setting an empty extension leaves the stem as last component exactly when the stem is neither `.` nor `..` |
| PathBuffers.SetExtensionOnBoundary | kernel/src/fs/path/pathbuf.rs:108-111 | the cut of `set_extension` is never inside a character |
| PathBuffers.WithExtensionAgrees | kernel/src/fs/path/mod.rs:155-171 | same string as `set_extension` exactly when the cut is not inside a character and the stem is not a single dot that ends the string |
| PathBuffers.WithExtensionPanics | kernel/src/fs/path/mod.rs:163 | it panics exactly when fewer bytes follow the name than its extension has and the byte cut at goes on a character |
| PathBuffers.DotStemCut | kernel/src/fs/path/mod.rs:155-171 | where the two differ, the cut leaves `..` and nothing is added |
| PathBuffers.WithExtensionCutsLetter | kernel/src/fs/path/mod.rs:163 | a name with a two-byte letter as extension and one separator behind it panics |
| PathBuffers.WithExtension | kernel/src/fs/path/mod.rs:155-171 | the method, built from a buffer, agrees with `set_extension` and panics under exactly these conditions; in the one other case only the old extension is cut off |
| PathBuffers.Extension | kernel/src/fs/path/mod.rs:123-127 | the extension of the last component |
| PathBuffers.FileStem | kernel/src/fs/path/mod.rs:109-113 | the stem of the last component and where it ends |
| PathBuffers.PushAsCommented | kernel/src/fs/path/pathbuf.rs:60-74 | by the comment's rule, pushing a relative path joins the components |
| PathBuffers.PushAsWritten | kernel/src/fs/path/pathbuf.rs:60-74 | by the code's rule it does exactly when a side is empty or the buffer already ends in a separator |
| PathBuffers.PushIs | kernel/src/fs/path/pathbuf.rs:60-74 | an absolute path replaces what it is pushed onto; a relative one is appended behind at most one separator |
| PathBuffers.PathBuf.Push | kernel/src/fs/path/pathbuf.rs:60-74 | an absolute path replaces the buffer; a relative one is appended behind at most one separator, with one exactly when the rule asks for it |
| PathBuffers.PathBuf.Pop | kernel/src/fs/path/pathbuf.rs:76-84 | leaves byte for byte the parent, or the buffer unchanged when there is none |
| PathBuffers.PathBuf.SetExtension | kernel/src/fs/path/pathbuf.rs:102-122 | truncates after the stem, drops trailing bytes, and appends the new extension; without a name nothing changes |
| Vfs.WalkSplit | kernel/src/fs/dentry.rs:110-162 | a walk may be cut at any directory and resumed from there |
| Vfs.FindIs | kernel/src/fs/dentry.rs:135-138 | a search gives the number of the first listed pair with the name, and nothing exactly when there is none |
| Vfs.WalkReaches | kernel/src/fs/dentry.rs:110-162 | a walk ends at an inode exactly when a trail of inodes leads there, each found under the number of the first listed pair with the next name of the one before |
| Vfs.WalkFails | kernel/src/fs/dentry.rs:110-162 | a walk fails exactly when such a trail of directories leads to an inode whose next step fails, and with which error: a file with names to follow, a name not listed, a failed listing, a failed or missing inode |
| Vfs.TrailOfDirectories | kernel/src/fs/dentry.rs:124-126 | where only directories list, every inode of a trail but the last is one |
| CacheKeys.KeyRoundTrip | kernel/src/fs/dentry.rs:140-141 | by the comment's rule a key parses back to the names it was built from |
| CacheKeys.KeyAsWritten | kernel/src/fs/dentry.rs:140-141 | by the code's rule a key is two separators and all names run together |
| CacheKeys.KeyFaithful | kernel/src/fs/dentry.rs:140-141 | a key still says which names went in unless it is aliased |
| CacheKeys.AliasedKey | kernel/src/fs/dentry.rs:140-141 | an aliased key is also the key of two other names |
| CacheKeys.KeyShape | kernel/src/fs/dentry.rs:140-141 | keys are absolute, `/` belongs to the root alone, and the code's rule never makes more than two components |
| CacheKeys.ServableReachesRoot | kernel/src/fs/dentry.rs:81-87 | an absolute path with a component after the root, and `/`, have `/` among their ancestors |
| DirCache.DirectoryCache.EvictEntry | kernel/src/fs/dentry.rs:177-197 | names the entry removed: a non-mount entry with the smallest tick, or nothing when there is none |
| DirCache.DirectoryCache.InsertEntry | kernel/src/fs/dentry.rs:167-175 | evicts only when full, then stores; keeps soundness and the size bound |
| DirCache.BoundedInsert | kernel/src/fs/dentry.rs:167-197 | mount entries stay cached and the size stays within the larger of the cache size and one more than the distinct mount paths |
| DirCache.DirectoryCache.Mount | kernel/src/fs/mod.rs:47-55 | records the mount, caches its root, keeps soundness and the size bound |
| DirCache.DirectoryCache.GetOpt | kernel/src/fs/dentry.rs:64-69 | returns the cached entry and changes only its tick |
| DirCache.Search | kernel/src/fs/dentry.rs:135-138 | the first listed entry with the name |
| DirCache.DirectoryCache.Descend | kernel/src/fs/dentry.rs:124-153 | one step: same child or same error as a plain walk |
| DirCache.OnlyVictimsGo | kernel/src/fs/dentry.rs:167-197 | over any list of legal changes, whatever left the cache was pushed out of a full one, as a non-mount entry with the smallest tick at that moment |
| DirCache.MountsStay | kernel/src/fs/dentry.rs:177-197 | over any such list a mounted path stays cached |
| DirCache.FollowsJoin | kernel/src/fs/dentry.rs:110-197 | lists of legal changes compose |
| DirCache.DirectoryCache.FillPath | kernel/src/fs/dentry.rs:110-162 | the result of a walk from the parent; one sound entry stored for each prefix walked, each evicting only what may go |
| DirCache.DirectoryCache.FromAncestor | kernel/src/fs/dentry.rs:80-91 | starts from the longest cached ancestor, and panics exactly when there is none |
| DirCache.DirectoryCache.Get | kernel/src/fs/dentry.rs:74-92 | a lookup answers from the longest cached ancestor, renews it, stores the path below it, and keeps the cache sound |
| DirCache.HitShape | kernel/src/fs/dentry.rs:81-87 | only absolute paths can hit, and never a root spelled with spare bytes |
| DirCache.LookupAgrees | kernel/src/fs/dentry.rs:74-92 | from a sound entry whose key is not aliased, the answer is that of a walk from the root |
| CacheRuns.StepFaithful | kernel/src/fs/dentry.rs:74-92 | one lookup: exact panic condition, else agreement with the walk |
| CacheRuns.Run | kernel/src/fs/dentry.rs:40-92 | over any run of mounts and lookups every lookup agrees with an uncached walk, panics exactly without a mount or a usable path; each call's changes are listed, every eviction among them takes a non-mount entry with the smallest tick out of a full cache, and the cache is never larger than its size |
| CacheRuns.LookupFinds | kernel/src/fs/dentry.rs:74-162 | what a lookup returns in terms of listings and inode numbers alone: the inode at the end of a trail from the root, or the error of the step that fails |
| CacheRuns.AliasedAnswer | kernel/src/fs/dentry.rs:140-141 | a path below an aliased key resolves to nothing while the aliased entry leads on |
| CacheRuns.AmbiguousLookup | kernel/src/fs/dentry.rs:74-92 | for every ambiguous path, a file system and a run where the code's rule gives a wrong answer |
| RamFs.NumberRoundTrip | kernel/src/fs/ramfs/mod.rs:383-389 | a number survives its bytes |
| RamFs.EntryRoundTrip | kernel/src/fs/ramfs/mod.rs:372-389 | a directory entry survives its 256 bytes |
| RamFs.EntryLayout | kernel/src/fs/ramfs/mod.rs:372-389 | which byte of a slot holds what: the number, least byte first, the length, the name |
| RamFs.EntryForLayout | kernel/src/fs/ramfs/mod.rs:205-210 | the bytes written for a name, with zeros behind it |
| RamFs.ListedPair | kernel/src/fs/ramfs/mod.rs:414-437 | a pair is listed exactly when a slot holds its number and its name, neither of them zero or empty |
| RamFs.SlotsWithSlot | kernel/src/fs/ramfs/mod.rs:158-165 | overwriting one slot of one block changes exactly that slot of the row |
| RamFs.WriteFirstFree | kernel/src/fs/ramfs/mod.rs:164-165 | writing the first free slot appends to the listing; an entry with inode 0 or no name adds nothing |
| RamFs.PushBlock | kernel/src/fs/ramfs/mod.rs:166-171 | with every slot taken, a new block continues the listing |
| RamFs.FirstFreeIsNext | kernel/src/fs/ramfs/mod.rs:158-164 | searching the last block first still finds the first free slot of all |
| RamFs.Inode.FindFree | kernel/src/fs/ramfs/mod.rs:158-164 | the slot found is free and those looked at before are not |
| RamFs.Inode.AppendDirEntry | kernel/src/fs/ramfs/mod.rs:156-172 | appends to the listing and keeps all blocks but the last full |
| RamFs.DirIterator.Next | kernel/src/fs/ramfs/mod.rs:414-437 | yields the next listed pair and leaves the rest |
| RamFs.Inode.List | kernel/src/fs/ramfs/mod.rs:346-358 | the whole listing, or the error for a non-directory |
| RamFs.Inode.AddDirEntry | kernel/src/fs/ramfs/mod.rs:174-227 | adds exactly a name of at most 247 bytes that no listed pair has, to a directory; each refusal and the panic under exactly its own condition |
| RamFs.AddedExactly | kernel/src/fs/ramfs/mod.rs:190-212 | over any run, what is listed is exactly each name's first use with a number |
| RamFs.AddAll | kernel/src/fs/ramfs/mod.rs:174-227 | after any run of adds the blocks are listed as exactly the pairs added, in order, each name once, and all of them but the last are full; a pair is listed exactly when it is the first use of a name of 1 to 247 bytes with a number |
| RamFs.Inode.Seen | kernel/src/fs/ramfs/mod.rs:346-358 | what the cache sees of an inode: its listing, or the error for a non-directory |
| RamFs.AsFileSystem | kernel/src/fs/ramfs/mod.rs:60-91 | the super block as a file system: each number gives its own inode as read from its blocks, no other number gives any, and only directories list |
| RamFs.FindInListing | kernel/src/fs/dentry.rs:135-138 | searching a listing with distinct names finds exactly the pairs it holds |
| Bits.SetBit8 | kernel/src/memory/allocator/mod.rs:196 | setting a bit changes that bit alone |
| Bits.ClearBit8 | kernel/src/memory/allocator/mod.rs:220 | clearing a bit changes that bit alone |
| Bits.AllOnes8 | kernel/src/memory/allocator/mod.rs:183-188 | a byte is `0xFF` exactly when it has eight leading ones |
| Chains.TakeHere | kernel/src/memory/allocator/mod.rs:195-201 | taking a clear bit makes exactly one new slot live and leaves spare bits clear |
| Chains.TakeBelow | kernel/src/memory/allocator/mod.rs:204-211 | taking a slot further down keeps the chain in order |
| Chains.DropHere | kernel/src/memory/allocator/mod.rs:215-220 | clearing a bit frees exactly its own slot |
| Chains.PageCount | kernel/src/memory/allocator/mod.rs:43-48 | one page for the first bucket and two for each overflow bucket, all different |
| Buckets.Bucket.constructor | kernel/src/memory/allocator/mod.rs:164-174 | a new bucket is empty and in order |
| Buckets.Bucket.IsEmpty | kernel/src/memory/allocator/mod.rs:176-178 | true exactly when no bit is set |
| Buckets.Bucket.TakeLowest | kernel/src/memory/allocator/mod.rs:181-198 | takes the lowest clear bit within the page, or reports that all are set |
| Buckets.Bucket.Grow | kernel/src/memory/allocator/mod.rs:207-208 | a new overflow bucket with its first slot live on two new pages |
| Buckets.Bucket.AllocateBlock | kernel/src/memory/allocator/mod.rs:180-212 | the lowest free slot of the first bucket with one becomes live; the chain grows only when every bucket is full, and then gives the first slot of the new page; failure changes nothing |
| Buckets.Bucket.FreeBlock | kernel/src/memory/allocator/mod.rs:214-228 | exactly the block at the address stops being live, and an overflow bucket left empty is unlinked with its two pages |
| Buckets.GrabBelow | kernel/src/memory/allocator/mod.rs:204-205 | an allocation further down is an allocation of the whole chain |
| Buckets.ReleaseBelow | kernel/src/memory/allocator/mod.rs:221-227 | freeing further down and unlinking keeps every overflow bucket non-empty |
| Buckets.UnlinkPages | kernel/src/memory/allocator/mod.rs:50-57 | the pages given back are exactly those of the buckets unlinked |
| KernelHeap.SizeClassFits | kernel/src/memory/allocator/mod.rs:100-115 | the smallest class whose blocks fit, and none above 2048 |
| KernelHeap.ClassIs | kernel/src/memory/allocator/mod.rs:94-115 | the class of a request is the least whose blocks are as large as its size and its alignment; there is none exactly when one of them is above 2048 |
| Chains.BlockSizeIs | kernel/src/memory/allocator/mod.rs:100-115 | blocks of class c have 8 times 2^c bytes |
| KernelHeap.SlotRoundTrip | kernel/src/memory/allocator/mod.rs:201-218 | the address of a block leads back to its bit |
| KernelHeap.BlockAligned | kernel/src/memory/allocator/mod.rs:93-121 | every block satisfies the alignment asked for |
| KernelHeap.LiveBlocksApart | kernel/src/memory/allocator/mod.rs:180-228 | live blocks of all classes never overlap |
| KernelHeap.HeldCount | kernel/src/memory/allocator/mod.rs:43-57 | the pages held are one per first bucket and two per overflow bucket |
| KernelHeap.KAllocator.constructor | kernel/src/memory/allocator/mod.rs:60-66 | nothing is live at the start |
| KernelHeap.KAllocator.Open | kernel/src/memory/allocator/mod.rs:74-77 | the first bucket of a class, with one slot live |
| KernelHeap.KAllocator.Allocate | kernel/src/memory/allocator/mod.rs:93-121 | the page allocator exactly for a size or alignment above 2048; else an aligned new block of the least class that fits both, the lowest free one of the first bucket with one, or the first of a new page; an error exactly with every bucket full and no page, a panic exactly for an alignment beyond a page or with every bucket of an open class full, a page for blocks and none for the bucket |
| KernelHeap.KAllocator.Deallocate | kernel/src/memory/allocator/mod.rs:123-148 | frees exactly the block at the address, in the least class that fits; panics exactly for a class without a bucket or an alignment beyond a page |
| KernelHeap.Run | kernel/src/memory/allocator/mod.rs:93-148 | over any run, call by call: a block handed out is new, a free removes its own block alone and never panics, other calls change nothing; at every moment the blocks out are aligned, never overlap and are exactly the set bits, and the pages are counted |
| FreeLists.MergedGood | kernel/src/memory/allocator/page.rs:229-258 | a merge shortens the list or raises the end of an entry below the highest start, so merging ends |
| FreeLists.FitThenCut | kernel/src/memory/allocator/page.rs:73-78 | finding a start and cutting the first run with that start is first fit, and panics exactly when an earlier, shorter run starts there too |
| FreeLists.CutIs | kernel/src/memory/allocator/page.rs:266-296 | cutting a run at a start succeeds exactly when the first entry there is long enough; without one it panics exactly when the pages are full |
| FreeLists.GaveBelow | kernel/src/memory/allocator/page.rs:331-333 | past a full page of lower entries, returning a run is returning it to the rest of the chain |
| EntryLists.RemoveRefines | kernel/src/memory/allocator/page.rs:203-226 | on every chain, trailing empty page or not, removing keeps the shape and removes from the flat list, with the copy the code leaves behind |
| EntryLists.RemoveIsExact | kernel/src/memory/allocator/page.rs:203-226 | exactly one entry leaves the list exactly when the entries do not fill whole pages or it is the last of them |
| EntryLists.InsertRefines | kernel/src/memory/allocator/page.rs:159-179 | inserting keeps the shape and inserts into the flat list, one entry crossing each page boundary, a new entry page and its failure included |
| EntryLists.AppendRefines | kernel/src/memory/allocator/page.rs:181-201 | appending puts the entry at the end of the flat list, a new entry page and its failure included |
| EntryLists.PageTakenOpens | kernel/src/memory/allocator/page.rs:386-409 | the page for a new entry page comes off the first run of the full last page |
| FreeRuns.MergeKeeps | kernel/src/memory/allocator/page.rs:244-252 | merging neighbours keeps the free bytes and the order |
| FreeRuns.InsertKeeps | kernel/src/memory/allocator/page.rs:324-326 | inserting a disjoint run in its place keeps order and adds exactly its bytes |
| FreeRuns.GrowKeeps | kernel/src/memory/allocator/page.rs:315-321 | growing an entry to the front keeps order and adds exactly the run's bytes |
| FreeRuns.DroppedSorted | kernel/src/memory/allocator/page.rs:203-226 | removing keeps the runs disjoint exactly when no copy is left behind |
| FreeRuns.TakeKeeps | kernel/src/memory/allocator/page.rs:276-285 | removing or shrinking an entry takes exactly the allocated bytes, and keeps the runs disjoint exactly when no copy is left behind |
| FreeRuns.TookKeeps | kernel/src/memory/allocator/page.rs:73-78 | among disjoint runs first fit never panics, fails exactly when every run is too short, else carves out the front of the first long enough; disjointness exactly as above |
| ReturnedRuns.SquashFree | kernel/src/memory/allocator/page.rs:229-264 | merging over the whole chain keeps the free bytes, and never separates runs that overlap |
| ReturnedRuns.SquashSorted | kernel/src/memory/allocator/page.rs:229-264 | merging keeps the runs disjoint exactly when the merges, those with the last entry aside and counted in one scan of the list, are no more than the entries past the last whole page |
| ReturnedRuns.CleanStep | kernel/src/memory/allocator/page.rs:229-264 | that count follows the loop: it drops by one with each merge that leaves no copy and stays otherwise |
| ReturnedRuns.UncleanFills | kernel/src/memory/allocator/page.rs:229-264 | a merge that leaves a copy behind ends with whole pages: the entries past the last one are gone and no more |
| ReturnedRuns.CleanShort | kernel/src/memory/allocator/page.rs:229-258 | on one page that is not full no merge leaves a copy |
| ReturnedRuns.CleanEnough | kernel/src/memory/allocator/page.rs:229-264 | on any chain, as many entries past the last whole page as neighbours that touch are enough |
| ReturnedRuns.EmptyRunSpins | kernel/src/memory/allocator/page.rs:229-258 | with an entry of no pages a merge can leave the list as it was, so the loop would not end |
| ReturnedRuns.SquashSeparates | kernel/src/memory/allocator/page.rs:229-264 | afterwards no two entries of one page touch |
| ReturnedRuns.SquashFullPage | kernel/src/memory/allocator/page.rs:229-258 | on one full page the runs stay disjoint exactly when at most the last two touched |
| ReturnedRuns.GaveFree | kernel/src/memory/allocator/page.rs:303-341 | exactly the returned run becomes free, if it is recorded, and exactly the page of a new entry page stops being free |
| ReturnedRuns.GaveSorted | kernel/src/memory/allocator/page.rs:303-341 | returning a run keeps the runs disjoint exactly when a new entry page leaves its run something and the merges, counted before the call, are no more than the entries past the last whole page |
| ReturnedRuns.CleanOnOnePage | kernel/src/memory/allocator/page.rs:303-341 | on one page that is exactly when the page does not become full, or becomes full with no two entries touching, the last two aside |
| ReturnedRuns.CleanGiveEnough | kernel/src/memory/allocator/page.rs:303-341 | on any chain, as many entries past the last whole page as neighbours that touch are enough |
| ReturnedRuns.CleanOnCoalesced | kernel/src/memory/allocator/page.rs:303-341 | on a coalesced list that is exactly when a new entry page leaves its run something and no merge follows the filling of the last slot |
| ReturnedRuns.GaveCoalesced | kernel/src/memory/allocator/page.rs:303-341 | a coalesced list stays so exactly when the run did not fill a gap and did not start a page right behind its neighbour |
| EntryPages.EntryPage.FindFreePages | kernel/src/memory/allocator/page.rs:144-157 | first fit over the whole chain |
| EntryPages.EntryPage.InsertEntry | kernel/src/memory/allocator/page.rs:159-179 | shifts up in place and passes the last entry on, to a new page if need be |
| EntryPages.EntryPage.AppendEntry | kernel/src/memory/allocator/page.rs:181-201 | the first empty slot of the chain, or a new page |
| EntryPages.EntryPage.RemoveEntry | kernel/src/memory/allocator/page.rs:203-226 | shifts down in place, pulls one entry in, and unlinks an empty page |
| EntryPages.EntryPage.AddEntryPage | kernel/src/memory/allocator/page.rs:344-348 | takes a page from this page's first run and links a blank page; without a frame the page taken is gone |
| EntryPages.EntryPage.RemoveEntryPage | kernel/src/memory/allocator/page.rs:414-447 | unlinks the last page of the chain |
| EntryPages.EntryPage.AllocPages | kernel/src/memory/allocator/page.rs:266-296 | on every chain, takes the pages from the front of the first run with that start; without one it returns, or panics past full pages, and a run too short panics |
| EntryPages.EntryPage.Allocate | kernel/src/memory/allocator/page.rs:73-78 | first fit on every chain, copies of entries included, shape kept |
| EntryPages.EntryPage.SquashEntries | kernel/src/memory/allocator/page.rs:229-264 | on every chain, terminates with the merged list, copies left behind included |
| EntryPages.EntryPage.DeallocPages | kernel/src/memory/allocator/page.rs:303-341 | on every chain, returns the run as the flat list says; an error exactly when a new entry page is needed and cannot be mapped |
| PageRuns.StepAccounted | kernel/src/memory/allocator/page.rs:73-341 | one call keeps every byte free, out or lost, and only one of them |
| PageRuns.StepSorted | kernel/src/memory/allocator/page.rs:73-341 | one call keeps the free runs disjoint exactly when it leaves no copy behind |
| PageRuns.PlayAccounted | kernel/src/memory/allocator/page.rs:73-341 | over any run every byte is accounted for up to and including the first call that leaves a copy behind, and the runs are disjoint until then |
| PageRuns.PlayLost | kernel/src/memory/allocator/page.rs:73-341 | nothing is lost over a run exactly when every page taken is mapped and every run given back is recorded without a new entry page |
| PageRuns.AnswerTold | kernel/src/memory/allocator/page.rs:73-341 | an address answered is the start of the first run long enough, and exactly that run goes out, carved from the free ones; a return is refused exactly when a new entry page is needed and cannot be mapped; exactly what is lost |
| PageRuns.ToldExactly | kernel/src/memory/allocator/page.rs:73-92 | among disjoint runs pages are refused exactly when every run is too short or they cannot be mapped, and nothing panics |
| PageRuns.Conserved | kernel/src/memory/allocator/page.rs:73-341 | when no call leaves a copy or loses anything, what is free and what is out are together what was free at the start, and never share a byte |
| PageRuns.UnfilledIsClean | kernel/src/memory/allocator/page.rs:73-341 | a call that makes no entry page and does not end with whole pages leaves no copy |
| PageRuns.ConservedUnfilled | kernel/src/memory/allocator/page.rs:73-341 | over any chain, a run that loses nothing and never ends a call with whole pages leaves no copy and conserves what is free and out |
| PageRuns.OnePageIsClean | kernel/src/memory/allocator/page.rs:73-341 | a run that keeps below 170 entries never leaves a copy, however many runs are returned |
| PageRuns.ConservedOnOnePage | kernel/src/memory/allocator/page.rs:73-341 | there free and out are conserved unless a run is lost |
| PageRuns.ShortIsOnOnePage | kernel/src/memory/allocator/page.rs:73-341 | returns no more than the page has slots left keep a run below 170 entries |
| PageRuns.ShortIsClean | kernel/src/memory/allocator/page.rs:73-341 | such a run, which a caller can see beforehand, never leaves a copy |
| PageRuns.ConservedShort | kernel/src/memory/allocator/page.rs:73-341 | and conserves what is free and out unless a run is lost |
| PageRuns.StillFree | kernel/src/memory/allocator/page.rs:73-78 | a run handed out from one of two entries that hold its first byte is still free |
| PageRuns.DroppedTwins | kernel/src/memory/allocator/page.rs:203-226 | what a removal from whole pages leaves: the last entry twice |
| PageRuns.TwinOutTwice | kernel/src/memory/allocator/page.rs:73-78 | with that list, two allocations that only this entry can serve hand out the same run |
| FilledPage.FillsPage | kernel/src/memory/allocator/page.rs:73-341 | from one run of more than 338 pages, calls that leave a page of exactly 170 disjoint entries |
| FilledPage.CopyLeft | kernel/src/memory/allocator/page.rs:203-226 | one page more, and the rest of the long run is in the list twice |
| FilledPage.SameRunTwice | kernel/src/memory/allocator/page.rs:73-341 | two allocations later the same run is out twice |
| PageRuns.Run | kernel/src/memory/allocator/page.rs:73-341 | the chained pages answer every call and end in the lists of that run, up to the first panic; each answer says what happened: the address of a run that went out, pages refused, a return refused |
| Frames.UsableGood | kernel/src/memory/frame/mod.rs:188-192 | keeping the usable regions keeps the list ascending and disjoint |
| Frames.UsableKept | kernel/src/memory/frame/mod.rs:188-192 | every usable region is kept, in order, and no other |
| Frames.BootFrameAddress | kernel/src/memory/frame/boot.rs:33-46 | the k-th boot frame is the frame numbered k, and there is no other |
| Frames.FramesAscend | kernel/src/memory/frame/boot.rs:33-38 | boot frames ascend by whole frames, so numbering is injective |
| Frames.NumberOfFrame | kernel/src/memory/frame/mod.rs:139-160 | with the count meant, the number of the k-th frame is k |
| Frames.FrameOfNumber | kernel/src/memory/frame/mod.rs:151-160 | an address has a number exactly when a region holds it, and lies in that frame |
| Frames.WrittenNumberIsRight | kernel/src/memory/frame/mod.rs:151-160 | as written, the number is right exactly when no frame precedes the region of the address, or no region holds it |
| Frames.MeantIs | kernel/src/memory/frame/mod.rs:151-160 | the number meant is the frames before the region and the frame within it |
| Frames.WrittenIs | kernel/src/memory/frame/mod.rs:151-160 | the number as written has 2^52 too much for each region passed and its frames subtracted, modulo 2^64 |
| Frames.WrittenLands | kernel/src/memory/frame/mod.rs:151-160 | it is within a bitmap exactly when a multiple of 4096 regions was passed and the frame lies far enough into its region, and is then the frame's own exactly in the first region with frames |
| Frames.CheckedNumberIsRight | kernel/src/memory/frame/mod.rs:151-160 | in a build that checks the subtraction, the number is right exactly when no non-empty region is passed, and else the code panics, also for addresses no region holds |
| FrameBitmap.MarkBits | kernel/src/memory/frame/mod.rs:113-117 | marking changes one frame's bit |
| FrameBitmap.UnmarkBits | kernel/src/memory/frame/mod.rs:120-124 | freeing changes one frame's bit |
| FrameBitmap.CommentedFindsLowest | kernel/src/memory/frame/mod.rs:127-136 | with the comment's test, the lowest free frame, or none exactly when all are used |
| FrameBitmap.WrittenFindsLowest | kernel/src/memory/frame/mod.rs:127-136 | with the code's test, right exactly when the first word is partly used, or full with the next frame free |
| FrameBitmap.WrittenStops | kernel/src/memory/frame/mod.rs:127-136 | where the code's test stops: in the first word that is not zero, behind its leading ones; nowhere exactly when all are zero |
| FrameBitmap.WrittenReturnsUsed | kernel/src/memory/frame/mod.rs:127-136 | with the code's test a frame in use is returned again |
| FrameBitmap.BytesAreFrames | kernel/src/memory/frame/mod.rs:48-50 | the bytes of the usable regions are exactly their frames |
| FrameBitmap.BitmapSuffices | kernel/src/memory/frame/mod.rs:48-62 | after three roundings up there is a bit for every usable frame, in no more frames than there are |
| FrameBitmap.BitmapLeast | kernel/src/memory/frame/mod.rs:48-62 | no smaller number of frames has a bit for every usable frame |
| FrameBitmap.EndsDecide | kernel/src/memory/frame/mod.rs:195-201 | comparing the first and last frame decides contiguity of all between |
| FrameAllocator.BootFrameAllocator.AllocateFrame | kernel/src/memory/frame/boot.rs:42-46 | hands out the frames in number order |
| FrameAllocator.FrameToAddress | kernel/src/memory/frame/mod.rs:139-148 | the loop finds the k-th boot frame |
| FrameAllocator.AddressToFrame | kernel/src/memory/frame/mod.rs:151-160 | the loop computes the number meant, the wrapped one, or the overflow |
| FrameAllocator.RequiredBitmapSize | kernel/src/memory/frame/mod.rs:48-53 | the least number of bytes with a bit for every usable frame |
| FrameAllocator.AllocateBitmap | kernel/src/memory/frame/mod.rs:56-110 | exact failure condition; else a bit per frame, set for exactly those used while booting, on contiguous frames |
| FrameAllocator.BitmapFrameAllocator.FirstFreeFrame | kernel/src/memory/frame/mod.rs:127-136 | the loop over the words, by either test |
| FrameAllocator.BitmapFrameAllocator.AllocateFrame | kernel/src/memory/frame/mod.rs:164-175 | marks the frame found and returns its address; spare bits give none |
| FrameAllocator.BitmapFrameAllocator.DeallocateFrame | kernel/src/memory/frame/mod.rs:179-185 | clears exactly the bit of the address's number, and panics without one or on overflow |
| FrameAllocator.TakeAsWritten | kernel/src/memory/frame/mod.rs:127-175 | with the code's test, takes give the rest of the first word and then frame 64 over and over; exactly which of them give a frame in use |
| FrameAllocator.WrittenRepeats | kernel/src/memory/frame/mod.rs:127-175 | the t-th of these takes gives a frame in use exactly when there are more than 64 usable frames and those used while booting and t are together beyond 64 |
| WrittenFrames.BitmapFits | kernel/src/memory/frame/mod.rs:48-53 | a bitmap of the required size is smaller than the count at which the wrapped number repeats |
| WrittenFrames.ReleaseAsWritten | kernel/src/memory/frame/mod.rs:151-185 | releasing a frame beyond the first region with frames returns it and clears the bit of another usable frame, or panics and changes nothing, and exactly when which |
| WrittenFrames.StopsInWord | kernel/src/memory/frame/mod.rs:127-136 | after boot the code's test never leaves the first word: its first clear bit, or the bit after it |
| WrittenFrames.Run | kernel/src/memory/frame/mod.rs:127-185 | over any run with the code's own test and numbers a take gives the lowest available frame of the first word, without one frame 64 whether out or not; a release works in the first region with frames and panics beyond |
| FrameAllocator.Run | kernel/src/memory/frame/mod.rs:163-186 | over any run each allocation returns the lowest available frame, never one out or used while booting, none only when none is available, and nothing panics |

## Left out

- Hardware, boot, serial, timer, trap and page-table code: port and library calls with no property to state here.
- Spin locks, reference counts and concurrent lookups.
- The ext2 records: layouts only, and the module is commented out.
- RAM file system symlink, unlink, rename and destroy; inode times, permissions and numbers.
- `split_file_at_dot`, `file_prefix`, `join`, `set_file_name` and `with_file_name`: easy members over what is proved.
- `mount_fs` with a supplied destination, and the cache's `delete`, `delete_inode`, `unmount` and `reload`.
- The first entry of the page allocator, which is two pages too long (kernel/src/memory/allocator/page.rs:379-382): runs start from any sorted list instead.
- Byte ownership beyond 64 bits: addresses do not wrap, except in `address_to_frame`.
- EntryPages.EntryPage.DeallocPages: runs of at least one page; `EmptyRunSpins` shows that merging may not end with an entry of no pages.
- EntryPages.EntryPage.AllocPages: a run shorter than the pages asked for panics, as in a build that checks the subtraction; the wrapped page count of other builds is not modelled.
- PageRuns.Run: stops at the first panic. It starts from one entry page and grows its own chain.
- KernelHeap.Run: stops at the first panic, and at an answer no page allocator gives.
- FrameAllocator.Run: uses the test of the comment and correct numbering; `WrittenFrames.Run` is the run with the code's own.
- WrittenFrames.Run: a bitmap of more than one word with a frame used while booting, as the kernel's own bitmap always is; the build that checks the subtraction is in `CheckedNumberIsRight` only.
