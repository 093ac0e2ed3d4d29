# apkg, modelled and verified in Dafny

apkg mounts a tree of packages through FUSE. A signed database names the
packages; a lookup turns a name into the newest matching package, gives the
package a range of inode numbers, and hands inodes to the kernel, which counts
references to them. This project models that core and proves what it is for:

* **Version order and lookup.** `collatedVersion` makes index keys whose byte
  order is meant to be version order; `natsortCompare` computes that order a
  second time, in a very different way. Both loops are proved against reference
  definitions, and it is proved exactly when the two orders agree, for all
  byte strings. On top of
  that, the one-step cursor search (`Seek` past the key, `Prev`, compare) is
  proved to return the maximum of all matching packages, and to find one
  exactly when one matches and no stored key hides it.
* **Inode ranges.** Any number of lookups in a root database and its
  sub-databases, interleaved step by step: the ranges tile the allocated
  numbers, a hash keeps one number per database, and `GetInode` finds exactly
  the package whose range holds a number. Every number a lookup returns leads
  to its package, in every run, if and only if no two databases of the family
  index that package.
* **Reference counts.** Any number of lookups and forgets, interleaved step by
  step, in runs of any length, including transfers between two objects of one
  node that may be the same object: while counts stay below 2^48, references
  are conserved, and a node is cached exactly while it has some.
* **Database files and package files.** The package tables as left by any run
  of calls; the exported data section with its patched header, read back to the
  same tables; the package file, read back to the same package.

## How it is organised

| file | what it models |
|---|---|
| `Bytes.dfy`, `Codec.dfy`, `Files.dfy` | byte strings and their order, fixed-width numbers, files with a position, SHA-256 as a parameter |
| `Collate.dfy`, `Natsort.dfy`, `VersionOrder.dfy` | the two implementations of version order, and how they relate |
| `Buckets.dfy`, `Records.dfy` | bolt buckets as key-sorted sequences, and the records in them |
| `Pins.dfy`, `Lookup.dfy`, `Resolve.dfy` | version pins, the search for a name, names with an OS and architecture, link targets |
| `InodeRanges.dfy`, `InodeRuns.dfy`, `LookupCode.dfy` | inode numbers as a state machine over all interleavings; runs nobody interrupts, and packages with two homes; the database object itself |
| `InodeCache.dfy`, `CacheCode.dfy` | reference counts as a state machine over all interleavings; the cache object itself |
| `Varblob.dfy`, `Signatures.dfy` | length-prefixed blobs (unsigned LEB128, section 7.6 of DWARF version 5), signature blobs |
| `Database.dfy`, `Index.dfy` | the package tables and their invariant; the calls that change them |
| `Export.dfy`, `Update.dfy`, `DbFile.dfy` | the exported data section; what it does to a database that already has packages; the file around it, written and read |
| `PackageFile.dfy`, `Filenames.dfy` | package files, written and read; what their names say |

Code that the repository writes as loops or as methods on objects is a method
or a class here, proved against a function; the lemmas are about the function.
`dafny verify dfyconfig.toml` checks everything.

Numbers are unbounded unless the code's width matters: inode numbers and
reference counts wrap at 2^64, header fields at 2^32, the numbers of
`ReadUvarint` at 2^64.

## Where code and documentation disagree

The model follows the code:

* The repository's README gives a database signature 128 bytes; the code
  reserves 99 (`SignatureSize`, apkgsig/verify.go:31), so data starts at 295.
* Its example pins `sys-libs.glibc` and looks up `sys-libs.glibc.libs`; the code
  looks a pin up under the exact name asked for (apkgdb/pin.go:116), so that
  pin has no effect on that lookup (`Lookup.PinIsExact`).
* A downloaded package is validated with 128 bytes read at the signature
  (apkgdb/package.go:449), 29 more than a signature has. That rejects no file
  made from a squashfs image, because an image is longer than that
  (`PackageFile.ProcessedValidates`).

## Model

| member | source | states |
|---|---|---|
| `Collate.CollatedVersion` | apkgdb/collate.go:6-36 | the two nested loops compute the key defined chunk by chunk |
| `Collate.IndexDigit` | apkgdb/collate.go:8 | the position of the first digit, or -1 when there is none |
| `Collate.CountDigits` | apkgdb/collate.go:19-27 | the inner loop stops after the digit run, or after 33 digits of it |
| `Collate.UncollateCollated` | apkgdb/collate.go:18-33 | deleting the byte before each maximal digit run of a key gives back the name, for every byte string |
| `Collate.CollatedInjective` | apkgdb/collate.go:6-36 | different names have different keys |
| `Collate.CollatedAppend` | apkgdb/collate.go:6-36 | the key of a concatenation is the concatenation of the keys unless a digit run is continued |
| `Collate.CollatedJoin` | apkgdb/collate.go:6-36 | and so it is when the first part does not end in a digit |
| `Collate.CollatedDot` | apkgdb/collate.go:6-36 | keys of dotted names split at every dot, for all names |
| `Collate.DotPrefixReflected` | apkgdb/lookup.go:145-157 | a stored key continues the key of a name with a dot exactly when the stored name continues that name with a dot, whatever the bytes |
| `Collate.KeyPrefixReflected` | apkgdb/lookup.go:147-155 | a key that is a prefix of another belongs to a name that is a prefix of the other, for all names unless the first ends with a byte from 0x80 to 0xa0; so always among ASCII names |
| `Collate.LengthBytePrefix` | apkgdb/collate.go:29-32 | such a byte alone has a key that starts the key of every number of its length |
| `Natsort.NatsortCompare` | apkgdb/natsort.go:30-124 | for all byte strings: true exactly when the token sequence of the first precedes that of the second, numbers by value and after every byte; it terminates |
| `Natsort.MeasureNumber` | apkgdb/natsort.go:54-89 | the measuring loop ends behind the number, with its leading zeros stepped over and nothing else |
| `Natsort.CompareNumbers` | apkgdb/natsort.go:52-107 | comparing stripped numbers by length and then as strings decides as their values do |
| `Natsort.NatLessIrreflexive` | apkgdb/natsort.go:30-124 | no name precedes itself, and no two names precede each other |
| `Natsort.NatLessTransitive` | apkgdb/natsort.go:30-124 | the natural order is transitive |
| `Natsort.NatIncomparable` | apkgdb/natsort.go:66-71 | two names are incomparable exactly when they are equal after removing leading zeros from every number |
| `Natsort.NatIncomparableTransitive` | apkgdb/natsort.go:30-124 | incomparability is transitive, so the order is a strict weak order |
| `VersionOrder.OrdersAgreeExactly` | apkgdb/natsort.go:30-124 | for all byte strings, padded numbers and bytes of 0x80 and above included: both implementations answer alike if and only if, at the first place where the names differ, two numbers are ordered by their chunks as they are by their values (and, for equal values, as what follows them is), and a byte against a number is below the number's length byte |
| `VersionOrder.RunKeys` | apkgdb/collate.go:18-33 | how the keys of two different numbers of any length compare, chunk by chunk, whatever follows them |
| `VersionOrder.NumberKey` | apkgdb/collate.go:29-32 | how the key of a byte that is not a digit compares with that of a number |
| `VersionOrder.AsciiRuns` | apkgdb/collate.go:18-33 | before ASCII, only the digits decide: the shorter number comes first unless its full chunks exceed the digits of the longer one in their place |
| `VersionOrder.CleanAgree` | apkgdb/collate.go:18-33 | for ASCII names without superfluous zeros the condition comes down to the full chunks of the shorter number |
| `VersionOrder.OneOrder` | apkgdb/collate.go:6-36 | on ASCII names without superfluous zeros and with numbers of at most 33 digits, both compute one order |
| `VersionOrder.KeysTotal` | apkgdb/collate.go:6-36 | key order is total on names |
| `VersionOrder.PaddingSeparates` | apkgdb/natsort.go:66-71 | names that differ in leading zeros only are tied by natsortCompare and never by the index |
| `VersionOrder.HighByteReverses` | apkgdb/collate.go:31 | a byte above the length bytes is ordered one way by natsortCompare and the other way by the index, against any number |
| `Buckets.GetPut` | apkgdb/index.go:261 | a Put changes exactly its own key |
| `Buckets.GetDelete` | apkgdb/index.go:446 | a Delete removes exactly its own key |
| `Buckets.SeekPrevGreatest` | apkgdb/lookup.go:146-148 | Seek then Prev gives the greatest entry strictly below the key, and nothing exactly when there is none |
| `Buckets.SameContent` | apkgdb/index.go:261-285 | buckets that answer every Get alike are equal |
| `Lookup.SearchMaximal` | apkgdb/lookup.go:145-161 | a search that succeeds returns a stored package whose name continues the name with a dot, with the greatest key of all such packages |
| `Lookup.SearchComplete` | apkgdb/lookup.go:145-161 | for all names: the search succeeds exactly when some package matches and no stored key continues the name's key with a byte between the dot and 0xff |
| `Lookup.NeighbourHides` | apkgdb/lookup.go:145-157 | a stored name that continues the name with a byte above the dot (libpng16 next to libpng, foo1a next to foo1) hides all packages of the name, unless it continues a number (foo12 next to foo1) |
| `Lookup.HiddenByName` | apkgdb/lookup.go:145-157 | and only such names do, for a name that ends with neither a digit nor a byte from 0x80 to 0xa0 |
| `Lookup.Neighbours` | apkgdb/lookup.go:145-157 | for every such pair of names an index in which a package matches and the search finds nothing |
| `Lookup.SearchLatest` | apkgdb/lookup.go:145-161 | for all names: the package found is later in natural order than another matching one exactly when the two orders agree on their names |
| `Lookup.SearchLatestClean` | apkgdb/lookup.go:145-161 | so on canonical names it is the last of all matching ones in natural order |
| `Lookup.ExactIsNamed` | apkgdb/lookup.go:108-121 | an exact match is the package of that very name, and is found whenever it is stored |
| `Lookup.Search` | apkgdb/lookup.go:145-161 | the cursor code computes the search the lemmas are about |
| `Lookup.InternalLookup` | apkgdb/lookup.go:81-170 | exact match first, then the pin, then the latest version |
| `Lookup.ResolveSound` | apkgdb/lookup.go:81-170 | whatever is found, with or without a pin, is stored, and is the name's own package or continues the name with a dot |
| `Lookup.PinKeepsExact` | apkgdb/lookup.go:108-123 | a pin never changes the answer for a name that is stored |
| `Lookup.PinnedLookup` | apkgdb/lookup.go:123-161 | for a name that is not stored, said of the stored packages and the pins bucket alone: with a pin of this very name under a channel that is neither empty nor "latest", the greatest package continuing name and pinned version if there is one and no stored key hides it; otherwise the greatest one continuing the name if there is one and no stored key hides it; otherwise, and for names without a dot, nothing |
| `Lookup.PinTakesEffect` | apkgdb/pin.go:105-121 | a version set for a name and not changed since decides the lookup of that name on that channel, whatever newer packages there are, after any history of pin changes |
| `Lookup.UnpinnedChannels` | apkgdb/pin.go:105-109 | no pin has an effect on the channels "" and "latest" |
| `Lookup.PinIsExact` | apkgdb/pin.go:116 | setting a pin for one name leaves the lookup of every other name alone, longer ones included |
| `Pins.MakePinKey` | apkgdb/pin.go:10-16 | the buffer filled in place holds channel, NUL and prefix |
| `Pins.PinKeyInjective` | apkgdb/pin.go:10-16 | channels without NUL never share a key |
| `Pins.PinKeysCollide` | apkgdb/pin.go:10-16 | with NUL in a channel, two different pins can have one key |
| `Pins.ListPins` | apkgdb/pin.go:75-102 | the cursor loop collects exactly the pins whose key starts with channel and NUL |
| `Pins.PrefixContiguous` | apkgdb/pin.go:89-98 | keys with one prefix are contiguous in key order, so the loop may stop at the first other one |
| `Pins.PinAsLeft` | apkgdb/pin.go:19-70 | after any history that does not change another pin of the same key, a pin reads as its own last change left it |
| `Pins.AlwaysAsLeft` | apkgdb/pin.go:10-70 | a pin does so after every history whatever if and only if channel and prefix have no NUL, or the key is too long to be stored at all |
| `Pins.ListedAsLeft` | apkgdb/pin.go:75-102 | listing a channel shows every such pin as the history left it, after any history; and all pins of a channel without NUL after a history of such channels |
| `Pins.PinTable.SetPin` | apkgdb/pin.go:19-32 | the bucket after SetPin, or unchanged when bolt refuses |
| `Pins.PinTable.DeletePin` | apkgdb/pin.go:35-48 | the bucket after DeletePin |
| `Pins.PinTable.GetPin` | apkgdb/pin.go:52-72 | the pin's version, or the empty one when there is no pin |
| `Pins.PinTable.LookupPinTx` | apkgdb/pin.go:105-121 | the pin that applies to a lookup on the active channel |
| `Resolve.SplitsExactly` | apkgdb/lookup.go:34-52 | a name is split exactly when it ends with a known system and a known architecture, each behind a dot, and what is left is all that precedes them |
| `Resolve.TriedTwice` | apkgdb/lookup.go:54-75 | such a name is looked up in the database of that system and architecture, and once more without them exactly when it does not exist there |
| `Resolve.TriedOnce` | apkgdb/lookup.go:35-51 | any other name is looked up in the root, once |
| `Resolve.NotTried` | apkgdb/lookup.go:20-31 | names without a dot, the linker cache, and databases that cannot be opened |
| `Resolve.SecondTry` | apkgdb/lookup.go:57-61 | said of the stored packages: a prefix with system and architecture behind it finds the greatest package continuing the prefix |
| `Resolve.LinkTarget` | apkgdb/lookup.go:20-75 | what a prefix lookup on the root found is found again, by exact match and in the same database, under its own full name, while it stays indexed there, if and only if the root asks that database for this name: not "ld.so.cache", and ending with its OS and architecture, or with none and the database is the root |
| `Resolve.SuffixAsks` | apkgdb/lookup.go:34-73 | the root asks the right database for every name that ends with its OS and architecture |
| `Resolve.LinkText` | apkgdb/package.go:123-131 | the name and inode count of a spawned package are those of its index entry |
| `Resolve.AddedFound` | apkgdb/index.go:396-425 | a package that was added is the answer to its full name, on every channel, with its own hash, inode count and name |
| `Resolve.RebuiltFound` | apkgdb/index.go:388-425 | a package built again, with a new hash, is added under the name that is already indexed; the name then leads to it on every channel, and no name to the old build |
| `Resolve.RemovedGone` | apkgdb/index.go:442-446 | a package that was removed is no longer the answer to any name |
| `Resolve.RemovedForGood` | apkgdb/index.go:442-446 | nor is it ever again, after any run of later calls that add or index it |
| `Filenames.ParsePackageFilename` | cmd/apkg-convert/process.go:372-391 | the parts rejoined are the file name, three of them before the version and two after it; an error exactly with fewer than five |
| `Filenames.JoinSplit` | cmd/apkg-convert/process.go:373 | splitting at dots loses nothing, and no part has a dot |
| `Filenames.FilenameSplits` | apkgdb/lookup.go:34-52 | a lookup takes OS and architecture off a file name just as the converter does, if it knows both |
| `Filenames.ListNames` | cmd/apkg-convert/process.go:85-90 | the names listed in the metadata, with the appends writing into the parts still to be read and changing none |
| `Filenames.NamesMatch` | cmd/apkg-convert/process.go:85-90 | every listed name is one that a prefix lookup can find the package by |
| `Filenames.ListedNames` | cmd/apkg-convert/process.go:80-90 | they are the first three parts, and then one part more at a time, up to all that precedes operating system and architecture |
| `InodeRanges.StepInv` | apkgdb/lookup.go:172-197 | every atomic step of any thread, in root or sub-database, keeps the invariant of counter, number tables, locks, package cache and tree |
| `InodeRanges.RunInv` | apkgdb/lookup.go:172-197 | every state of every run satisfies the invariant, and numbers and spawned packages are never lost |
| `InodeRanges.RangesTile` | apkgdb/lookup.go:266-277 | each number from 1000 up to the counter lies in exactly one allocated range, others in none |
| `InodeRanges.SameNumber` | apkgdb/lookup.go:172-197 | all calls of pkgIno for one hash in one database return one number, in every interleaving |
| `InodeRanges.GetInodeExact` | apkgdb/lookup.go:236-253 | predecessor search and bound check find a package exactly when it is spawned and the number lies in its range |
| `InodeRanges.SpawnedUnique` | apkgdb/package.go:137-149 | no number lies in the ranges of two spawned packages |
| `InodeRanges.NumbersStayResolved` | apkgdb/lookup.go:236-253 | for a package that no two databases index, whatever else the family holds: once a lookup has returned, its number plus any offset resolves to its package for the rest of the run, exactly for offsets up to the inode count |
| `InodeRuns.ResolvesIff` | apkgdb/package.go:97-149 | for each package: the number of every finished lookup of it leads to it, in every run without overflow, if and only if no two databases of the family index it (or two ranges of its size would overflow the counter) |
| `InodeRuns.FamilyResolvesIff` | apkgdb/package.go:97-149 | so all numbers of the family do if and only if every package has one home |
| `InodeRuns.TwoHomes` | apkgdb/package.go:97-103 | for any package indexed by two databases, a run whose second lookup returns a number that leads nowhere |
| `InodeRuns.LookupSteps` | apkgdb/lookup.go:172-197 | the steps of a lookup nobody interrupts, from a free lock to its end, are steps of the machine |
| `InodeRanges.ExactMatchResolves` | apkgdb/lookup.go:110-121 | the number an exact match of such a package returns belongs to it exactly when it has an inode |
| `LookupCode.DB.AllocInodes` | apkgdb/lookup.go:266-277 | through the parent link, a sub-database takes its range from the root's counter |
| `LookupCode.DB.PkgIno` | apkgdb/lookup.go:172-197 | the number of a hash, and the counter and table after the call |
| `LookupCode.DB.GetPkgTx` | apkgdb/package.go:93-155 | the package cache and the root's tree after the call; an error, and no change, without a usable `pkg` entry |
| `LookupCode.DB.InternalLookup` | apkgdb/lookup.go:81-170 | answer and memory after a lookup: the link's number for a prefix match, the next one for an exact match |
| `LookupCode.DB.SubGet` | apkgdb/sub.go:6-38 | which database answers for an OS and architecture, filed under them with its parent link set |
| `LookupCode.DB.Lookup` | apkgdb/lookup.go:20-75 | answer and memory of a lookup on the root, through a sub-database or not, with the second try without OS and architecture |
| `LookupCode.SearchedTwice` | apkgdb/lookup.go:57-73 | the outcome of these two tries is that of the first name unless the index does not have it, and then that of the second |
| `LookupCode.SearchedRoot` | apkgdb/lookup.go:54-75 | so the object answers with what the law about names says of its tables |
| `LookupCode.DB.GetInode` | apkgdb/lookup.go:225-254 | the root, the linker cache, or the package that `GetInodeExact` speaks of, with the number in it: 0 for its link, the others as its image counts |
| `LookupCode.LinkNumbers` | apkgdb/lookup.go:110-121 | after a prefix lookup answered n, the exact lookup of that package answers n + 1 |
| `LookupCode.LinkLeadsOn` | apkgdb/package.go:291-294 | the link at n, looked up on the root, leads to the package in its own database, and there to n + 1, if and only if the root asks that database for its text, while the package stays indexed there |
| `LookupCode.SoloRun` | apkgdb/lookup.go:172-197 | a thread of the state machine that nobody interrupts ends with the memory the methods compute, and touches nothing else |
| `LookupCode.SpawnsWhole` | apkgdb/package.go:122-131 | an indexed package is spawned under its own hash, with the inode count of its index entry |
| `LookupCode.WorldOfIndex` | apkgdb/package.go:122-131 | so the state machine, given the index's counts, describes every database the calls can leave |
| `LookupCode.CountsExist` | apkgdb/index.go:401-408 | and each database has such counts, one for each hash |
| `LookupCode.LookupLeadsIn` | apkgdb/lookup.go:110-161 | after any run, the number answered for a prefix leads to the package's link, the one answered for the full name is the next, and it and the following ones lead to the package's inodes 1, 2 and on, exactly as many as the index says, for a package with one home |
| `LookupCode.LowNumbers` | apkgdb/lookup.go:228-233 | numbers below 1000 lead to the root, the linker cache or nothing |
| `InodeCache.StepInv` | apkgfs/cache.go:3-45 | every atomic step of any lookup or forget keeps the invariant of counters, cache and lock, aliased objects included |
| `InodeCache.RunInv` | apkgfs/server.go:184-249 | every state of every run satisfies it, whatever the number of requests, as long as no node had 2^48 references outstanding before |
| `InodeCache.Conservation` | apkgfs/cache.go:3-20 | in every state of every run the counters of a node's objects add up to what its requests account for |
| `InodeCache.RestingState` | apkgfs/cache.go:30-45 | while no request is at work on a node's references, whatever requests for other nodes do and whatever forgets wait for the lock: completed lookups minus forgotten ones are all on the cached object, the node's other objects have none, and the node is cached exactly when there are any |
| `InodeCache.InsertedPositive` | apkgfs/server.go:207-208 | an object enters the cache only with a reference, although AddRef happens outside the lock |
| `InodeCache.ForgetCovered` | apkgfs/cache.go:39-44 | a forget of completed lookups never takes more than the cached object holds |
| `CacheCode.PkgFS.AddToCache` | apkgfs/cache.go:3-20 | new entry, or transfer to the cached object, or no change when both are one object |
| `CacheCode.PkgFS.RemoveFromCache` | apkgfs/cache.go:30-45 | the counts after a forget, and that the entry goes at zero or after wrapping |
| `CacheCode.PkgFS.GetInode` | apkgfs/inode.go:123-135 | the root, the cached object, or what the root makes |
| `CacheCode.PkgFS.DoLookup` | apkgfs/server.go:201-208 | a completed lookup adds one reference to its node, on top of what an object not cached before brings along, and none to any other; node 1 is the root itself |
| `CacheCode.PkgFS.DoForget` | apkgfs/server.go:224-231 | a forget takes its count off its node; a short request does nothing |
| `CacheCode.PkgFS.DoBatchForget` | apkgfs/server.go:233-249 | the loop does the forgets of the request, as many as announced or as many as are there |
| `CacheCode.BatchRead` | apkgfs/server.go:233-249 | a batch request is read as the forgets that were put into it |
| `CacheCode.BatchTotal` | apkgfs/server.go:239-247 | a batch takes its total for a node off that node, which goes exactly when nothing is left |
| `CacheCode.ForgetTooMuch` | apkgfs/cache.go:41-44 | a forget of all references, or of more than there are, ends the entry |
| `CacheCode.SoloLookup` | apkgfs/server.go:201-208 | a lookup of the state machine that nobody interrupts ends with the counts the method computes, through the transfer of a cached object to itself or the insertion of a new one |
| `CacheCode.SoloForget` | apkgfs/cache.go:30-45 | and so does a forget |
| `Codec.BEBytes` | apkgdb/index.go:395-398 | each byte of a big-endian number |
| `Varblob.ReadUvarint` | apkgsig/varblob.go:16 | value, error and rest of the input, also the value returned next to an error |
| `Varblob.PutUvarint` | apkgsig/varblob.go:33-34 | the loop writes the LEB128 form |
| `Varblob.UvarintRoundTrip` | apkgsig/varblob.go:12-42 | every 64-bit number is read back, whatever follows it |
| `Varblob.UvarintBytes` | apkgsig/varblob.go:33-34 | each byte of a number's encoding, seven bits each from the least significant on, in as few bytes as possible |
| `Varblob.UvarintRead` | apkgsig/varblob.go:16 | what is read from bytes that have an end, superfluous zeros or not: at most ten, the tenth at most 1 |
| `Varblob.UvarintEndless` | apkgsig/varblob.go:16 | the error for bytes that have none |
| `Varblob.UvarintFits` | apkgsig/varblob.go:16-23 | whatever the input, a length that is read fits 64 bits |
| `Varblob.ReadVarblob` | apkgsig/varblob.go:12-28 | the blob, or the first error, and what is left of the input |
| `Varblob.WriteVarblob` | apkgsig/varblob.go:32-42 | appends length and bytes |
| `Varblob.BlobRoundTrip` | apkgsig/varblob.go:12-42 | a blob is read back, whatever follows it, exactly when it is not longer than the reader allows |
| `Varblob.ParsedBlob` | apkgsig/varblob.go:12-28 | a blob is read exactly from its length, not above the limit, and as many bytes |
| `Signatures.Sign` | apkgsig/sign.go:15-44 | type, key and signature, refused when the key fails or the blob exceeds 99 bytes |
| `Signatures.Verify` | apkgsig/verify.go:55-94 | the signer of a valid signature by a trusted key of 32 bytes, with the version's read error ignored as in the code |
| `Signatures.SignatureVerifies` | apkgsig/verify.go:55-94 | a signature blob verifies, whatever follows it, exactly when its parts have 32 and 64 bytes, `ed25519` accepts key, data and signature, and the key is trusted |
| `Signatures.SignerVouches` | apkgsig/verify.go:55-94 | for any bytes whatever, a signer is found only if they hold a trusted key of 32 bytes and after it a signature of 64 that Ed25519 accepts for this very data |
| `Signatures.OverlongVersion` | apkgsig/verify.go:55-60 | a signature verifies like any other with a version number that is a read error |
| `Signatures.SignedParts` | apkgsig/sign.go:15-44 | the bytes signed, and when there are none: 99 of them for a key of 32 and a signature of 64, never more |
| `Signatures.VerifiedFits` | apkgsig/verify.go:31 | what verifies fills the 99 bytes reserved for it exactly, and verifies in place too |
| `Database.StoredGood` | apkgdb/index.go:388-425 | storing a package with a new hash keeps the invariant of the tables |
| `Database.EmptyGood` | apkgdb/index.go:147-182 | an empty database satisfies it |
| `Database.AddedOnly` | apkgdb/index.go:352-430 | an added package is in all six tables with its own data, and no other entry of any table has changed |
| `Database.AddSucceeds` | apkgdb/index.go:388-425 | adding succeeds exactly for a hash that is not known and entries within bolt's limits, whatever the index has under the name; otherwise nothing changes |
| `Database.MergeSucceeds` | apkgdb/index.go:247-285 | index does the same for hashes it does not know, and passes over the others |
| `Database.PackageParsed` | apkgdb/index.go:186-239 | a record that is read has type 0, the hash, size and inode count in their places, and fields within the limits |
| `Database.PinParsed` | apkgdb/index.go:304-332 | a pin record that is read has type 1 and fields of at most 256 bytes |
| `Database.PkgBytes` | apkgdb/index.go:394-409 | where each field of a `pkg` entry lies |
| `Database.RemovedOnly` | apkgdb/index.go:442-446 | removing a name removes no other one, and nothing from any other table |
| `Database.RemoveRetires` | apkgdb/index.go:442-446 | removing a package leaves its hash known and in no index entry |
| `Database.NeverBack` | apkgdb/index.go:247-252 | such a hash never comes back into the index, in any run of calls, because AddPackage refuses and index skips it |
| `Database.IndexGood` | apkgdb/index.go:185-332 | so does indexing any data section that can be read |
| `Database.RunGood` | apkgdb/index.go:352-447 | after any run of AddPackage, RemovePackage, index and pin changes: each indexed key is the collation of its stored name, its hash has a package entry with the same name and inode count and entries in the other tables, and distinct keys have distinct hashes |
| `Database.PackagesAgain` | apkgdb/index.go:247-252 | a database that knows all packages of a file is not changed by its package section |
| `Database.PinsAgain` | apkgdb/index.go:304-332 | reading the pins of a file again changes none, also when it sets one pin several times |
| `Database.IndexTwice` | apkgdb/index.go:145-348 | indexing the same file twice is indexing it once |
| `Index.StorePackage` | apkgdb/index.go:254-285 | six Puts, or an error if bolt refuses any of them |
| `Index.ReadPackage` | apkgdb/index.go:186-239 | one package record, field by field, with the limits of each field |
| `Index.ReadPackages` | apkgdb/index.go:185-302 | the loop over the package records, known hashes skipped |
| `Index.ReadPins` | apkgdb/index.go:304-332 | the loop over the pins up to the end of the section |
| `Index.DB.AddPackage` | apkgdb/index.go:352-430 | all six entries, or an error and no change when the hash is known or bolt refuses |
| `Index.DB.RemovePackage` | apkgdb/index.go:433-448 | the index without the name, all other tables unchanged |
| `Index.DB.IndexSection` | apkgdb/index.go:145-341 | all of a data section or nothing of it |
| `Export.WriteData` | apkgdb/export.go:137-196 | the two loops write the package records in key order and then the pins, and count the packages modulo 2^32 |
| `Export.RecordBytes` | apkgdb/export.go:146-168 | where each field of a package record lies |
| `Export.PinBytes` | apkgdb/export.go:172-193 | the fields of a pin record: channel, prefix and version |
| `Export.RecordParsed` | apkgdb/export.go:146-168 | a package record is read back, whatever follows it, exactly when its fields fit the reader's limits |
| `Export.PackagesRead` | apkgdb/export.go:146-168 | indexing the records one after the other restores exactly the tables of the packages read so far |
| `Export.PinsRead` | apkgdb/export.go:172-193 | the pins are read back exactly when all fit the reader's limits |
| `Export.ExportReadable` | apkgdb/export.go:136-196 | a data section can be indexed into an empty database exactly when all fields and pins fit |
| `Export.ExportIndexed` | apkgdb/export.go:136-196 | and so it can be into any other database |
| `Export.ExportRoundTrip` | apkgdb/export.go:136-196 | and then pins, header, signature, metadata and path entries of the indexed packages come back, no others, and the index comes back unchanged exactly when every inode count fits 32 bits |
| `Export.OwnExport` | apkgdb/export.go:267 | indexing a database's own export never changes anything in it; it succeeds exactly when all fields and pins fit, that is when an empty database can read the export |
| `Update.UpdateEffect` | apkgdb/index.go:185-332 | indexing the export of one database into any other: each key then has the exported package if its hash was not known, and what it had otherwise; the known hashes are those known before and those exported; the other tables and the pins follow |
| `Update.RemovalStays` | apkgdb/index.go:442-446 | so a package removed at the exporter stays in every database that has it |
| `Export.SmallCount` | apkgdb/export.go:153 | writing the low half of a 64-bit count loses nothing exactly when the count fits 32 bits |
| `DbFile.ExportFile` | apkgdb/export.go:39-259 | provisional header, data, three patches by Seek and Write: the file is the final header, the signature and the data as if written at once; it fails exactly when there is no signature that verifies |
| `DbFile.PatchData` | apkgdb/export.go:217-229 | reading the start back and writing length and hash changes these fields and nothing else |
| `DbFile.OpenSection` | apkgdb/index.go:21-137 | the checks of index: magic, version, name, data hash, signature |
| `DbFile.IndexFile` | apkgdb/index.go:21-348 | a file that fails a check or cannot be read changes nothing |
| `DbFile.OpensExactly` | apkgdb/index.go:21-137 | a file opens exactly if it has the magic number, version 1, the database's name, data of the announced place, length and hash, and a signed header |
| `DbFile.OnlySigned` | apkgdb/index.go:100-137 | nothing is indexed unless a trusted key has signed the header, by Ed25519, and the data has the hash in the header |
| `DbFile.NameReadBack` | apkgdb/index.go:71-82 | a database name survives the header exactly when it has at most 32 bytes and no NUL |
| `DbFile.HeaderFields` | apkgdb/export.go:39-113 | where each field of the header lies, creation time, system and architecture included |
| `DbFile.IndexFields` | apkgdb/export.go:92-113 | the two unused indices are empty, with the hash of nothing |
| `DbFile.ExportOpens` | apkgdb/index.go:21-137 | index reads from an exported file exactly the package count and the data that were written, each cut to its 32-bit field, and refuses cut data unless it has the hash of the whole |
| `DbFile.FileIndexed` | apkgdb/index.go:21-348 | the effect of indexing an exported file of any size into any database |
| `DbFile.FileReadable` | apkgdb/export.go:29-271 | an exported file can be indexed into any database exactly when name, fields and pins fit, with the effect of its data section |
| `DbFile.OwnFile` | apkgdb/export.go:261-271 | the check export makes at its end never changes the database, and succeeds exactly when an empty database can read the file: when name, fields and pins fit |
| `PackageFile.ChooseBlockSize` | cmd/apkg-convert/process.go:56-59 | the least 4096 * 2^k with at most 1500 full blocks, capped at 131072 |
| `PackageFile.HashBlocks` | cmd/apkg-convert/process.go:61-72 | the loop hashes the blocks of the file in order |
| `PackageFile.BlocksCover` | cmd/apkg-convert/process.go:61-72 | the blocks cover every byte exactly once, and all but the last are full |
| `PackageFile.BlockCount` | cmd/apkg-convert/process.go:61-72 | there are size / block size of them, rounded up |
| `PackageFile.TableSize` | cmd/apkg-convert/process.go:69-70 | the table has 32 bytes for each |
| `PackageFile.TableAt` | cmd/apkg-convert/process.go:69-70 | and those of each block in its place |
| `PackageFile.GapBounds` | cmd/apkg-convert/process.go:230-237 | the signature gap has 99 to 610 bytes and ends at a multiple of 512 |
| `PackageFile.OffsetsFit` | cmd/apkg-convert/process.go:262-276 | for images below 2^43 bytes no offset in the header wraps |
| `PackageFile.SignatureFitsGap` | cmd/apkg-convert/process.go:316-318 | a signature that verifies always fits the gap |
| `PackageFile.Process` | cmd/apkg-convert/process.go:52-366 | what is written, and that it fails only for metadata over 1 MB or without a signature that verifies |
| `PackageFile.Sections` | cmd/apkg-convert/process.go:340-364 | the sections lie one behind the other at the offsets of the header |
| `PackageFile.OpenPackage` | apkgdb/package.go:160-289 | the code computes what the opening lemmas are about |
| `PackageFile.Validate` | apkgdb/package.go:375-466 | the checks after a download |
| `PackageFile.OpenedSound` | apkgdb/package.go:160-289 | a package is opened only if a trusted key has signed its header, by Ed25519, and the header has the hashes of metadata and table; what is read are these parts |
| `PackageFile.ValidatedSound` | apkgdb/package.go:375-466 | a download is valid only if its header has the hash the database has and a trusted key has signed it |
| `PackageFile.HeaderFields` | cmd/apkg-convert/process.go:242-280 | where each field of the header lies |
| `PackageFile.ProcessedOpens` | apkgdb/package.go:170-288 | a written file opens to the same metadata, header, hash and signature, and fails only if the metadata is no JSON |
| `PackageFile.ProcessedValid` | apkgdb/package.go:441-463 | a written file validates exactly when gap and data have 128 bytes together, and then gives the data's offset and block size |
| `PackageFile.ProcessedValidates` | apkgdb/package.go:441-463 | so every written file with at least 29 bytes of image validates |
| `PackageFile.ReadsImage` | apkgdb/package.go:475-488 | reading through the data offset reads the image itself |
| `PackageFile.ProcessedFits` | apkgdb/index.go:211-239 | a package written by the converter and added to a database can be exported again exactly when name and path have at most 256 bytes |

## Left out

- Network, update and upload code, mounting, signals, HTTP control: input and output only.
- SHA-256 and Ed25519 are functions given as parameters (SHA-256 with results of 32 bytes); trust tables and certificates are a predicate on keys.
- JSON: a package's metadata is opaque bytes; that it parses to a name and an inode count is a parameter. Scanning the squashfs image for what a package provides is not modelled.
- A bolt bucket that does not exist is an empty one; bolt's transactions are all or nothing; it refuses empty keys, keys over 32768 bytes and values over 2^31 - 2 bytes.
- The `ldso` and `info` buckets, `buildLdso` and node 2. An entry that bolt refuses for `ldso` rolls back a whole index transaction (apkgdb/index.go:292-295), and an error of `buildLdso` is returned although the transaction is committed (apkgdb/index.go:348); the results about indexing assume that neither happens, above all these:
- Export.ExportReadable: no `ldso` entry is refused.
- Export.OwnExport: no `ldso` entry is refused.
- DbFile.IndexFile: no `ldso` entry is refused, and `buildLdso` succeeds.
- DbFile.OwnFile: no `ldso` entry is refused, and `buildLdso` succeeds; the data section is shorter than 2^32 bytes.
- DbFile.FileReadable: no `ldso` entry is refused; the data section is shorter than 2^32 bytes, the width of its length field. For longer ones FileIndexed says what happens.
- Signatures.Verify: a key of other than 32 bytes makes Go's Ed25519 panic; here it counts as no signer.
- Signatures.SignatureVerifies: the same panic counts as a failed verification.
- Unsigned packages: a prefix match over an unordered map gives no determined answer.
- Symbolic links and `ld.so.cache` do not count references by design (apkgfs/inode-symlink.go:46-54); the reference-count claims are about inodes that do.
- `natSort`: the library sort that is called with `natsortCompare`.
- Mode conversion, status codes, size formatting, `ListSubs`, `SetChannel`, write locking of a database: easy or finite.
- Opening a sub-database: `SubGet` is given the opened database or an error.
- The tree and the package cache change in one atomic step in `InodeRanges`, and `GetInode` reads the tree in one. In the code `getPkgTx` inserts under `pkgCacheL` (apkgdb/package.go:137-149), while `GetInode` searches the tree without that lock (apkgdb/lookup.go:237), which is a data race the model does not show.
- Changes of the index during a run of `InodeRanges`: which hashes live in which database is fixed there.
- Index.DB.RemovePackage: on a database without an index bucket the code dereferences nil; here the bucket is empty and the call changes nothing.
- InodeRanges.StepInv: assumes that the 64-bit inode counter does not overflow.
- InodeRanges.NumbersStayResolved: needs the package to be indexed by one database of the family; InodeRuns.ResolvesIff shows that it is needed.
- InodeCache.StepInv: needs fewer than 2^48 references outstanding for each node, the size from which removeFromCache takes a count for an overflow.
- InodeCache.RunInv: forgets claim only completed lookups.
- PackageFile.ProcessedOpens: the offsets fit 32 bits, as OffsetsFit proves for images below 2^43 bytes.
- PackageFile.ProcessedValidates: that a squashfs image has 29 bytes is the format's superblock of 96; squashfs itself is not modelled.
