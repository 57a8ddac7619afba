# Verification of the glibc shim's stateful parts

The library loads Linux objects into FreeBSD processes by translating glibc calls into native ones. Most
translations are one line. This project models the parts that carry state, loops or parsing, and proves what they are for.
`dafny verify dfyconfig.toml` checks all of it.

| file | what it models |
|---|---|
| `LazyMutex.dfy` | statically initialised mutexes, turned into native objects on first use by double-checked locking, as a step system over any number of threads and mutexes |
| `Attributes.dfy` | mutex, condition and barrier attributes, packed into one word each |
| `Bytes.dfy`, `Ancillary.dfy` | translation of control messages between two record layouts in byte buffers (the records and their walk are those of section 20 of RFC 3542) |
| `Text.dfy`, `Splitter.dfy`, `Declarations.dfy` | the parser of C prototypes |
| `ShimTypes.dfy`, `WrapperGen.dfy`, `WrapperEmit.dfy`, `PrototypeChain.dfy` | the mapping of types, the printer of wrapper signatures and forwarding calls, and the way from a prototype to a signature and back |
| `Memory.dfy`, `Dirent.dfy`, `Scandir.dfy` | directory streams that own what they hand out; scandir |
| `LinkedCopy.dfy`, `Sockaddr.dfy`, `Netdb.dfy`, `Ifaddrs.dfy` | deep copy and release of native result lists |
| `SymbolTable.dfy`, `Symver.dfy` | the table of glibc symbols, its printing and reading, and the versioned aliases |
| `Tz.dfy` | the search for time zone offsets behind tzset |
| `Flags.dfy`, `Sigaction.dfy` | signal dispositions as registers |
| `Redirect.dfy` | the path redirections |
| `Encodings.dfy` | ioctl requests and NVIDIA device numbers |

## What the model takes for granted

* Memory is sequentially consistent, and the native creation of a mutex succeeds.
* FreeBSD's constants, the amd64 layouts and FreeBSD's contracts: a NULL mutex or NULL attribute gives a mutex of
  the default kind, which checks errors; a mutex knows its owner; cond_wait gives the mutex up and takes it back to
  the same depth; sigaction's table is a register that refuses what it likes; localtime_r is any function and never
  fails; readdir gives the entries of a directory in order; qsort sorts by a total preorder into some order; recvmsg writes the control
  buffer it is given, and leaves its length or lowers it.
* Thread identifiers are not reused. A thread may end while it holds mutexes; they stay locked, as robust mutexes are not modelled.
* The program keeps to POSIX where POSIX puts an obligation on it: it does not initialise a mutex twice, and does
  not destroy one that a thread is using. A `MutexId` is one lifetime of the storage of a mutex.
* An assertion or a PANIC of the shim ends the process: `Aborted`, or the `aborted` field of a state.

## Findings

* A static mutex of kind NORMAL does not get the native object that NORMAL translates to
  (src/libthr/pthread.c:210): the shim leaves it to the native library, whose default kind reports a relock as an
  error instead of blocking. Every other kind is kept, so the kind is kept exactly when it is not NORMAL
  (`LazyMutex.StaticKindKeptUnlessNormal`, with the run `LazyMutex.StaticNormalIsNotNormal`).
* The assertions of the unlock and destroy shims (src/libthr/pthread.c:272, src/libthr/pthread.c:277) end the process
  exactly for a static mutex for which no native object was ever made (`LazyMutex.UnlockAbortsIffNeverMade`,
  `LazyMutex.DestroyAbortsIffNeverMade`): its wrapped pointer is NULL (`LazyMutex.NullIfNeverMade`). POSIX lets a program destroy such a
  mutex, and makes its unlock fail with EPERM if it checks errors or is recursive; here both end the process
  (`LazyMutex.UnusedStaticAborts`).
* The protocol field of a mutex attribute has one bit (src/libthr/pthread.h:26), so PTHREAD_PRIO_PROTECT ends the
  process in its setter, and the case that translates it is never reached (`Attributes.FieldsKnown`).
* Linux's numbers for SCM_RIGHTS and for a received type of service are both 1 (src/libc/sys/socket.h:26,
  src/libc/sys/socket.h:67): a native record survives the way to Linux and back exactly when it is SCM_RIGHTS
  (`Ancillary.NativeRecordSurvives`).
* A walk over control messages does not advance over a record of length 0
  (`Ancillary.WalkAdvancesUnlessEmpty`). A loop over them leaves the buffers exactly when it comes to a header of known
  level and type whose length is less than the header (the size of the copy then wraps around) or does not fit, or to a
  Linux header of which less than 16 bytes are there (a buffer of 12 to 15 bytes passes for one with a header). A
  header of unknown level or type ends the process before its length is used, so nothing behind it matters. Otherwise
  the loop ends by itself (`Ancillary.HowTheLoopEnds`).
* The assertions that the other buffer is large enough (src/libc/sys/socket.c:347, src/libc/sys/socket.c:375) never fail
  in recvmsg (`Ancillary.ReceiveControl`), and in sendmsg exactly for a control buffer of 2^32 bytes or more, whose
  length the 32-bit native field cuts (`Ancillary.SendControl`).
* The type mapping keeps of a type that mentions a clock, a glob or an attribute nothing but what its rule names: a
  `const clockid_t*` loses its const (`ShimTypes.RenamesIsMapping`). So it replaces the whole parameter list of a function
  pointer that mentions clockid_t or glob_t*; every other parameter list stays one
  (`WrapperGen.ParametersKeptIffUnmatched`).
* An array type is not reproduced by the prototype printer unless one space stands before its brackets
  (`WrapperGen.ArrayKeptIffSpaced`).
* The redirections are safe and idempotent exactly when the emulation root is outside /proc and /sys
  (`Redirect.NeverIntoProcOrSys`, `Redirect.RedirectedOnce`).
* ioctl requests lose bit 29, the top bit of the length, and nothing else (`Encodings.ConfusedOnlyByTopBit`).
* The aliases of symbols are distinct with no condition on the names of the symbols (`Symver.AliasesDiffer`); only
  for an alias to differ from a symbol's own name does that name have to be free of `_GLIBC_`.

## Model

| member | source | states |
|---|---|---|
| LazyMutex.StepKeepsInv | src/libthr/pthread.c:189-279 | every line of the initialisation and every native call, by any thread, keeps the invariant that ties program counters, guard, handles, owners and the clients' lock counts together |
| LazyMutex.RunKeepsInv | src/libthr/pthread.c:189-279 | so does every interleaving of any length |
| LazyMutex.CountIsDepth | src/libthr/pthread.c:232-279 | the count a client keeps, one up for a successful lock, one down for a successful unlock, laid aside and restored by a wait, is the native depth if it owns the native object and 0 otherwise |
| LazyMutex.TallyIsBalance | src/libthr/pthread.c:232-279 | over every run, what a client has locked, waits included, is the number of its successful locks less its successful unlocks |
| LazyMutex.DepthIsBalance | src/libthr/pthread.c:232-279 | the depth of an owned native object is its owner's successful locks less its successful unlocks since the start of the process |
| LazyMutex.MutualExclusion | src/libthr/pthread.c:232-279 | in every reachable state: who has locked a mutex, by the count of its own successful calls, owns its one native object to exactly that depth; two threads never hold the same mutex; depth is positive exactly when owned, above one only for recursive mutexes |
| LazyMutex.LazyCreatesOnceUnderGuard | src/libthr/pthread.c:206-230 | a zero-wrapped mutex of another kind than NORMAL has at most one native object ever, created by the holder of the guard with the kind of its number (1 recursive, 2 error-checking, 3 adaptive), never by the native library's own static initialisation; every thread past the initialisation is served by that object |
| LazyMutex.StaticKindKeptUnlessNormal | src/libthr/pthread.c:148-157 | the native kind is the one of the declared number if and only if that is not 0, NORMAL, which gets an error-checking object |
| LazyMutex.InitialisedKindKept | src/libthr/pthread.c:189-204 | an initialised mutex has the native kind of the number in its attribute, or an error-checking object without one |
| LazyMutex.RelockByNumber | src/libthr/pthread.c:148-235 | in every state of the invariant, a second lock by the holder succeeds exactly for number 1, and is refused exactly for 2 and 3, for a static 0 and without an attribute; an initialised NORMAL mutex blocks |
| LazyMutex.RelockAsAsked | src/libthr/pthread.c:148-235 | so it is over every run from the declaration or the initialisation of the mutex: the answer depends on the number given there |
| LazyMutex.OthersWait | src/libthr/pthread.c:232-279 | a caller who does not own the mutex gets it exactly when nobody does; otherwise lock blocks, trylock and timedlock are refused; a wait asks for the owner |
| LazyMutex.StaticNormalIsNotNormal | src/libthr/pthread.c:210 | a run in which a static NORMAL mutex gets a native object of another kind |
| LazyMutex.NativeNeverReplaced | src/libthr/pthread.c:215-225 | over every run, the native object of a mutex stays its object, with its kind and origin, until the mutex is destroyed |
| LazyMutex.NullIfNeverMade | src/libthr/pthread.c:206-230 | the wrapped pointer of a usable mutex is NULL if and only if it was declared statically and no native object was ever made for it |
| LazyMutex.UnlockAbortsIffNeverMade | src/libthr/pthread.c:276-279 | in every reachable state, the unlock assertion fails if and only if the mutex was declared statically and no native object was ever made for it; never for a thread that holds the mutex, NORMAL and initialised ones included |
| LazyMutex.DestroyAbortsIffNeverMade | src/libthr/pthread.c:271-274 | the destroy assertion fails if and only if the mutex was declared statically and no native object was ever made for it |
| LazyMutex.DestroyedIsGone | src/libthr/pthread.c:271-274 | destroying makes a mutex unusable if and only if it has a native object and nobody holds it; it then stays unusable and unheld over every run |
| LazyMutex.UnusedStaticAborts | src/libthr/pthread.c:271-279 | two runs of calls that POSIX allows which end the process: destroying an unused static mutex, and unlocking one |
| LazyMutex.HowTheProcessEnds | src/libthr/pthread.c:208-279 | the assertions on the guard never fail; the process ends only on an undefined kind of a static mutex, or on unlock or destroy of a static mutex with a NULL pointer, which nobody holds |
| LazyMutex.CallerReachesNative | src/libthr/pthread.c:208-230 | in whatever interleaving, a caller that is scheduled as often as its explicit rank is at its native call, without the guard |
| LazyMutex.HolderReleasesGuard | src/libthr/pthread.c:212-228 | a holder of the guard that is scheduled three times has released it |
| LazyMutex.InitNeverStuck | src/libthr/pthread.c:208-230 | whenever a thread is inside the initialisation, it or the holder of the guard can step |
| LazyMutex.InitialisationTerminates | src/libthr/pthread.c:208-230 | every schedule of the threads inside is no longer than the sum of their ranks |
| LazyMutex.InitialisationDrains | src/libthr/pthread.c:208-230 | a schedule that cannot go on has left nobody inside, unless a kind was undefined |
| Attributes.LoadOfStore | src/libthr/pthread.h:24-36 | storing in one packed field never changes the other four, and a value is stored whole if and only if it is below the limit its setter asserts |
| Attributes.MutexAttr.constructor | src/libthr/pthread.c:302-313 | a new attribute has the default in every field, whatever the storage held |
| Attributes.MutexAttr.Set | src/libthr/pthread.c:83-132 | a setter changes its own field only, and ends the process exactly when the value does not fit |
| Attributes.RunSetters | src/libthr/pthread.c:76-132 | after any calls each field has the value set last or the default; the calls end early exactly when one value is above 3 for the kind or the ceiling, or above 1 for the others |
| Attributes.FieldsKnown | src/libthr/pthread.c:148-185 | no PANIC of the four translations can happen for any word, and the protocol is never PRIO_PROTECT |
| Attributes.SetThenGet | src/libthr/pthread.c:76-132 | any getter after any setter calls returns the value of its field set last, or the default |
| Attributes.SetThenInit | src/libthr/pthread.c:189-204 | the native attribute says, number by number, what was set last of kind, protocol, sharing and robustness; the call ends the process exactly when the last priority ceiling was not 0 |
| Attributes.KindsAgree | src/libthr/pthread.c:148-157 | the kinds of the attribute are those of the mutexes, and each has its Linux number |
| Attributes.CondAttr.PutClock | src/libthr/pthread.c:393-419 | sets the clock and leaves the sharing; an unknown clock is refused and changes nothing |
| Attributes.CondAttr.PutShared | src/libthr/pthread.c:424-444 | sets the sharing and leaves the clock; other values end the process |
| Attributes.CondSetThenGet | src/libthr/pthread.c:380-444 | after any setter calls the getters return the clock last accepted and the sharing last set, or the defaults; the process ends exactly when a sharing was out of range |
| Attributes.CondSetThenInit | src/libthr/pthread.c:380-465 | cond_init hands over the clock last accepted and the sharing last set |
| Attributes.BarrierAttr.PutShared | src/libthr/pthread.c:336-356 | the getter reads what was set; other values end the process |
| Attributes.BarrierAttr.NativeSharedFor | src/libthr/pthread.c:361-376 | barrier_init hands over what the getter reads |
| Attributes.BarrierSetThenInit | src/libthr/pthread.c:322-376 | after any setter calls the getter returns what was set last, or private, and barrier_init hands over the same |
| Ancillary.LevelsInvert | src/libc/sys/socket.c:16-36 | the two level maps are inverse to each other; level 1 corresponds to 0xffff, and 0, 6 and 17 to themselves |
| Ancillary.TranslateCarries | src/libc/sys/socket.c:355-392 | which records are known, and what is written for them, by number: from Linux type 1 only; from FreeBSD type 1, and type 68 at level 0, both as Linux type 1 |
| Ancillary.LayoutOfAmd64 | src/libc/sys/socket.c:327-336 | the data of a record begins at the same, aligned place in both layouts |
| Ancillary.WriteNativeRecord | src/libc/sys/socket.c:350-363 | one round writes the translated record at the same offset and touches no byte outside it |
| Ancillary.WriteLinuxRecord | src/libc/sys/socket.c:378-395 | the same in the other direction |
| Ancillary.WrittenSurvives | src/libc/sys/socket.c:363 | a later write never damages an earlier record |
| Ancillary.WalkOfWritten | src/libc/sys/socket.c:337-338 | the walk over the written buffer visits the same offsets with the same lengths and the translated records |
| Ancillary.TranslateToNative | src/libc/sys/socket.c:343-368 | for every buffer it does not leave, the loop terminates; it ends by itself exactly when every record fits and is known, and otherwise it ends the process; the native records are then those of Linux, in order, with identical payload, type 1, level 0xffff for 1 and every other level the same |
| Ancillary.TranslateToLinux | src/libc/sys/socket.c:371-400 | the same in the other direction: every written record has type 1, level 1 for 0xffff and every other level the same |
| Ancillary.LinuxToNativeMsgControl | src/libc/sys/socket.c:343-368 | with the message headers: the length is taken over, an empty buffer becomes NULL, a native buffer that is too small ends the process |
| Ancillary.NativeToLinuxMsgControl | src/libc/sys/socket.c:371-400 | with the message headers, in the other direction |
| Ancillary.SendControl | src/libc/sys/socket.c:472-507 | sendmsg makes a native buffer of the Linux length, so its size assertion fails exactly for a length of 2^32 or more; otherwise the native message has the translated records, level 0xffff for 1 |
| Ancillary.ReceiveControl | src/libc/sys/socket.c:418-470 | whatever the native call answers, the size assertion never fails; the Linux message gets the translated records, all of type 1, or stays as it was when the call fails |
| Ancillary.RecordsSurviveRoundTrip | src/libc/sys/socket.c:16-36 | any number of known records, translated to native and back, are what they were |
| Ancillary.RoundTrip | src/libc/sys/socket.c:343-400 | a control buffer sent through both loops has the same length, the same headers and the same payload again |
| Ancillary.NativeRecordSurvives | src/libc/sys/socket.c:386-392 | a known native record is written for Linux with type 1, is known on the way back, and comes back as it was if and only if its type is 1, SCM_RIGHTS |
| Ancillary.HowTheLoopEnds | src/libc/sys/socket.c:343-395 | for any contents of a buffer of less than 2^32 bytes: the loop leaves the buffer if and only if it comes to a header that cannot be read or is known while its record does not fit; an assertion or PANIC ends it if and only if it stays inside and comes to an unknown header; it ends by itself if and only if all records fit and are known; no run is longer than the buffer |
| Ancillary.WalkAdvancesUnlessEmpty | src/libc/sys/socket.c:338 | the walk moves on if and only if the low word of the length is not 0 |
| Text.WordCharacters | src/prototypes.rb:34 | letters, digits and the underscore |
| Text.SpaceCharacters | src/prototypes.rb:34 | the six characters of white space |
| Splitter.SplitPrototype | src/prototypes.rb:3-46 | the loop over the characters computes the parts, or fails where the scanner raises |
| Splitter.DepthIs | src/prototypes.rb:7-27 | the counter is the number of opening less closing parentheses of what was read |
| Splitter.ScanArguments | src/prototypes.rb:10-43 | arguments with balanced parentheses are collected whole, whatever commas they nest |
| Splitter.CommentIsRemoved | src/prototypes.rb:10 | a comment within a line is removed, and what is before it and behind it stays |
| Splitter.NonBreakingIsSpace | src/prototypes.rb:36-38 | a non-breaking space counts as a space |
| Splitter.SplitInvertsPrinting | src/prototypes.rb:3-46 | splitting head(arguments joined by commas) gives back the stripped head and arguments |
| Declarations.FunctionTable.Define | src/prototypes.rb:88-96 | the table gets an entry for every prototype up to the first that does not parse or repeats a name; earlier entries stay |
| Declarations.ArgNamesDiffer | src/prototypes.rb:50-84 | parameters without a name get names that differ from place to place |
| ShimTypes.RenamesIsMapping | utils/wrappers.rb:88-121 | the mapping is what these rules say of the text of a type, and nothing else is: the first clockid_t makes it linux_clockid_t, with the star behind it; ten types get linux_ in front; the first glob makes it linux_glob_t* or linux_glob64_t* with its restrict; an attribute pointer keeps const and gets linux_ before its name; otherwise stack_t and sigset_t as words of their own get linux_ in front, or, if there are none, struct and its white space becomes linux_; a type that no rule applies to is unchanged |
| WrapperGen.ShimTypeKeeps | utils/wrappers.rb:88-121 | a mapped type has its Linux name and is still a type the parser can read |
| WrapperGen.DeclReads | utils/wrappers.rb:128-137 | each printed parameter (plain, pointer, array, function pointer, ellipsis, void) is read back with its name and the Linux name of its type |
| WrapperGen.ParametersKeptIffUnmatched | utils/wrappers.rb:132-133 | the parameter list of a function pointer is still one when mapped, if and only if no pattern replaces it as a whole |
| WrapperGen.SignatureReparses | utils/wrappers.rb:123-139 | parsing the printed signature gives the prefixed name, the Linux name of the result type and the same parameters in order with the Linux names of their types, by the rules of `ShimTypes.Renames` |
| WrapperGen.ArrayKeptIffSpaced | utils/wrappers.rb:130-131 | an array type is read back unchanged if and only if one space stands before its brackets |
| PrototypeChain.PrototypeIsRead | src/prototypes.rb:50-84 | a condition on the text of a prototype under which it is read as a well-formed function with that name and type |
| PrototypeChain.PrototypeSurvives | utils/wrappers.rb:123-139 | for such a text, parsing it, printing the signature and parsing that gives the function with the prefixed name and the Linux names of all types |
| WrapperEmit.GenerateWrapper | utils/wrappers.rb:123-182 | what is written is one function: signature, prologue, the one forwarding call, epilogue; the result variable has the Linux name of the result type; nothing is written when a declaration cannot be printed |
| WrapperEmit.CallForwardsNames | utils/wrappers.rb:152-169 | splitting the emitted call gives the replacement or the function, with a v in front if it is variadic, and the names of all parameters in order, with `_args_` for the ellipsis; a lone void and no parameters give one empty part |
| Dirent.CopiedTells | src/libc/dirent.c:66-84 | the program is told the inode, offset, record length and type of an entry, and its name up to 255 characters |
| Dirent.Directories.OpenDir | src/libc/dirent.c:24-36 | adds a directory with an empty list |
| Dirent.Directories.InsertEntry | src/libc/dirent.c:86-120 | puts a fresh copy at the head of the list of its own directory, in the member for its width, and remembers it |
| Dirent.Directories.ReadDir | src/libc/dirent.c:138-141 | returns a fresh block that tells of the next entry field by field, or NULL at the end; every pointer handed out before stays live and unchanged |
| Dirent.Directories.ReadDir64 | src/libc/dirent.c:143-146 | the same for the wide entries |
| Dirent.Directories.ReadDirR | src/libc/dirent.c:178-202 | the copy goes into the caller's block, and the list is not touched |
| Dirent.Directories.DestroyShimDir | src/libc/dirent.c:38-64 | the loop frees every entry, every node and the directory once, in list order |
| Dirent.Directories.CloseDir | src/libc/dirent.c:148-152 | frees exactly what belongs to the directory; the blocks and pointers of all others stay live and unchanged |
| Dirent.Run | src/libc/dirent.c:122-202 | any sequence of calls on any number of directories comes to the native entries that a model on values comes to, and tells of them field by field; at the end every pointer handed out is live with its old value, or was freed once because its directory is closed |
| Scandir.CapacityFor | src/libc/dirent.c:231-234 | the capacity reached by doubling covers the count, and is less than twice it once it has grown |
| Scandir.NameList.Keep | src/libc/dirent.c:231-237 | appends a copy after growing if needed; earlier slots are kept, the outgrown array is freed once |
| Scandir.NameList.Reject | src/libc/dirent.c:239-241 | a rejected copy is freed, and nothing else changes |
| Scandir.ScanDir | src/libc/dirent.c:204-253 | the result is a sorted permutation (in library order without a comparator) of blocks that tell of exactly the entries the filter accepts, or of all without one; the count is exact, kept blocks are live, rejected ones and outgrown arrays freed |
| LinkedCopy.NextBlocks | src/libc/netdb.c:128-136 | the blocks of the next node are different from all blocks freed so far |
| Netdb.SockTypeKept | src/libc/sys/socket.c:56-69 | the translated socket type still determines the native one |
| Netdb.SockTypeSaysSame | src/libc/sys/socket.c:56-69 | which types are refused, and that the others keep the kind and the two flags under their Linux numbers |
| Netdb.TranslatableInfo | src/libc/netdb.c:58-85 | a result cannot be told exactly when its type has an unknown bit or its address is of another family than the two of the Internet |
| Sockaddr.TranslatedIsSame | src/libc/sys/socket.c:176-189 | port, address and padding, or port, flow, address and scope, or the index with all else 0, under the family number and in the length of Linux |
| Netdb.CopyAddrInfo | src/libc/netdb.c:58-85 | a fresh node that says field by field what the native one said: kind and flags of the socket, protocol, name, family number, length, port and address; ends the process exactly on an unknown type or family |
| Netdb.GetAddrInfo | src/libc/netdb.c:112-125 | a fresh NULL-terminated list with one such node per native node, in order; the native list is released once; ends the process exactly when a node cannot be translated |
| Netdb.FreeAddrInfo | src/libc/netdb.c:127-137 | terminates and frees every name, address and node once, in order, and nothing else |
| Netdb.GetThenFree | src/libc/netdb.c:112-137 | a list obtained and released leaves nothing allocated on either side |
| Ifaddrs.FlagsDropOnlyUnknown | src/libc/ifaddrs.c:56-72 | two sets of flags become the same if and only if they differ only in flags the shim does not know |
| Ifaddrs.FlagsSaySame | src/libc/ifaddrs.c:56-72 | nine flags keep their numbers, multicast gets 0x1000, and no other is set |
| Ifaddrs.TranslatableIf | src/libc/ifaddrs.c:74-123 | an interface cannot be told exactly when its address is of an unknown family or its netmask of another than the two of the Internet |
| Ifaddrs.CopyIfaddrs | src/libc/ifaddrs.c:74-123 | a fresh node that says field by field what the native one said: name, flags, address and netmask, no destination; ends the process exactly on an unknown family |
| Ifaddrs.GetIfaddrs | src/libc/ifaddrs.c:125-146 | a fresh NULL-terminated list with one such node per native node, in order; the native list is released once |
| Ifaddrs.FreeIfaddrs | src/libc/ifaddrs.c:148-162 | terminates and frees every block of every node once, in order, and nothing else |
| SymbolTable.VersionsOf | utils/find_glibc_symbols.rb:31-33 | the versions of a name are exactly those of its rows, each once |
| SymbolTable.SymbolHash.Insert | utils/find_glibc_symbols.rb:15-33 | one more line keeps the table what its lines say: the first line of a name decides its kind, versions are not repeated |
| SymbolTable.KindIs | utils/find_glibc_symbols.rb:19-27 | FUNC, IFUNC and OS+0 are functions, OBJECT is an object, everything else is refused |
| SymbolTable.SymbolHash.Build | utils/find_glibc_symbols.rb:11-36 | the table holds exactly the names of the lines, with kind and versions; fails exactly on an unknown type |
| SymbolTable.SortOrders | utils/find_glibc_symbols.rb:38-39 | what is printed is in the order of strings |
| SymbolTable.AtMostIs | utils/find_glibc_symbols.rb:38-39 | the order of strings: one begins the other, or the first characters that differ decide |
| SymbolTable.PrintTable | utils/find_glibc_symbols.rb:38-40 | the printing loop writes the lines of the sorted table |
| SymbolTable.SortedIsTable | utils/find_glibc_symbols.rb:38-40 | the printed table has every name once, in order, with its kind and its sorted versions |
| Symver.LineReadsBack | utils/symver.rb:7-8 | a printed line matches the reader's expression and gives back name, kind and versions |
| Symver.ReadTable | utils/symver.rb:6-9 | the reading loop computes the table of its lines, or fails on a line that does not match |
| Symver.TableReadsBack | utils/symver.rb:6-9 | reading a printed table gives back the table, in order, for any names of word characters and versions without commas and spaces |
| Symver.AliasesDiffer | utils/symver.rb:14 | two aliases are equal if and only if both the symbols and the versions are, whatever the names |
| Symver.AliasContainsMark | utils/symver.rb:14 | an alias is the name, an underscore and the version with underscores for dots; it contains `_GLIBC_`, so it is never the name of a symbol that does not |
| Symver.AliasesDistinct | utils/symver.rb:11-21 | no alias is minted twice from a table |
| Symver.Emit | utils/symver.rb:11-21 | the printing loops write one directive for each version of each symbol, in order |
| Symver.TableToAliases | utils/find_glibc_symbols.rb:11-40 | both scripts in a row: the aliases are exactly those of the names and versions of the lines, and no two are equal |
| Tz.FindOffset | src/libc/time.c:28-60 | true if and only if a June or December sample from 1970 up to the current month has the flag; then the offset is that of the latest such sample, and otherwise it is not written |
| Tz.LatestIsUnique | src/libc/time.c:33-57 | there is only one latest sample |
| Tz.Tzset | src/libc/time.c:62-98 | daylight is 1 exactly when daylight saving time occurs in a sample; timezone is the negated latest standard offset, or 0 without one; both names of each global agree; zone names are cut to their buffers |
| Tz.SeasonalZone | src/libc/time.c:62-98 | where every year has daylight saving time in one of the two months, on either hemisphere, tzset finds both it and the standard offset |
| Sigaction.FlagsInvert | src/libc/signal.c:88-120 | the two flag maps are inverse to each other on all known flags |
| Sigaction.SupportedAre | src/libc/signal.c:21-50 | the numbers of the signals whose disposition can be set, each of which keeps its number, and of those that answer as if they had been set |
| Sigaction.NativeFlagsAreSame | src/libc/signal.c:88-103 | each Linux flag sets its native counterpart, by number |
| Sigaction.LinuxFlagsAreSame | src/libc/signal.c:105-120 | each native flag sets its Linux counterpart, by number |
| Sigaction.KnownFlagsAre | src/libc/signal.c:88-120 | the flags that the two assertions accept |
| Sigaction.Sigaction | src/libc/signal.c:135-179 | the answer, the new table and what is written to oact for every signal and every combination of NULL arguments, also when act and oact are the same structure |
| Sigaction.Run | src/libc/signal.c:135-179 | over every run: a successful query reads what was last set successfully, the protected signals read the default, the run ends early exactly at unknown flags, and no protected or unsupported signal ever reaches the native table |
| Redirect.InitRedirects | src/util.c:49-82 | the NULL-terminated table of pairs fits its capacity |
| Redirect.Search | src/util.c:92-96 | the loop ends inside the table and finds the value of the first matching key |
| Redirect.Redirect | src/util.c:84-111 | the answer for every path |
| Redirect.NeverIntoProcOrSys | src/util.c:84-111 | no answer lies in /proc or /sys, if and only if the emulation root does not |
| Redirect.RedirectedOnce | src/util.c:84-111 | answers are answered by themselves, if and only if the emulation root is outside /proc and /sys |
| Redirect.WhatIsAnswered | src/util.c:84-111 | NULL exactly for the paths of /proc and /sys that are not in the table; the certificates, the NVIDIA device and the two files of the table get their own answers, and all other paths are left alone |
| Encodings.RequestKept | src/libc/sys/ioctl.c:26-51 | the native side reads the same direction, group and command, and the same length if and only if it is below 2^13 |
| Encodings.Recovered | src/libc/sys/ioctl.c:26-51 | every request is recovered from its native form, but for bit 29 |
| Encodings.ConfusedOnlyByTopBit | src/libc/sys/ioctl.c:26-51 | two requests get the same native form if and only if they differ in nothing but the top bit of the length |
| Encodings.DevIdIsBijective | src/libc/sys/stat.c:136-142 | every pair of numbers has its own id, every id has its pair |
| Encodings.DistinctDevIds | src/libc/sys/stat.c:144-157 | the major number is 195, the minor 255, 254 or the number in the path; the NVIDIA devices that get the same id are exactly those of the same kind and number |

## Left out

* Weak memory in the double-checked locking, and the ignored result of the native creation (src/libthr/pthread.c:224).
* rwlocks, robust mutexes beyond their attribute bit, thread attributes, mutex_consistent: thin calls.
* mutexattr_getkind_np, which the source does not implement.
* Concurrent readdir calls on one directory: the list is changed under its own lock in the source, one call at a
  time here. opendir's special case of "/sys/devices/", errors of closedir, and telldir.
- Dirent.Directories.DestroyShimDir: SLIST_REMOVE is modelled for the head of the list only, which is the only element the loop removes.
- Scandir.ScanDir: scandir64 is the same code over the other entry type; int overflow of the capacity and failing allocations are not modelled; qsort is modelled by an insertion sort, so the order of equal elements is one of those that qsort allows.
- Ancillary.TranslateToNative: proved for the buffers that the loop does not leave (`Ancillary.HowTheLoopEnds` says exactly which), known records or not. Padding bytes are not claimed.
- Ancillary.SendControl: the size of the stack, on which the native buffer lies, is not modelled; neither are the names, vectors and flags of the messages.
- Ancillary.RoundTrip: SCM_RIGHTS records only, as IP_RECVTOS is not recoverable (`Ancillary.NativeRecordSurvives`).
- WrapperGen.SignatureReparses: types outside the shapes `parse_prototype` produces are excluded by `WellFormedFunction`, and so are function pointers the mapping destroys or that have no white space; a block pointer (`^`) is read as a plain one; the line anchors of Ruby's expressions are modelled for texts of one line.
- WrapperEmit.GenerateWrapper: the two log lines are parameters.
* The `prototype`, `includes` and `lsb` fields of a defined function.
- Netdb.GetAddrInfo: the translation of the hints and the lookup are parameters; failing allocations are not modelled.
- Ifaddrs.CopyIfaddrs: `ifa_data`, which is always NULL, has no field.
- SymbolTable.SymbolHash.Build: starts from the name, version and type of each line; the expression that finds them in the output of readelf is not modelled.
- Symver.Emit: a directive stands for its two lines of C; their fixed text is not modelled.
- Tz.Tzset: localtime_r failing ends the process in the source.
- Sigaction.Run: the changes a FreeBSD kernel makes to a disposition it stores are not modelled, nor are signal() and the other calls that change dispositions.
- Redirect.InitRedirects: the query of the emulation root is a parameter.
- Encodings.DistinctDevIds: strtoul is a parameter.
* The i386 layouts, errno maps, flag tables, stat and statfs copies, locale and ctype data, dlopen, logging,
  launcher scripts and setjmp: field-by-field facts, or foreign code.
