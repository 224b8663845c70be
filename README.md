# Jirachi core, modelled in Dafny

Jirachi is a C library that hooks Java methods at run time. It turns a
method into a native stub by rewriting its class file, then binds the stub
to a C function. This project models the sequential core of the library
and proves properties of that model. The core has five parts.

- **The class-file codec** (`src/classfile.c`). It covers the following:
  - the big-endian readers;
  - the parser: the constant pool, the interfaces, fields, methods and attributes;
  - `classfile_get_utf8`;
  - the method patcher, which sets `ACC_NATIVE` on the matching methods and strips their `Code` attributes;
  - the generator.

  The layout is the one in chapter 4 of the Java Virtual Machine Specification.
- **The byte buffer** (`src/buffer.c`). It is an append-only array that
  grows by doubling, with big-endian writers and a detach operation.
- **The hash table** (`src/hashtable.c`). It is a djb2-hashed,
  separately chained table keyed by strings.
- **The registry records** (`src/hook_manager.c`). There is one hook entry
  per hooked method, and one cache record per class whose pristine bytes
  were captured.
- **The orchestrator** (`src/jnihook.c`). It covers the following:
  - init, attach and detach over the two registry tables;
  - the class-file-load callback that captures pristine bytes;
  - the count-then-collect walks over the hooks table;
  - the hook key and class-name helpers;
  - the error strings.

### Module layout

| File | Module | What it holds |
|---|---|---|
| `wrappers.dfy` | `Wrappers` | `Option` |
| `bytes.dfy` | `Bytes` | `byte`, `u16` and `u32`; the big-endian readers and writers |
| `cstrings.dfy` | `CStrings` | C strings as `string`: `CStr` is the text before the first NUL, which is what `strdup`, `strcmp` and `strlen` see |
| `buffer.dfy` | `ByteBuffer` | `Buffer` is a class over an `array<byte>` block with a ghost `Contents` |
| `classfile_format.dfy` | `ClassfileFormat` | The parsed class as a datatype, and the byte encoding that the generator writes (`EncodeClass`) |
| `classfile_decode.dfy` | `ClassfileDecode` | What the parser reads, as total functions over the input; the round-trip laws in both directions |
| `classfile_parse.dfy` | `ClassfileParse` | The parser's cursor loops as methods over arrays, each proved equal to its decoding function |
| `classfile_generate.dfy` | `ClassfileGenerate` | The generator as methods that append to a `Buffer`, proved to write `EncodeClass` |
| `classfile_patch.dfy` | `ClassfilePatch` | `classfile_get_utf8` and the patcher; the attribute compaction works in place on an array |
| `hashtable.dfy` | `HashTables` | `HashTable<V>` is a class over an array of bucket chains with a ghost `map<string, V>` |
| `hook_manager.dfy` | `HookManager` | `HookEntry` and `ClassCache` records |
| `jnihook_strings.dfy` | `JniHookStrings` | Result codes and their messages, the hook key, and `L<name>;` stripping |
| `jnihook.dfy` | `JniHook` | The VM as a class whose queries may fail, the walks over the hooks table, and `JniHookState` (the global state) with `Init`, `Attach` and `Detach` |

### Decisions the code forced

- **The parser is total.** After its 10-byte header check, the C parser never
  compares its cursor with the input length. The model fails (`None`)
  wherever the input ends before the structure it describes. The model and
  the C code agree on every input that the C code reads without overrunning.
- **An 8-byte constant goes in the second slot.** For a Long or Double
  constant, the C loop bumps the index before storing
  (`src/classfile.c:42`, `:64`). The model keeps this layout: the first of
  the two slots stays empty, and the entry's bytes sit in the second.
  `EncodeClass` skips empty slots, as `src/classfile.c:349` does.
- **Allocation outcomes are parameters.** Whether a `malloc`, `calloc`,
  `realloc` or `strdup` succeeds is a boolean parameter, or the result of a
  nondeterministic `Allocates()`. Every failure path is modelled with the
  result code the C code returns, except the allocations listed under
  "## Left out" (inside `classfile_parse`, the copy in
  `classfile_get_utf8`, and the generator's appends).
- **VM queries may fail, but never lie.** The JVMTI and JNI calls are
  methods of a `Jvm` class. What the VM knows about a method is fixed: its
  declaring class, that class's signature, the method's name, descriptor
  and modifiers. Any query may fail, but a query that succeeds reports
  what the VM knows. The other calls (GetEnv, RedefineClasses,
  RegisterNatives, and so on) succeed or fail arbitrarily. Retransforming
  a class may hand the class's current bytes to the load callback, which
  is modelled as a call to `ClassFileLoadHook`.
- **Strings are byte strings.** A `string` stands for a C `char` buffer,
  one char per byte, and that includes the strings the VM reports (JVMTI
  hands out modified UTF-8 bytes). The 511-character cut of the hook key
  and the djb2 hash count bytes in this sense. The model does not enforce
  that each char is below 256: a string with wider chars stands for no C
  buffer.
- **Attach and detach work on what the VM reports.** Once attach or detach
  has resolved a method (`Resolves`), the key it uses is `KeyOf` the
  reported class name, method name and descriptor.
- **The hook key is truncated as in C.** `HookKey` cuts the key off at 511
  characters, as the 512-byte `snprintf` buffer does. `HookKeyInjective`
  proves that keys below that length identify the method, provided class
  names have no ':' and method names have no '(', as in Java source. The
  class file format allows both characters. `HookKeyAmbiguous` exhibits
  two methods whose short keys are equal because of a ':'.
  `HookKeyCollides` exhibits two different methods whose keys are equal
  once truncated.
- **Detaching one hook un-patches the whole class.** Detach redefines the
  class with its pristine cached bytes (`src/jnihook.c:616-632`), even
  when other methods of the class are still hooked. Their records stay in
  the hooks table, but the class no longer has their native stubs. The
  model keeps this behaviour: `Detach` restores the cached bytes whatever
  the hooks table still holds.
- **A failed rebind leaves the class patched.** When
  `reregister_class_natives` fails after the class was redefined
  (`src/jnihook.c:534-548`), attach removes the new record and returns
  JNI_OP. It does not restore the class, so the class keeps the patched
  bytes: every hooked method of the class, the one just removed included,
  is then a native stub whose native was not registered. The model keeps
  this behaviour: `Attach` promises that JNI_OP comes with `redefined`
  bytes, while the hooks table is as before.
- **A failed store during attach is tolerated.** Attach ignores the result
  of `hashtable_put` at `src/jnihook.c:412`. The model allows that store to
  fail too. After a successful attach, the hooks table is therefore either
  unchanged or the old table plus the new key.

## Model

| member | source | states |
|---|---|---|
| `Bytes.ReadU2OfU2` | src/classfile.c:10-12 | Reading a u2 back from the two bytes written for it gives the value |
| `Bytes.U2OfReadU2` | src/buffer.c:53-56 | Writing back the u2 read at a position gives exactly the two bytes there |
| `Bytes.ReadU4OfU4` | src/classfile.c:14-17 | Reading a u4 back from the four bytes written for it gives the value |
| `Bytes.U4OfReadU4` | src/buffer.c:58-66 | Writing back the u4 read at a position gives exactly the four bytes there |
| `ByteBuffer.GrownCapacity` | src/buffer.c:33-35 | The grown capacity holds the bytes needed and is at least double the old one, and it is one of those two sizes |
| `ByteBuffer.Buffer.Create` | src/buffer.c:8-21 | The result is null exactly when allocation fails; otherwise it is empty, size 0, with capacity `initial_capacity` |
| `ByteBuffer.Buffer.Append` | src/buffer.c:30-47 | Success holds exactly when data is given and it fits or realloc succeeds. On success the contents are the old contents plus the data, and growth goes to `max(2*capacity, size+len)`. On failure nothing changes. `size <= capacity` is kept |
| `ByteBuffer.Buffer.AppendU1` | src/buffer.c:49-51 | Appends the byte, or changes nothing when growth fails |
| `ByteBuffer.Buffer.AppendU2` | src/buffer.c:53-56 | Appends the high byte and then the low byte, or changes nothing |
| `ByteBuffer.Buffer.AppendU4` | src/buffer.c:58-66 | Appends four bytes, most significant first, or changes nothing |
| `ByteBuffer.Buffer.Detach` | src/buffer.c:68-76 | Returns the block and the size, whose prefix is the contents; leaves data null, size 0 and capacity 0 |
| `ClassfileDecode.PayloadSize` | src/classfile.c:27-62 | A payload size exists exactly for the fourteen known tags (a Utf8 tag also needs its length field) |
| `ClassfileDecode.DecodeEntry` | src/classfile.c:24-74 | An entry is its tag byte followed by exactly its payload, verbatim from the input; an unknown tag fails |
| `ClassfileParse.ParseConstantPool` | src/classfile.c:19-78 | The in-place loop over the pool array yields what `DecodePool` describes, failure included |
| `ClassfileParse.ParseAttributes` | src/classfile.c:80-105 | The attribute loop yields `DecodeAttributes` |
| `ClassfileParse.ParseMembers` | src/classfile.c:107-137 | The member loop yields `DecodeMembers` |
| `ClassfileParse.ParseInterfaces` | src/classfile.c:182-195 | The interface loop yields `DecodeInterfaces` |
| `ClassfileParse.ParseFromInfo` | src/classfile.c:171-195 | Access flags, this and super class, and the interfaces are read as `DecodeInfo` describes |
| `ClassfileParse.ParseFields` | src/classfile.c:197-200 | The field table is read as `DecodeFields` describes |
| `ClassfileParse.ParseMethodTable` | src/classfile.c:202-205 | The method table is read as `DecodeMethods` describes |
| `ClassfileParse.ParseClassAttributes` | src/classfile.c:207-210 | The class attributes are read as `DecodeClassAttributes` describes |
| `ClassfileParse.ClassfileParse` | src/classfile.c:139-213 | A NULL input, an input under 10 bytes, or a wrong magic gives NULL; otherwise the result is `Parse` of the bytes |
| `ClassfileDecode.PoolSound` | src/classfile.c:19-78 | A decoded pool is well formed and re-encodes to exactly the bytes it was read from |
| `ClassfileDecode.AttributesSound` | src/classfile.c:80-105 | Decoded attributes fit their length fields and re-encode to the bytes read |
| `ClassfileDecode.MembersSound` | src/classfile.c:107-137 | Decoded members fit their count fields and re-encode to the bytes read |
| `ClassfileDecode.DecodeClassSound` | src/classfile.c:139-213 | Whatever parses is well formed, and generating it gives back exactly the bytes consumed |
| `ClassfileDecode.EncodeOfParse` | src/classfile.c:335-414 | `generate(parse(b)) == b` for every `b` that parses with no trailing bytes |
| `ClassfileDecode.PoolComplete` | src/classfile.c:19-78 | The bytes written for a well-formed pool decode to that pool |
| `ClassfileDecode.AttributesComplete` | src/classfile.c:80-105 | The bytes written for a list of attributes decode to that list and end where it ends |
| `ClassfileDecode.MembersComplete` | src/classfile.c:107-137 | The bytes written for a list of members decode to that list and end where it ends |
| `ClassfileDecode.DecodeClassComplete` | src/classfile.c:139-213 | The bytes written for a well-formed class decode to that class, consuming every byte |
| `ClassfileDecode.ParseOfEncode` | src/classfile.c:139-213 | `parse(generate(cf)) == cf` for every well-formed class |
| `ClassfileGenerate.WriteHead` | src/classfile.c:341-352 | Appends magic, versions, the pool count and the non-empty pool entries |
| `ClassfileGenerate.WriteSlots` | src/classfile.c:347-352 | Appends the pool count and each non-empty entry verbatim, skipping empty slots |
| `ClassfileGenerate.WriteInfo` | src/classfile.c:354-363 | Appends access flags, this and super class, and the interfaces with their count |
| `ClassfileGenerate.WriteInterfaces` | src/classfile.c:361-363 | Appends each interface index as a u2 |
| `ClassfileGenerate.WriteMember` | src/classfile.c:368-380 | Appends the four u2 fields of a member, then its attributes |
| `ClassfileGenerate.WriteMemberTable` | src/classfile.c:365-399 | Appends a member count, then each member |
| `ClassfileGenerate.WriteAttribute` | src/classfile.c:374-379 | Appends name index, u4 length and the info bytes |
| `ClassfileGenerate.WriteAttributeTable` | src/classfile.c:401-409 | Appends an attribute count, then each attribute |
| `ClassfileGenerate.WriteClass` | src/classfile.c:341-409 | Appends the sections in order: head, info, fields, methods, class attributes |
| `ClassfileGenerate.ClassfileGenerate` | src/classfile.c:335-414 | A NULL class or a failed buffer creation gives NULL; otherwise the result is the class's encoding |
| `ClassfilePatch.GetUtf8` | src/classfile.c:266-280 | A string exists exactly for 0 < index < count with a Utf8 entry in the slot; it has the entry's `length` characters |
| `ClassfilePatch.GetUtf8OfEntry` | src/classfile.c:272-277 | For a Utf8 entry, the result is exactly the `length` bytes after the 3-byte header |
| `ClassfilePatch.GetUtf8OnWellFormedPool` | src/classfile.c:266-280 | In a parsed pool, every Utf8 slot yields a string |
| `ClassfilePatch.ShouldHook` | src/classfile.c:297-305 | True exactly when some target has the same name and descriptor, compared as C strings |
| `ClassfilePatch.SetNative` | src/classfile.c:312-313 | Sets the `ACC_NATIVE` bit and keeps every other bit |
| `ClassfilePatch.StripCodeKeepsOthers` | src/classfile.c:315-329 | After stripping, the attributes are exactly the non-`Code` attributes |
| `ClassfilePatch.StripCodeIdempotent` | src/classfile.c:315-329 | Stripping twice is stripping once |
| `ClassfilePatch.RemoveCodeAttributes` | src/classfile.c:315-329 | The in-place shift loop leaves the non-`Code` attributes first, in their order, and returns their count |
| `ClassfilePatch.PatchMethod` | src/classfile.c:286-329 | A method whose name and descriptor resolve and match a target is patched; any other method is returned unchanged |
| `ClassfilePatch.PatchedMemberNative` | src/classfile.c:310-329 | A selected method becomes native with its other flag bits kept, has no `Code` attribute, and keeps every other attribute |
| `ClassfilePatch.Patched` | src/classfile.c:285-330 | Only the methods change; each one is patched on its own, and the pool, fields and class attributes are untouched |
| `ClassfilePatch.ClassfilePatchMethods` | src/classfile.c:282-333 | Returns 0 with nothing changed for a NULL class or NULL targets; otherwise returns 1 with the class patched |
| `ClassfilePatch.PatchIdempotent` | src/classfile.c:282-333 | Patching a patched class again changes nothing |
| `ClassfilePatch.PatchedFits` | src/classfile.c:282-333 | A patched class still fits the format, and a well-formed class stays well formed, so it can be generated |
| `HashTables.HashTable.HashString` | src/hashtable.c:9-15 | djb2 modulo 2^32 over the key up to its first NUL |
| `HashTables.HashTable.Create` | src/hashtable.c:17-30 | Null exactly when allocation fails; otherwise `size` empty buckets, count 0, empty map |
| `HashTables.FindIndex` | src/hashtable.c:56-62 | The chain walk stops at the first entry whose key is equal, or at the end |
| `HashTables.HashTable.Put` | src/hashtable.c:50-79 | A NULL key fails. An existing key gets the new value in its place in the chain, and the count is unchanged. A new key goes to the front of its bucket, and the count grows by one. Every other bucket is unchanged. A failed allocation changes nothing |
| `HashTables.PutExisting` | src/hashtable.c:56-60 | Replacing the value of a present key keeps the table invariant for the updated map |
| `HashTables.PutNew` | src/hashtable.c:64-76 | Putting an absent key at the head of its bucket keeps the invariant, with count + 1 |
| `HashTables.HashTable.Get` | src/hashtable.c:81-95 | The value stored under the key, or none for a NULL or absent key |
| `HashTables.HashTable.Remove` | src/hashtable.c:97-116 | Succeeds exactly when the key is present. It then unlinks that key's entry from its chain, keeping the other entries in order and every other bucket unchanged, and decrements the count. Otherwise nothing changes |
| `HashTables.RemovePresent` | src/hashtable.c:103-110 | Unlinking the entry of a present key keeps the invariant for the map without the key, with count - 1 |
| `HashTables.HashTable.Iterate` | src/hashtable.c:118-128 | The visit order is bucket 0 to size-1, each chain from its head |
| `HashTables.IterateVisitsEachOnce` | src/hashtable.c:118-128 | The walk visits `count` entries with distinct keys, and visits exactly the stored key-value pairs |
| `HookManager.HookEntryCreate` | src/hook_manager.c:9-29 | Null exactly when an allocation fails; otherwise copies of the three strings, plus the flags, hook function and original method |
| `HookManager.ClassCacheCreate` | src/hook_manager.c:39-57 | Null exactly when an allocation fails; otherwise the name copy, a fresh byte-for-byte copy of `len` bytes, and `bytecode_len = len` |
| `JniHookStrings.FromCode` | include/jnihook.h:19-35 | The fifteen result codes are 0 to 14, in declaration order |
| `JniHookStrings.CodeRoundTrip` | include/jnihook.h:19-35 | Every result's code maps back to that result |
| `JniHookStrings.ErrorString` | src/jnihook.c:667-687 | Each known code gets its own message; the unknown-error text is returned exactly for codes outside 0 to 14 |
| `JniHookStrings.Truncate` | src/jnihook.c:74-77 | `snprintf` keeps at most `size - 1` characters, as a prefix, and keeps a short string whole |
| `JniHookStrings.HookKey` | src/jnihook.c:74-77 | The key `class::method` followed by the signature, under 512 characters and free of NUL |
| `JniHookStrings.HookKeyInjective` | src/jnihook.c:385-386 | Untruncated keys determine the class, method and descriptor, for class names without ':' and method names without '(' |
| `JniHookStrings.HookKeyAmbiguous` | src/jnihook.c:74-77 | Class `a:` with method `b`, and class `a` with method `:b`, get the same key |
| `JniHookStrings.HookKeyCollides` | src/jnihook.c:385-386 | Two different methods of a class with a 509-character name get the same truncated key |
| `JniHookStrings.ClassNameOfSignature` | src/jnihook.c:22-35 | Defined exactly for a signature of at least 3 characters of the form `L…;`, and yields the text in between |
| `JniHookStrings.ClassNameOfDescriptor` | src/jnihook.c:22-35 | Stripping `L` and `;` from `L<name>;` gives `<name>` back |
| `JniHook.GetClassName` | src/jnihook.c:15-36 | A name is returned only when the VM reported the class's signature `L<name>;`, and it is `<name>` |
| `JniHook.GetMethodString` | src/jnihook.c:38-62 | A returned method name or signature is the `strdup` copy of what the VM reported |
| `JniHook.CountClassHooks` | src/jnihook.c:139-147 | Counts exactly the records of the class in the table walk |
| `JniHook.CollectTargets` | src/jnihook.c:201-213 | Fills exactly the (name, signature) pairs of the class's records, in walk order, as many as counted |
| `JniHook.CollectNatives` | src/jnihook.c:119-136 | Fills exactly the (name, signature, hook) triples of the class's records, as many as counted |
| `JniHook.ClassRecordsOfTable` | src/jnihook.c:227-256 | A record is collected exactly when it is stored in the hooks table and its class name equals the class |
| `JniHook.JniHookState.CollectClassHooks` | src/jnihook.c:227-256 | No records gives 0 and no array; a failed allocation gives -1; otherwise the targets of every record of the class |
| `JniHook.JniHookState.ReregisterClassNatives` | src/jnihook.c:150-190 | No records gives OK without registering. Otherwise the natives of every record of the class are registered, or ALLOC or JNI_OP is returned |
| `JniHook.JniHookState.Init` | src/jnihook.c:258-340 | ALREADY_INIT and INVALID_PARAM change nothing. Each setup step may fail with its own code. OK leaves two fresh empty tables of 256 and 128 buckets |
| `JniHook.JniHookState.CreateTables` | src/jnihook.c:316-325 | Two fresh, separate, empty tables of 256 and 128 buckets, each null when its allocation fails |
| `JniHook.JniHookState.ClassFileLoadHook` | src/jnihook.c:79-108 | A NULL name changes nothing. Otherwise only an absent class gets an entry, holding the delivered bytes: the first capture wins |
| `JniHook.JniHookState.CaptureClass` | src/jnihook.c:415-445 | The cache only gains entries, first capture wins, and the result is what the cache now holds for the class |
| `JniHook.JniHookState.Rebuild` | src/jnihook.c:448-508 | The rebuilt bytes are the cached pristine bytes, parsed and patched for every record of the class, then generated; a parse failure or no records gives BYTECODE_PARSE |
| `JniHook.JniHookState.ResolveMethod` | src/jnihook.c:361-380 | A resolution, when returned, is the VM's declaring class of the method, the name inside that class's `L<name>;` signature, and the method's name and descriptor as C strings |
| `JniHook.JniHookState.Install` | src/jnihook.c:415-548 | A class still missing from the cache gives BYTECODE_PARSE. On OK the class was redefined with its pristine bytes patched for all of its records, and the natives of exactly those records were registered. JNI_OP comes after the class was redefined with those bytes |
| `JniHook.JniHookState.InsertAndInstall` | src/jnihook.c:398-548 | The record holds the given class name, method name, descriptor, flags, hook function and method. It is stored before patching, and every failure leaves the hooks table as it was before the call. OK means the class was redefined, and its natives were registered, for all of its records |
| `JniHook.JniHookState.Attach` | src/jnihook.c:342-562 | NOT_INIT is returned exactly when the state is not set up, and INVALID_PARAM exactly for a NULL method or hook function. An unresolved method gives GET_JNI or JVMTI_OP and changes nothing. A resolved method's key is that of its class, name and descriptor, and HOOK_EXISTS is returned exactly when that key is present; HOOK_EXISTS then leaves both tables unchanged. Every failure leaves the hooks table as before. A stored record holds the method's names, its reported modifiers (0 when none are reported), the hook and the method. OK returns the original method, redefines the class from pristine bytes patched for all of its records, and registers their natives. JNI_OP comes after the class was redefined with patched bytes, and the class is not restored |
| `JniHook.JniHookState.Detach` | src/jnihook.c:564-641 | NOT_INIT is returned exactly when the state is not set up, and INVALID_PARAM exactly for a NULL method. An unresolved method gives JVMTI_OP. For a resolved method, OK is returned exactly when its key is present: that key alone is removed, and the class's cached pristine bytes are handed to RedefineClasses whether or not the restore succeeds. HOOK_NOT_FOUND changes nothing. The cache never changes |

## Left out

- Memory ownership is not modelled: `free`, `classfile_destroy`, `buffer_destroy`, `hashtable_destroy`, `hook_entry_destroy` and `class_cache_destroy` (including their no-op on NULL), the leaks on error paths, and the use-after-free in the log calls of attach and detach.
- `ClassfileParse.ClassfileParse` does not model the NULL that `classfile_parse` returns when one of its own allocations fails (the class, the pool, an entry, the interfaces or an attribute array). The model's allocations always succeed there.
- `ClassfileParse.ClassfileParse` fails on input that ends early, where the C parser reads past `len`. The C code's behaviour on such input is undefined, so it cannot be modelled.
- `ClassfileParse.ParseConstantPool` rejects a Long or Double in the last pool slot. There the C loop writes one slot past the end of the pool array.
- `ClassfileParse.ClassfileParse` treats a table whose count is 0 as an empty sequence, where the C code keeps a NULL array. Because the model's allocations never fail, the NULL that `parse_methods` and `parse_attributes` can return, and that `classfile_parse` ignores (`src/classfile.c:200-210`), is not modelled.
- `ClassfilePatch.GetUtf8` fails on a Utf8 slot shorter than its length field, where the C code copies past the entry. This cannot happen in a pool the parser produced (see `GetUtf8OnWellFormedPool`). The NULL-class guard is not modelled, and neither is the failing `malloc` of the copy.
- `ClassfileGenerate.ClassfileGenerate` assumes that every append succeeds. The C generator ignores the results of its appends.
- `ByteBuffer.Buffer.Append`: a NULL buffer is not modelled, because methods are called on an existing object. NULL data is modelled as `None`. Integer overflow of `size + len` and of `capacity * 2` is not modelled.
- `HashTables.HashTable.Put`, `Get`, `Remove` and `Iterate` do not model a NULL table or a NULL callback. The table size is required to be non-zero, because the C code divides by it.
- `HashTables.HashTable.HashString` treats every character as non-negative. The signedness of `int c` for bytes above 127 depends on the platform.
- Bucket chains are sequences of entries rather than linked nodes. Splicing a chain is modelled as replacing the bucket's sequence.
- The JVMTI and JNI calls (GetEnv, the capabilities and callbacks, method and class queries, RetransformClasses, RedefineClasses, RegisterNatives, global references) have nondeterministic results. What they do inside the VM is not modelled.
- Locking and concurrency (`mutex_lock`/`mutex_unlock`, `src/mutex.c`) are not modelled. Attach holds the state lock (`src/jnihook.c:358`) across RetransformClasses (`src/jnihook.c:424`). If the VM runs the load callback on the same thread, the callback's attempt to take the same lock (`src/jnihook.c:96`) would deadlock.
- `JniHook.JniHookState.Attach` does not promise that the new record is in the hooks table after OK. Attach ignores the result of `hashtable_put` (`src/jnihook.c:412`), so a failed store still ends in OK.
- `JniHook.JniHookState.Init` does not model capability and callback registration beyond their success or failure, or the Android compatibility probing.
- `jnihook_shutdown` and `src/android_compat.c` are not part of this model.
- Logging is not modelled.
