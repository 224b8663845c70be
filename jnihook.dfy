/**
 * The hook orchestrator of src/jnihook.c: the global registry (a hooks
 * table keyed by "<class>::<method><descriptor>" and a cache of pristine
 * class bytes keyed by class name) and the attach / detach protocol over it.
 *
 * The JVM is a `Jvm` object whose every call may fail and whose answers are
 * arbitrary; an allocation that may fail is `Allocates()`.  Locking is not
 * modelled: each operation runs alone.
 */
module JniHook {
  import opened Wrappers
  import opened Bytes
  import opened CStrings
  import opened ClassfileFormat
  import opened ClassfileDecode
  import ClassfileParse
  import opened ClassfilePatch
  import ClassfileGenerate
  import opened HashTables
  import opened HookManager
  import opened JniHookStrings

  /** A NULL handle or function pointer. */
  const NULL: Handle := 0

  /** The bucket counts jnihook_init asks for. */
  const HOOKS_TABLE_SIZE: nat := 256
  const CACHE_TABLE_SIZE: nat := 128

  /** JNINativeMethod: what RegisterNatives binds. */
  datatype NativeMethod = NativeMethod(name: string, signature: string, fnPtr: Handle)

  /**
   * The JavaVM, its JVMTI and its JNI environment.  What the VM knows about
   * a method or class is fixed (the maps below); each query may still fail,
   * and a query that succeeds reports what the VM knows.  The other calls
   * report success or failure only.
   */
  class Jvm {
    /** The declaring class of each method id. */
    const declaringClass: map<Handle, Handle>
    /** The type signature "L<name>;" of each class. */
    const classSignature: map<Handle, string>
    /** The name and the descriptor of each method id. */
    const methodName: map<Handle, string>
    const methodSignature: map<Handle, string>
    /** The access flags of each method id. */
    const modifiers: map<Handle, int>

    /** GetEnv for JVMTI 1.2 (init) or JNI 1.6 (attach). */
    method GetEnv() returns (ok: bool) {
      ok :| true;
    }

    method AddCapabilities() returns (ok: bool) {
      ok :| true;
    }

    method SetEventCallbacks() returns (ok: bool) {
      ok :| true;
    }

    method MethodDeclaringClass(m: Handle) returns (clazz: Option<Handle>)
      ensures clazz.Some? ==> m in declaringClass && clazz.value == declaringClass[m]
    {
      clazz := None;
      var answers :| true;
      if answers && m in declaringClass {
        clazz := Some(declaringClass[m]);
      }
    }

    method ClassSignature(clazz: Handle) returns (sig: Option<string>)
      ensures sig.Some? ==> clazz in classSignature && sig.value == classSignature[clazz]
    {
      sig := None;
      var answers :| true;
      if answers && clazz in classSignature {
        sig := Some(classSignature[clazz]);
      }
    }

    method MethodName(m: Handle) returns (name: Option<string>)
      ensures name.Some? ==> m in methodName && name.value == methodName[m]
    {
      name := None;
      var answers :| true;
      if answers && m in methodName {
        name := Some(methodName[m]);
      }
    }

    method MethodSignature(m: Handle) returns (sig: Option<string>)
      ensures sig.Some? ==> m in methodSignature && sig.value == methodSignature[m]
    {
      sig := None;
      var answers :| true;
      if answers && m in methodSignature {
        sig := Some(methodSignature[m]);
      }
    }

    method MethodModifiers(m: Handle) returns (mods: Option<int>)
      ensures mods.Some? ==> m in modifiers && mods.value == modifiers[m]
    {
      mods := None;
      var answers :| true;
      if answers && m in modifiers {
        mods := Some(modifiers[m]);
      }
    }

    /**
     * RetransformClasses on one class.  When the VM delivers the class's
     * current bytes to the load hook, `delivered` holds them; the call's
     * error code is not returned because attach ignores it.
     */
    method RetransformClass(clazz: Handle) returns (delivered: Option<seq<byte>>) {
      delivered :| true;
    }

    method RedefineClass(clazz: Handle, bytes: seq<byte>) returns (ok: bool) {
      ok :| true;
    }

    method RegisterNatives(clazz: Handle, natives: seq<NativeMethod>) returns (ok: bool) {
      ok :| true;
    }
  }

  /** Whether a malloc, calloc or strdup returns a block. */
  method Allocates() returns (ok: bool) {
    ok :| true;
  }

  /** Whether mutex_init succeeds. */
  method MutexInit() returns (ok: bool) {
    ok :| true;
  }

  /* ---------- Class names and method names from the VM ---------- */

  /**
   * get_class_name: NULL when the VM gives no signature, when the signature
   * is not "L<name>;", or when the copy cannot be allocated; otherwise the
   * name between 'L' and ';'.
   */
  method GetClassName(jvm: Jvm, clazz: Handle) returns (name: Option<string>)
    ensures name.Some? ==> clazz in jvm.classSignature && ClassNameOfSignature(jvm.classSignature[clazz]) == name
    ensures name.Some? ==> NUL !in name.value
  {
    var reported := jvm.ClassSignature(clazz);
    if reported.None? {
      return None;
    }
    var stripped := ClassNameOfSignature(reported.value);
    if stripped.None? {
      return None;
    }
    var copied := Allocates();
    if !copied {
      return None;
    }
    name := stripped;
  }

  /** get_method_name and get_method_signature: the VM's string up to its NUL, copied. */
  method GetMethodString(reported: Option<string>) returns (s: Option<string>)
    ensures s.Some? ==> reported.Some? && s.value == CStr(reported.value)
  {
    if reported.None? {
      return None;
    }
    var copied := Allocates();
    if !copied {
      return None;
    }
    s := Some(CStr(reported.value));
  }

  /** get_method_modifiers: the VM's modifiers, 0 when the call fails. */
  function ModifiersOr0(mods: Option<int>): int {
    if mods.Some? then mods.value else 0
  }

  /** What attach and detach learn about a method: its declaring class, that class's name, and the method's name and descriptor. */
  datatype Resolution = Resolution(clazz: Handle, className: string, methodName: string, signature: string)

  /**
   * `res` is what the VM knows about method `m`: its declaring class, the
   * name inside that class's "L<name>;" signature, and the method's name
   * and descriptor as strdup copies them.
   */
  ghost predicate Resolves(jvm: Jvm, m: Handle, res: Resolution) {
    && m in jvm.declaringClass && res.clazz == jvm.declaringClass[m]
    && res.clazz in jvm.classSignature && ClassNameOfSignature(jvm.classSignature[res.clazz]) == Some(res.className)
    && m in jvm.methodName && res.methodName == CStr(jvm.methodName[m])
    && m in jvm.methodSignature && res.signature == CStr(jvm.methodSignature[m])
  }

  /** The hook key of a resolved method, as create_hook_key formats it. */
  function KeyOf(res: Resolution): string {
    HookKey(res.className, res.methodName, res.signature)
  }

  /* ---------- The records of one class ---------- */

  /** The hooks visited in `visits` whose class name strcmp-equals `cls`, in visit order. */
  ghost function ClassRecords(visits: seq<Entry<HookEntry>>, cls: string): (r: seq<HookEntry>)
    ensures |r| <= |visits|
  {
    if visits == [] then []
    else
      var rest := ClassRecords(visits[..|visits| - 1], cls);
      var e := visits[|visits| - 1].value;
      if StrEq(e.className, cls) then rest + [e] else rest
  }

  /** hook_target_t of a record: its method name and descriptor. */
  function TargetOf(e: HookEntry): HookTarget {
    HookTarget(e.methodName, e.signature)
  }

  /** JNINativeMethod of a record: name, descriptor and the hook function. */
  function NativeOf(e: HookEntry): NativeMethod {
    NativeMethod(e.methodName, e.signature, e.hookFunction)
  }

  function Targets(hs: seq<HookEntry>): (ts: seq<HookTarget>)
    ensures |ts| == |hs| && forall i | 0 <= i < |hs| :: ts[i] == TargetOf(hs[i])
  {
    seq(|hs|, i requires 0 <= i < |hs| => TargetOf(hs[i]))
  }

  function Natives(hs: seq<HookEntry>): (ns: seq<NativeMethod>)
    ensures |ns| == |hs| && forall i | 0 <= i < |hs| :: ns[i] == NativeOf(hs[i])
  {
    seq(|hs|, i requires 0 <= i < |hs| => NativeOf(hs[i]))
  }

  /** A record is kept exactly when some visit carries it and its class matches. */
  lemma {:induction false} ClassRecordsMember(visits: seq<Entry<HookEntry>>, cls: string, e: HookEntry)
    ensures e in ClassRecords(visits, cls) <==>
              StrEq(e.className, cls) && exists i :: 0 <= i < |visits| && visits[i].value == e
    decreases |visits|
  {
    if visits != [] {
      var init := visits[..|visits| - 1];
      ClassRecordsMember(init, cls, e);
      if e in ClassRecords(init, cls) {
        var i :| 0 <= i < |init| && init[i].value == e;
        assert visits[i] == init[i];
      }
      if StrEq(e.className, cls) && exists i :: 0 <= i < |visits| && visits[i].value == e {
        var i :| 0 <= i < |visits| && visits[i].value == e;
        if i < |init| {
          assert init[i] == visits[i];
        }
      }
    }
  }

  /** A prefix of the visits keeps no more records than all of them. */
  lemma {:induction false} ClassRecordsPrefix(visits: seq<Entry<HookEntry>>, cls: string, i: nat)
    requires i <= |visits|
    ensures |ClassRecords(visits[..i], cls)| <= |ClassRecords(visits, cls)|
    decreases |visits|
  {
    if i < |visits| {
      var init := visits[..|visits| - 1];
      assert init[..i] == visits[..i];
      ClassRecordsPrefix(init, cls, i);
    } else {
      assert visits[..i] == visits;
    }
  }

  /**
   * Over a whole table walk, the records kept for `cls` are exactly the
   * table's values whose class name is `cls`.
   */
  lemma ClassRecordsOfTable(bs: seq<seq<Entry<HookEntry>>>, m: map<string, HookEntry>, count: nat,
                            cls: string, e: HookEntry)
    requires Represents(bs, m, count)
    ensures e in ClassRecords(Flatten(bs), cls) <==>
              StrEq(e.className, cls) && exists k :: k in m && m[k] == e
  {
    var f := Flatten(bs);
    IterateVisitsEachOnce(bs, m, count);
    ClassRecordsMember(f, cls, e);
    if exists i :: 0 <= i < |f| && f[i].value == e {
      var i :| 0 <= i < |f| && f[i].value == e;
      assert Entry(f[i].key, e) == f[i] && f[i] in f;
    }
    if exists k :: k in m && m[k] == e {
      var k :| k in m && m[k] == e;
      assert Entry(k, e) in f;
      var i :| 0 <= i < |f| && f[i] == Entry(k, e);
      assert f[i].value == e;
    }
  }

  /** Removing a key that was just inserted gives the map back. */
  lemma UndoInsert<V>(m: map<string, V>, k: string, v: V)
    requires k !in m
    ensures m[k := v] - {k} == m
  {
  }

  /** A record stored under some key, of class `cls`, is among the targets collected for `cls`. */
  lemma StoredRecordIsTarget(bs: seq<seq<Entry<HookEntry>>>, m: map<string, HookEntry>, count: nat,
                             cls: string, k: string)
    requires Represents(bs, m, count) && k in m && StrEq(m[k].className, cls)
    ensures TargetOf(m[k]) in Targets(ClassRecords(Flatten(bs), cls))
  {
    var hs := ClassRecords(Flatten(bs), cls);
    ClassRecordsOfTable(bs, m, count, cls, m[k]);
    var i :| 0 <= i < |hs| && hs[i] == m[k];
    assert Targets(hs)[i] == TargetOf(m[k]);
  }

  /**
   * count_class_hook and count_patch_target over one table walk: the number
   * of records of `cls`.
   */
  method CountClassHooks(visits: seq<Entry<HookEntry>>, cls: string) returns (n: nat)
    ensures n == |ClassRecords(visits, cls)|
  {
    n := 0;
    var i := 0;
    while i < |visits|
      invariant i <= |visits| && n == |ClassRecords(visits[..i], cls)|
    {
      assert visits[..i + 1][..i] == visits[..i];
      if StrEq(visits[i].value.className, cls) {
        n := n + 1;
      }
      i := i + 1;
    }
    assert visits[..i] == visits;
  }

  /**
   * collect_patch_target over a second walk of the same table into an array
   * of the counted size: every record of `cls` fits, so the array comes out
   * full, in visit order.
   */
  method CollectTargets(visits: seq<Entry<HookEntry>>, cls: string, capacity: nat) returns (targets: seq<HookTarget>)
    requires capacity == |ClassRecords(visits, cls)|
    ensures targets == Targets(ClassRecords(visits, cls))
    ensures |targets| == capacity
  {
    targets := [];
    var i := 0;
    while i < |visits|
      invariant i <= |visits| && targets == Targets(ClassRecords(visits[..i], cls))
    {
      assert visits[..i + 1][..i] == visits[..i];
      var e := visits[i].value;
      if StrEq(e.className, cls) {
        ClassRecordsPrefix(visits, cls, i + 1);
        if |targets| < capacity {
          targets := targets + [TargetOf(e)];
        }
      }
      i := i + 1;
    }
    assert visits[..i] == visits;
  }

  /** collect_native_method: the same walk, producing the rebind array. */
  method CollectNatives(visits: seq<Entry<HookEntry>>, cls: string, capacity: nat) returns (natives: seq<NativeMethod>)
    requires capacity == |ClassRecords(visits, cls)|
    ensures natives == Natives(ClassRecords(visits, cls))
    ensures |natives| == capacity
  {
    natives := [];
    var i := 0;
    while i < |visits|
      invariant i <= |visits| && natives == Natives(ClassRecords(visits[..i], cls))
    {
      assert visits[..i + 1][..i] == visits[..i];
      var e := visits[i].value;
      if StrEq(e.className, cls) {
        ClassRecordsPrefix(visits, cls, i + 1);
        if |natives| < capacity {
          natives := natives + [NativeOf(e)];
        }
      }
      i := i + 1;
    }
    assert visits[..i] == visits;
  }

  /** A class file that parses is well formed, so it fits the generator's u2 / u4 fields. */
  lemma ParsedWellFormed(data: seq<byte>)
    requires Parse(data).Some?
    ensures WellFormed(Parse(data).value) && Fits(Parse(data).value)
  {
    DecodeClassSound(data);
  }

  /**
   * The class cache grows by first capture only: every cached class keeps
   * its record, and the only class that can gain one is `name`.
   */
  ghost predicate FirstCaptureWins(before: map<string, ClassCache>, after: map<string, ClassCache>, name: string) {
    && (forall k | k in before :: k in after && after[k] == before[k])
    && (forall k | k in after :: k in before || k == name)
  }

  /** The bytes attach redefines a class with: the cached pristine bytes, parsed and patched for `targets`. */
  ghost predicate PatchedFromPristine(cached: ClassCache, targets: seq<HookTarget>, bytes: seq<byte>)
    reads cached.bytecode
  {
    var parsed := Parse(cached.bytecode[..]);
    && parsed.Some?
    && targets != []
    && (ParsedWellFormed(cached.bytecode[..]);
        PatchedFits(parsed.value, targets);
        bytes == EncodeClass(Patched(parsed.value, targets)))
  }

  /** g_state: the registry, whether it is set up, and the VM it serves. */
  class JniHookState {
    var initialized: bool
    var jvm: Jvm?
    var hooks: HashTable?<HookEntry>
    var classCache: HashTable?<ClassCache>
    ghost var Repr: set<object>

    ghost predicate Valid()
      reads this, Repr
    {
      && this in Repr
      && (initialized ==>
            && jvm != null && hooks != null && classCache != null
            && hooks.Repr() <= Repr && classCache.Repr() <= Repr
            && this !in hooks.Repr() && this !in classCache.Repr()
            && hooks.Repr() !! classCache.Repr()
            && hooks.Valid() && classCache.Valid())
    }

    /** The records of class `cls` in the hooks table, in hashtable_iterate order. */
    ghost function Records(cls: string): seq<HookEntry>
      requires Valid() && initialized
      reads Repr
    {
      ClassRecords(Flatten(hooks.buckets[..]), cls)
    }

    /** The zero-initialised g_state. */
    constructor ()
      ensures Valid() && !initialized && fresh(Repr)
    {
      initialized := false;
      jvm := null;
      hooks := null;
      classCache := null;
      Repr := {this};
    }

    /** The two hashtable_create calls of jnihook_init: 256 hook buckets and 128 cache buckets. */
    static method CreateTables() returns (h: HashTable?<HookEntry>, c: HashTable?<ClassCache>)
      ensures h != null ==> h.Valid() && fresh(h.Repr()) && h.Contents == map[] && h.buckets.Length == HOOKS_TABLE_SIZE
      ensures c != null ==> c.Valid() && fresh(c.Repr()) && c.Contents == map[] && c.buckets.Length == CACHE_TABLE_SIZE
      ensures h != null && c != null ==> h.Repr() !! c.Repr()
    {
      var hooksOk := Allocates();
      var cacheOk := Allocates();
      h := HashTable.Create(HOOKS_TABLE_SIZE, hooksOk);
      c := HashTable.Create(CACHE_TABLE_SIZE, cacheOk);
    }

    /**
     * jnihook_init: ALREADY_INIT when set up (nothing changes), INVALID_PARAM
     * for a NULL VM (nothing changes); otherwise the state is cleared and
     * each step may fail with its own result: JVMTI environment,
     * capabilities, callbacks, the two tables, the mutex.  OK leaves two
     * fresh empty tables of 256 and 128 buckets.
     */
    method Init(vm: Jvm?) returns (r: Status)
      requires Valid()
      modifies this
      ensures Valid()
      ensures old(initialized) ==> r == ErrAlreadyInit && unchanged(this)
      ensures !old(initialized) && vm == null ==> r == ErrInvalidParam && unchanged(this)
      ensures !old(initialized) && vm != null ==>
                r in {Ok, ErrGetJvmti, ErrAddCaps, ErrSetCallbacks, ErrAlloc, ErrThreadOp}
      ensures initialized <==> old(initialized) || r == Ok
      ensures r == Ok ==> jvm == vm && fresh(hooks) && fresh(hooks.buckets) && fresh(classCache) && fresh(classCache.buckets)
      ensures r == Ok ==> hooks.Contents == map[] && hooks.buckets.Length == HOOKS_TABLE_SIZE
      ensures r == Ok ==> classCache.Contents == map[] && classCache.buckets.Length == CACHE_TABLE_SIZE
    {
      if initialized {
        return ErrAlreadyInit;
      }
      if vm == null {
        return ErrInvalidParam;
      }
      jvm, hooks, classCache := null, null, null;
      var ok := vm.GetEnv();
      if !ok {
        return ErrGetJvmti;
      }
      ok := vm.AddCapabilities();
      if !ok {
        return ErrAddCaps;
      }
      ok := vm.SetEventCallbacks();
      if !ok {
        return ErrSetCallbacks;
      }
      var h, c := CreateTables();
      hooks, classCache := h, c;
      if h == null || c == null {
        return ErrAlloc;
      }
      ok := MutexInit();
      if !ok {
        return ErrThreadOp;
      }
      jvm := vm;
      Repr := {this} + h.Repr() + c.Repr();
      initialized := true;
      r := Ok;
    }

    /**
     * class_file_load_hook: ignored without a name; otherwise the class's
     * bytes are cached under its name unless a record is already there
     * (first capture wins).  A failed allocation caches nothing.
     */
    method ClassFileLoadHook(name: Option<string>, classData: seq<byte>)
      requires Valid() && initialized
      modifies classCache.Repr()
      ensures Valid()
      ensures name.None? ==> classCache.Contents == old(classCache.Contents)
      ensures name.Some? ==> FirstCaptureWins(old(classCache.Contents), classCache.Contents, CStr(name.value))
      ensures name.Some? && CStr(name.value) in classCache.Contents && CStr(name.value) !in old(classCache.Contents) ==>
                classCache.Contents[CStr(name.value)].bytecode[..] == classData
    {
      if name.None? {
        return;
      }
      var cached := classCache.Get(name);
      if cached.None? {
        var allocOk := Allocates();
        var created := ClassCacheCreate(name.value, classData, |classData|, NULL, allocOk);
        if created != null {
          var putOk := Allocates();
          assert classData[..|classData|] == classData;
          var _ := classCache.Put(name, created, putOk);
        }
      }
    }

    /**
     * collect_class_hooks: count the records of `cls`, then collect their
     * targets into an array of that size.  No records give 0 and NULL; a
     * failed allocation gives -1 and NULL; otherwise the count and exactly
     * the records' targets.
     */
    method CollectClassHooks(cls: string) returns (n: int, targets: Option<seq<HookTarget>>)
      requires Valid() && initialized
      ensures Records(cls) == [] ==> n == 0 && targets.None?
      ensures Records(cls) != [] ==> n == -1 || n == |Records(cls)|
      ensures n == -1 ==> targets.None?
      ensures n > 0 ==> targets == Some(Targets(Records(cls)))
    {
      var visits := hooks.Iterate();
      var count := CountClassHooks(visits, cls);
      if count == 0 {
        return 0, None;
      }
      var allocOk := Allocates();
      if !allocOk {
        return -1, None;
      }
      var collected := CollectTargets(visits, cls, count);
      return count, Some(collected);
    }

    /**
     * reregister_class_natives: OK at once when `cls` has no records;
     * otherwise ALLOC when the array cannot be allocated, and else every
     * record's binding is registered in one call, JNI_OP when it fails.
     * `registered` is what was handed to RegisterNatives, if it was called.
     */
    method ReregisterClassNatives(cls: string, clazz: Handle) returns (r: Status, ghost registered: Option<seq<NativeMethod>>)
      requires Valid() && initialized
      ensures r in {Ok, ErrAlloc, ErrJniOp}
      ensures Records(cls) == [] ==> r == Ok && registered.None?
      ensures r == ErrAlloc ==> registered.None?
      ensures Records(cls) != [] && r != ErrAlloc ==> registered == Some(Natives(Records(cls)))
    {
      var visits := hooks.Iterate();
      var count := CountClassHooks(visits, cls);
      if count == 0 {
        return Ok, None;
      }
      var allocOk := Allocates();
      if !allocOk {
        return ErrAlloc, None;
      }
      var natives := CollectNatives(visits, cls, count);
      registered := Some(natives);
      var ok := jvm.RegisterNatives(clazz, natives);
      r := if ok then Ok else ErrJniOp;
    }

    /**
     * jnihook.c:415-445: the cached record of `cls`; when there is none, a
     * retransform is asked for so the load hook can capture the class, and
     * the cache is looked up again.  Its error alone is not fatal.
     */
    method CaptureClass(clazz: Handle, cls: string) returns (cached: Option<ClassCache>)
      requires Valid() && initialized && NUL !in cls
      modifies classCache.Repr()
      ensures Valid()
      ensures FirstCaptureWins(old(classCache.Contents), classCache.Contents, cls)
      ensures cached == Lookup(classCache.Contents, cls)
    {
      CStrOfPlain(cls);
      cached := classCache.Get(Some(cls));
      if cached.None? {
        var delivered := jvm.RetransformClass(clazz);
        if delivered.Some? {
          ClassFileLoadHook(Some(cls), delivered.value);
        }
        cached := classCache.Get(Some(cls));
      }
    }

    /**
     * jnihook.c:448-508: parse the cached pristine bytes, collect every
     * target of the class, patch, generate.  BYTECODE_PARSE when the bytes
     * do not parse, when the class has no records (the NULL target list
     * makes the patch fail) or when the generator's buffer cannot be
     * created; ALLOC when the target array cannot be allocated.
     */
    method Rebuild(cached: ClassCache, cls: string) returns (r: Status, bytes: Option<seq<byte>>)
      requires Valid() && initialized
      ensures r == Ok <==> bytes.Some?
      ensures r in {Ok, ErrBytecodeParse, ErrAlloc}
      ensures Parse(cached.bytecode[..]).None? || Records(cls) == [] ==> r == ErrBytecodeParse
      ensures bytes.Some? ==> PatchedFromPristine(cached, Targets(Records(cls)), bytes.value)
    {
      var cf := ClassfileParse.ClassfileParse(Some(cached.bytecode[..]));
      if cf.None? {
        return ErrBytecodeParse, None;
      }
      var n, targets := CollectClassHooks(cls);
      if n < 0 {
        return ErrAlloc, None;
      }
      var patchResult, patched := ClassfilePatchMethods(cf, targets);
      if patchResult == 0 {
        return ErrBytecodeParse, None;
      }
      ParsedWellFormed(cached.bytecode[..]);
      PatchedFits(cf.value, targets.value);
      var createOk := Allocates();
      bytes := ClassfileGenerate.ClassfileGenerate(patched, createOk);
      r := if bytes.Some? then Ok else ErrBytecodeParse;
    }

    /**
     * jnihook.c:415-548: capture, rebuild, redefine the class with the
     * rebuilt bytes (JVMTI_OP on failure), then rebind every native of the
     * class.  BYTECODE_PARSE when the cache still has no record afterwards.
     */
    method Install(clazz: Handle, cls: string)
      returns (r: Status, ghost redefined: Option<seq<byte>>, ghost registered: Option<seq<NativeMethod>>)
      requires Valid() && initialized && NUL !in cls
      modifies classCache.Repr()
      ensures Valid()
      ensures FirstCaptureWins(old(classCache.Contents), classCache.Contents, cls)
      ensures r in {Ok, ErrBytecodeParse, ErrAlloc, ErrJvmtiOp, ErrJniOp}
      ensures cls !in classCache.Contents ==> r == ErrBytecodeParse
      ensures r == Ok ==> cls in classCache.Contents && redefined.Some?
                          && PatchedFromPristine(classCache.Contents[cls], Targets(Records(cls)), redefined.value)
      ensures r == Ok ==> registered == Some(Natives(Records(cls)))
      ensures r == ErrJniOp ==> cls in classCache.Contents && redefined.Some?
                                && PatchedFromPristine(classCache.Contents[cls], Targets(Records(cls)), redefined.value)
    {
      registered := None;
      var cached := CaptureClass(clazz, cls);
      if cached.None? {
        return ErrBytecodeParse, None, registered;
      }
      var bytes;
      r, bytes := Rebuild(cached.value, cls);
      if r != Ok {
        return r, None, registered;
      }
      redefined := bytes;
      var ok := jvm.RedefineClass(clazz, bytes.value);
      if !ok {
        return ErrJvmtiOp, redefined, registered;
      }
      r, registered := ReregisterClassNatives(cls, clazz);
    }

    /**
     * jnihook.c:361-380 and 576-596: the declaring class, the class name and
     * the method's name and descriptor, as the VM reports them for
     * `methodId`; None when a query or a copy fails.
     */
    method ResolveMethod(methodId: Handle) returns (res: Option<Resolution>)
      requires Valid() && initialized
      ensures res.Some? ==> Resolves(jvm, methodId, res.value)
      ensures res.Some? ==> NUL !in res.value.className && NUL !in res.value.methodName && NUL !in res.value.signature
    {
      var declaring := jvm.MethodDeclaringClass(methodId);
      if declaring.None? {
        return None;
      }
      var clazz := declaring.value;
      var cls := GetClassName(jvm, clazz);
      var reportedName := jvm.MethodName(methodId);
      var name := GetMethodString(reportedName);
      var reportedSig := jvm.MethodSignature(methodId);
      var sig := GetMethodString(reportedSig);
      if cls.None? || name.None? || sig.None? {
        return None;
      }
      res := Some(Resolution(clazz, cls.value, name.value, sig.value));
    }

    /**
     * jnihook.c:398-548, once the key is known to be free: create the
     * record (ALLOC on failure), store it, install the patched class, and
     * remove the key again when installing fails.
     */
    method InsertAndInstall(clazz: Handle, cls: string, name: string, sig: string, flags: int,
                            hookFunction: Handle, methodId: Handle, k: string)
      returns (r: Status, ghost redefined: Option<seq<byte>>, ghost registered: Option<seq<NativeMethod>>)
      requires Valid() && initialized && NUL !in cls && NUL !in name && NUL !in sig && NUL !in k
      requires k !in hooks.Contents
      modifies hooks.Repr(), classCache.Repr()
      ensures Valid()
      ensures FirstCaptureWins(old(classCache.Contents), classCache.Contents, cls)
      ensures r in {Ok, ErrAlloc, ErrBytecodeParse, ErrJvmtiOp, ErrJniOp}
      ensures r != Ok ==> hooks.Contents == old(hooks.Contents)
      ensures r == Ok ==> hooks.Contents == old(hooks.Contents)
                          || (k in hooks.Contents && hooks.Contents == old(hooks.Contents)[k := hooks.Contents[k]])
      ensures r == Ok && k in hooks.Contents ==>
                var e := hooks.Contents[k];
                && fresh(e) && e.className == cls && e.methodName == name && e.signature == sig
                && e.accessFlags == flags && e.hookFunction == hookFunction && e.originalMethod == methodId
                && TargetOf(e) in Targets(Records(cls))
      ensures r == Ok ==> cls in classCache.Contents && redefined.Some?
                          && PatchedFromPristine(classCache.Contents[cls], Targets(Records(cls)), redefined.value)
      ensures r == Ok ==> registered == Some(Natives(Records(cls)))
      ensures r == ErrJniOp ==> redefined.Some?
    {
      redefined, registered := None, None;
      var allocOk := Allocates();
      var entry := HookEntryCreate(cls, name, sig, flags, hookFunction, methodId, allocOk);
      if entry == null {
        return ErrAlloc, redefined, registered;
      }
      CStrOfPlain(cls);
      CStrOfPlain(name);
      CStrOfPlain(sig);
      CStrOfPlain(k);
      var putOk := Allocates();
      var _ := hooks.Put(Some(k), entry, putOk);
      r, redefined, registered := Install(clazz, cls);
      if r != Ok {
        ghost var stored := hooks.Contents;
        var _ := hooks.Remove(Some(k));
        if k in stored {
          UndoInsert(old(hooks.Contents), k, entry);
        }
        return;
      }
      if k in hooks.Contents {
        StoredRecordIsTarget(hooks.buckets[..], hooks.Contents, hooks.count, cls, k);
      }
    }

    /**
     * jnihook_attach.  Guards: NOT_INIT, then INVALID_PARAM for a NULL
     * method or hook function, then GET_JNI; JVMTI_OP when the method
     * cannot be resolved (`res` None).  Once resolved, the key is that of
     * the method's class, name and descriptor, and HOOK_EXISTS is returned
     * exactly when the key is taken (nothing changes); ALLOC when the record
     * cannot be created.  The record, holding the method's names, its
     * modifiers (0 when the VM does not report them), the hook function and
     * the method, is stored before patching, and every later failure
     * removes it again, so on any failure the hooks table is as before.  On
     * OK the class was redefined with its pristine bytes patched for every
     * record of the class, the new record among them when it was stored,
     * and the natives of all those records were registered.
     */
    method Attach(methodId: Handle, hookFunction: Handle)
      returns (r: Status, original: Handle, ghost res: Option<Resolution>, ghost mods: Option<int>,
               ghost redefined: Option<seq<byte>>, ghost registered: Option<seq<NativeMethod>>)
      requires Valid()
      modifies Repr - {this}
      ensures Valid()
      ensures r == ErrNotInit <==> !initialized
      ensures r == ErrInvalidParam <==> initialized && (methodId == NULL || hookFunction == NULL)
      ensures r in {Ok, ErrNotInit, ErrInvalidParam, ErrGetJni, ErrJvmtiOp, ErrHookExists, ErrAlloc,
                    ErrBytecodeParse, ErrJniOp}
      ensures res.None? ==> r in {ErrNotInit, ErrInvalidParam, ErrGetJni, ErrJvmtiOp}
      ensures r == ErrGetJni ==> res.None?
      ensures initialized && methodId != NULL && hookFunction != NULL && res.None? ==> r in {ErrGetJni, ErrJvmtiOp}
      ensures initialized && res.None? ==>
                hooks.Contents == old(hooks.Contents) && classCache.Contents == old(classCache.Contents)
      ensures res.Some? ==> initialized && Resolves(jvm, methodId, res.value)
      ensures mods.Some? ==> res.Some? && methodId in jvm.modifiers && mods.value == jvm.modifiers[methodId]
      ensures res.Some? ==> (r == ErrHookExists <==> KeyOf(res.value) in old(hooks.Contents))
      ensures res.Some? ==> FirstCaptureWins(old(classCache.Contents), classCache.Contents, res.value.className)
      ensures initialized && r != Ok ==> hooks.Contents == old(hooks.Contents)
      ensures r == ErrHookExists ==> classCache.Contents == old(classCache.Contents)
      ensures r == Ok ==> res.Some? && original == methodId
      ensures r == Ok ==> var k := KeyOf(res.value);
                          hooks.Contents == old(hooks.Contents)
                          || (k in hooks.Contents && hooks.Contents == old(hooks.Contents)[k := hooks.Contents[k]])
      ensures r == Ok && KeyOf(res.value) in hooks.Contents ==>
                var e := hooks.Contents[KeyOf(res.value)];
                && fresh(e) && e.className == res.value.className
                && e.methodName == res.value.methodName && e.signature == res.value.signature
                && e.accessFlags == ModifiersOr0(mods) && e.hookFunction == hookFunction && e.originalMethod == methodId
                && TargetOf(e) in Targets(Records(res.value.className))
      ensures r == Ok ==> var cls := res.value.className;
                          && cls in classCache.Contents && redefined.Some?
                          && PatchedFromPristine(classCache.Contents[cls], Targets(Records(cls)), redefined.value)
                          && registered == Some(Natives(Records(cls)))
      ensures r == ErrJniOp ==> res.Some? && redefined.Some?
    {
      original, res, mods, redefined, registered := NULL, None, None, None, None;
      if !initialized {
        return ErrNotInit, original, res, mods, redefined, registered;
      }
      if methodId == NULL || hookFunction == NULL {
        return ErrInvalidParam, original, res, mods, redefined, registered;
      }
      var envOk := jvm.GetEnv();
      if !envOk {
        return ErrGetJni, original, res, mods, redefined, registered;
      }
      var resolved := ResolveMethod(methodId);
      var reportedMods := jvm.MethodModifiers(methodId);
      var flags := ModifiersOr0(reportedMods);
      if resolved.None? {
        return ErrJvmtiOp, original, res, mods, redefined, registered;
      }
      res, mods := resolved, reportedMods;
      var Resolution(clazz, cls, name, sig) := resolved.value;
      var k := KeyOf(resolved.value);
      CStrOfPlain(k);
      var existing := hooks.Get(Some(k));
      if existing.Some? {
        return ErrHookExists, original, res, mods, redefined, registered;
      }
      r, redefined, registered := InsertAndInstall(clazz, cls, name, sig, flags, hookFunction, methodId, k);
      if r == Ok {
        original := methodId;
      }
    }

    /**
     * jnihook_detach.  Guards: NOT_INIT, then INVALID_PARAM for a NULL
     * method; JVMTI_OP when the method cannot be resolved (`res` None).
     * Once resolved, HOOK_NOT_FOUND exactly when the method's key is absent
     * (nothing changes); otherwise the key is removed and, when the class
     * has cached bytes, the class is redefined with them, even if other
     * methods of the class are still hooked; the result is OK whether or
     * not that succeeds.  The class cache never changes.
     */
    method Detach(methodId: Handle) returns (r: Status, ghost res: Option<Resolution>, ghost restored: Option<seq<byte>>)
      requires Valid()
      modifies Repr - {this}
      ensures Valid()
      ensures r == ErrNotInit <==> !initialized
      ensures r == ErrInvalidParam <==> initialized && methodId == NULL
      ensures r in {Ok, ErrNotInit, ErrInvalidParam, ErrJvmtiOp, ErrHookNotFound}
      ensures res.None? ==> r in {ErrNotInit, ErrInvalidParam, ErrJvmtiOp}
      ensures initialized && methodId != NULL && res.None? ==> r == ErrJvmtiOp
      ensures initialized ==> classCache.Contents == old(classCache.Contents)
      ensures initialized && r != Ok ==> hooks.Contents == old(hooks.Contents)
      ensures res.Some? ==> initialized && Resolves(jvm, methodId, res.value)
      ensures res.Some? ==> r in {Ok, ErrHookNotFound} && (r == Ok <==> KeyOf(res.value) in old(hooks.Contents))
      ensures r == Ok ==> res.Some? && hooks.Contents == old(hooks.Contents) - {KeyOf(res.value)}
      ensures r == Ok ==> restored == (if res.value.className in classCache.Contents
                                       then Some(classCache.Contents[res.value.className].bytecode[..]) else None)
    {
      res, restored := None, None;
      if !initialized {
        return ErrNotInit, res, restored;
      }
      if methodId == NULL {
        return ErrInvalidParam, res, restored;
      }
      var resolved := ResolveMethod(methodId);
      if resolved.None? {
        return ErrJvmtiOp, res, restored;
      }
      res := resolved;
      var Resolution(clazz, cls, _, _) := resolved.value;
      var k := KeyOf(resolved.value);
      CStrOfPlain(k);
      CStrOfPlain(cls);
      var entry := hooks.Get(Some(k));
      if entry.None? {
        return ErrHookNotFound, res, restored;
      }
      var _ := hooks.Remove(Some(k));
      var cached := classCache.Get(Some(cls));
      if cached.Some? {
        restored := Some(cached.value.bytecode[..]);
        var _ := jvm.RedefineClass(clazz, cached.value.bytecode[..]);
      }
      r := Ok;
    }
  }
}
