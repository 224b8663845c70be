/**
 * The registry records of src/hook_manager.c: one hook entry per hooked
 * method and one cache record per class whose pristine bytes were captured.
 * Both are written once by their constructor and never changed, so their
 * fields are constants.  An allocation outcome (calloc, malloc, strdup
 * returning NULL) is a parameter.
 */
module HookManager {
  import opened Bytes
  import opened CStrings

  /** An opaque JVM handle (jmethodID, jclass) or a native function pointer. */
  type Handle = nat

  /** hook_entry_t: the hooked method, its replacement and the original method id. */
  class HookEntry {
    const className: string
    const methodName: string
    const signature: string
    const accessFlags: int
    const hookFunction: Handle
    const originalMethod: Handle

    /** The successful hook_entry_create: each string is a strdup copy. */
    constructor (className: string, methodName: string, signature: string,
                 accessFlags: int, hookFunction: Handle, originalMethod: Handle)
      ensures this.className == CStr(className)
      ensures this.methodName == CStr(methodName)
      ensures this.signature == CStr(signature)
      ensures this.accessFlags == accessFlags
      ensures this.hookFunction == hookFunction && this.originalMethod == originalMethod
    {
      this.className := CStr(className);
      this.methodName := CStr(methodName);
      this.signature := CStr(signature);
      this.accessFlags := accessFlags;
      this.hookFunction := hookFunction;
      this.originalMethod := originalMethod;
    }
  }

  /**
   * hook_entry_create: NULL when the record or any of the three string
   * copies cannot be allocated (`allocOk` false); otherwise a fresh record.
   */
  method HookEntryCreate(className: string, methodName: string, signature: string,
                         accessFlags: int, hookFunction: Handle, originalMethod: Handle,
                         allocOk: bool) returns (e: HookEntry?)
    ensures allocOk <==> e != null
    ensures e != null ==> fresh(e)
    ensures e != null ==> e.className == CStr(className) && e.methodName == CStr(methodName)
                          && e.signature == CStr(signature) && e.accessFlags == accessFlags
                          && e.hookFunction == hookFunction && e.originalMethod == originalMethod
  {
    if !allocOk {
      return null;
    }
    e := new HookEntry(className, methodName, signature, accessFlags, hookFunction, originalMethod);
  }

  /** class_cache_t: a class's name and a private copy of its pristine class file bytes. */
  class ClassCache {
    const className: string
    const bytecode: array<byte>
    const bytecodeLen: nat
    const originalClass: Handle

    /** The successful class_cache_create: `len` bytes copied into a fresh block. */
    constructor (className: string, data: seq<byte>, len: nat, originalClass: Handle)
      requires len <= |data|
      ensures this.className == CStr(className)
      ensures fresh(bytecode) && bytecode[..] == data[..len] && bytecodeLen == len
      ensures this.originalClass == originalClass
    {
      this.className := CStr(className);
      bytecode := new byte[len](i requires 0 <= i < len => data[i]);
      bytecodeLen := len;
      this.originalClass := originalClass;
    }
  }

  /**
   * class_cache_create: NULL when the record, the name copy or the byte
   * block cannot be allocated; otherwise a byte-for-byte copy of the first
   * `len` bytes of `data`.
   */
  method ClassCacheCreate(className: string, data: seq<byte>, len: nat, originalClass: Handle,
                          allocOk: bool) returns (c: ClassCache?)
    requires len <= |data|
    ensures allocOk <==> c != null
    ensures c != null ==> fresh(c) && fresh(c.bytecode)
    ensures c != null ==> c.className == CStr(className) && c.bytecode[..] == data[..len]
                          && c.bytecodeLen == len && c.originalClass == originalClass
  {
    if !allocOk {
      return null;
    }
    c := new ClassCache(className, data, len, originalClass);
  }
}
