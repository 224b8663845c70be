/**
 * The pure helpers of src/jnihook.c: result codes and their messages, the
 * registry key of a hooked method, and the class name taken out of a JVM
 * class signature.
 */
module JniHookStrings {
  import opened Wrappers
  import opened CStrings

  /** jnihook_result_t, in declaration order (include/jnihook.h:19-35). */
  datatype Status =
    | Ok
    | ErrAlreadyInit
    | ErrNotInit
    | ErrGetJvmti
    | ErrAddCaps
    | ErrSetCallbacks
    | ErrGetJni
    | ErrAlloc
    | ErrJvmtiOp
    | ErrJniOp
    | ErrInvalidParam
    | ErrHookExists
    | ErrHookNotFound
    | ErrBytecodeParse
    | ErrThreadOp

  /** The enumerator's value: OK is 0 and each later one is one more. */
  function Code(s: Status): int {
    match s
    case Ok => 0
    case ErrAlreadyInit => 1
    case ErrNotInit => 2
    case ErrGetJvmti => 3
    case ErrAddCaps => 4
    case ErrSetCallbacks => 5
    case ErrGetJni => 6
    case ErrAlloc => 7
    case ErrJvmtiOp => 8
    case ErrJniOp => 9
    case ErrInvalidParam => 10
    case ErrHookExists => 11
    case ErrHookNotFound => 12
    case ErrBytecodeParse => 13
    case ErrThreadOp => 14
  }

  /** The result a value stands for, if any. */
  function FromCode(result: int): (s: Option<Status>)
    ensures s.Some? <==> 0 <= result <= 14
    ensures s.Some? ==> Code(s.value) == result
  {
    if result == 0 then Some(Ok)
    else if result == 1 then Some(ErrAlreadyInit)
    else if result == 2 then Some(ErrNotInit)
    else if result == 3 then Some(ErrGetJvmti)
    else if result == 4 then Some(ErrAddCaps)
    else if result == 5 then Some(ErrSetCallbacks)
    else if result == 6 then Some(ErrGetJni)
    else if result == 7 then Some(ErrAlloc)
    else if result == 8 then Some(ErrJvmtiOp)
    else if result == 9 then Some(ErrJniOp)
    else if result == 10 then Some(ErrInvalidParam)
    else if result == 11 then Some(ErrHookExists)
    else if result == 12 then Some(ErrHookNotFound)
    else if result == 13 then Some(ErrBytecodeParse)
    else if result == 14 then Some(ErrThreadOp)
    else None
  }

  /** Each result is its own value and back: Code is one-to-one. */
  lemma CodeRoundTrip(s: Status)
    ensures 0 <= Code(s) <= 14 && FromCode(Code(s)) == Some(s)
  {
  }

  const UNKNOWN_ERROR: string := "Unknown error"

  /** The message of each result. */
  function Message(s: Status): (msg: string)
    ensures msg != UNKNOWN_ERROR
  {
    match s
    case Ok => "Success"
    case ErrAlreadyInit => "Already initialized"
    case ErrNotInit => "Not initialized"
    case ErrGetJvmti => "Failed to get JVMTI environment"
    case ErrAddCaps => "Failed to add JVMTI capabilities"
    case ErrSetCallbacks => "Failed to set callbacks"
    case ErrGetJni => "Failed to get JNI environment"
    case ErrAlloc => "Memory allocation failed"
    case ErrJvmtiOp => "JVMTI operation failed"
    case ErrJniOp => "JNI operation failed"
    case ErrInvalidParam => "Invalid parameter"
    case ErrHookExists => "Hook already exists"
    case ErrHookNotFound => "Hook not found"
    case ErrBytecodeParse => "Bytecode parsing failed"
    case ErrThreadOp => "Thread operation failed"
  }

  /** jnihook_error_string: the message of a result value, "Unknown error" for any other value. */
  function ErrorString(result: int): (msg: string)
    ensures msg == UNKNOWN_ERROR <==> !(0 <= result <= 14)
    ensures forall s: Status :: result == Code(s) ==> msg == Message(s)
  {
    match FromCode(result)
    case None => UNKNOWN_ERROR
    case Some(s) => CodeRoundTrip(s); Message(s)
  }

  /** The 512-byte buffer create_hook_key formats into. */
  const KEY_BUFFER_SIZE: nat := 512

  /** snprintf into `size` bytes: at most size - 1 chars survive before the terminating NUL. */
  function Truncate(s: string, size: nat): (r: string)
    requires size > 0
    ensures |r| <= size - 1 && |r| <= |s| && r == s[..|r|]
    ensures |s| < size ==> r == s
  {
    if |s| < size then s else s[..size - 1]
  }

  /** The full text create_hook_key formats: "<class>::<method><signature>". */
  function KeyText(className: string, methodName: string, signature: string): string {
    CStr(className) + "::" + CStr(methodName) + CStr(signature)
  }

  /** create_hook_key as jnihook_attach and jnihook_detach call it: KeyText cut to 511 chars. */
  function HookKey(className: string, methodName: string, signature: string): (k: string)
    ensures |k| < KEY_BUFFER_SIZE
    ensures NUL !in k
  {
    Truncate(KeyText(className, methodName, signature), KEY_BUFFER_SIZE)
  }

  /** If the first `x` of two joined strings sits right after their first parts, the parts agree. */
  lemma SplitAtFirst(a1: string, b1: string, a2: string, b2: string, x: char)
    requires x !in a1 && x !in a2
    requires |b1| > 0 && b1[0] == x && |b2| > 0 && b2[0] == x
    requires a1 + b1 == a2 + b2
    ensures a1 == a2 && b1 == b2
  {
    var s := a1 + b1;
    assert forall i | 0 <= i < |a1| :: s[i] == a1[i] != x;
    assert forall i | 0 <= i < |a2| :: s[i] == a2[i] != x;
    assert s[|a1|] == x && s[|a2|] == x;
    assert |a1| == |a2|;
    assert a1 == s[..|a1|] && a2 == s[..|a2|];
    assert b1 == s[|a1|..] && b2 == s[|a2|..];
  }

  /** The joined text "<class>::<method><descriptor>" splits back into its three parts. */
  lemma KeyTextSplits(c1: string, m1: string, s1: string, c2: string, m2: string, s2: string)
    requires ':' !in c1 && ':' !in c2 && '(' !in m1 && '(' !in m2
    requires |s1| > 0 && s1[0] == '(' && |s2| > 0 && s2[0] == '('
    requires c1 + "::" + m1 + s1 == c2 + "::" + m2 + s2
    ensures c1 == c2 && m1 == m2 && s1 == s2
  {
    var t1, t2 := m1 + s1, m2 + s2;
    assert c1 + "::" + m1 + s1 == c1 + ("::" + t1);
    assert c2 + "::" + m2 + s2 == c2 + ("::" + t2);
    SplitAtFirst(c1, "::" + t1, c2, "::" + t2, ':');
    assert t1 == ("::" + t1)[2..] == ("::" + t2)[2..] == t2;
    SplitAtFirst(m1, s1, m2, s2, '(');
  }

  /**
   * While the key is not cut, it names one method: given class names without
   * ':' and method names without '(' (the descriptor starts with '('), equal
   * keys mean equal class name, method name and descriptor.
   */
  lemma HookKeyInjective(c1: string, m1: string, s1: string, c2: string, m2: string, s2: string)
    requires |KeyText(c1, m1, s1)| < KEY_BUFFER_SIZE && |KeyText(c2, m2, s2)| < KEY_BUFFER_SIZE
    requires ':' !in CStr(c1) && ':' !in CStr(c2) && '(' !in CStr(m1) && '(' !in CStr(m2)
    requires |CStr(s1)| > 0 && CStr(s1)[0] == '(' && |CStr(s2)| > 0 && CStr(s2)[0] == '('
    requires HookKey(c1, m1, s1) == HookKey(c2, m2, s2)
    ensures CStr(c1) == CStr(c2) && CStr(m1) == CStr(m2) && CStr(s1) == CStr(s2)
  {
    assert KeyText(c1, m1, s1) == KeyText(c2, m2, s2);
    KeyTextSplits(CStr(c1), CStr(m1), CStr(s1), CStr(c2), CStr(m2), CStr(s2));
  }

  /**
   * Past 511 chars the key stops naming a method: two methods of a class
   * with a 509-char name get the same key, so attaching the second reports
   * HOOK_EXISTS and detaching either removes the other's record.
   */
  lemma HookKeyCollides()
    ensures var c := seq(509, _ => 'a');
            HookKey(c, "run", "()V") == HookKey(c, "stop", "()V")
  {
    var c := seq(509, _ => 'a');
    CStrOfPlain(c);
    CStrOfPlain("run");
    CStrOfPlain("stop");
    CStrOfPlain("()V");
    assert KeyText(c, "run", "()V")[..511] == c + "::" == KeyText(c, "stop", "()V")[..511];
  }

  /**
   * The class file format lets ':' into class and method names, and then
   * the "::" separator is ambiguous: class "a:" with method "b" and class
   * "a" with method ":b" get the same key, short as it is.
   */
  lemma HookKeyAmbiguous()
    ensures HookKey("a:", "b", "()V") == HookKey("a", ":b", "()V")
  {
    CStrOfPlain("a:");
    CStrOfPlain("a");
    CStrOfPlain("b");
    CStrOfPlain(":b");
    CStrOfPlain("()V");
    assert KeyText("a:", "b", "()V") == "a:::b()V" == KeyText("a", ":b", "()V");
  }

  /**
   * get_class_name without the JVMTI call: the signature "L<name>;" gives
   * <name>; a signature shorter than 3 chars, or not starting with 'L' and
   * ending with ';', gives NULL.
   */
  function ClassNameOfSignature(sig: string): (r: Option<string>)
    ensures r.Some? <==> var s := CStr(sig); |s| >= 3 && s[0] == 'L' && s[|s| - 1] == ';'
    ensures r.Some? ==> CStr(sig) == "L" + r.value + ";" && NUL !in r.value
  {
    var s := CStr(sig);
    if |s| < 3 || s[0] != 'L' || s[|s| - 1] != ';' then None
    else
      assert s == "L" + s[1..|s| - 1] + ";";
      Some(s[1..|s| - 1])
  }

  /** Wrapping a non-empty class name as "L<name>;" and stripping it again gives the name back. */
  lemma ClassNameOfDescriptor(name: string)
    requires |name| >= 1 && NUL !in name
    ensures ClassNameOfSignature("L" + name + ";") == Some(name)
  {
    var sig := "L" + name + ";";
    assert NUL !in sig by {
      assert forall i | 0 <= i < |sig| :: sig[i] == 'L' || sig[i] == ';' || sig[i] in name;
    }
    CStrOfPlain(sig);
    assert sig[1..|sig| - 1] == name;
  }
}
