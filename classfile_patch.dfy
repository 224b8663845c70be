/**
 * classfile_get_utf8 and classfile_patch_methods (src/classfile.c:266-333):
 * looking up Utf8 constants, and turning the methods named by a target
 * list into native methods without a Code attribute.
 */
module ClassfilePatch {
  import opened Wrappers
  import opened Bytes
  import opened CStrings
  import opened ClassfileFormat
  import opened ClassfileDecode

  /** hook_target_t: a method to hook, by name and descriptor. */
  datatype HookTarget = HookTarget(methodName: string, methodSignature: string)

  /** A pool entry holding a Utf8 constant whose text lies within the entry. */
  predicate Utf8Entry(e: seq<byte>) {
    |e| >= 3 && e[0] == CONSTANT_Utf8 && 3 + ReadU2(e, 1) <= |e|
  }

  /**
   * classfile_get_utf8: the text of the Utf8 constant at `index`; None for
   * index 0, an index past the pool, an empty slot or another kind of
   * constant.  (An entry too short for its own length field, which the
   * parser never produces, also gives None.)
   */
  function GetUtf8(pool: seq<Slot>, index: u16): (r: Option<string>)
    ensures r.Some? <==> 0 < index < |pool| && pool[index].Some? && Utf8Entry(pool[index].value)
    ensures r.Some? ==> |r.value| == ReadU2(pool[index].value, 1)
  {
    if index == 0 || index as int >= |pool| || pool[index].None? then None
    else
      var e := pool[index].value;
      if |e| < 3 || e[0] != CONSTANT_Utf8 then None
      else
        var length := ReadU2(e, 1);
        if 3 + length > |e| then None else Some(Chars(e[3..3 + length]))
  }

  /** A Utf8 constant as generate writes it reads back as its text. */
  lemma GetUtf8OfEntry(pool: seq<Slot>, index: u16, text: seq<byte>)
    requires 0 < index as int < |pool| && |text| < 0x1_0000
    requires pool[index] == Some([CONSTANT_Utf8] + U2(|text|) + text)
    ensures GetUtf8(pool, index) == Some(Chars(text))
  {
    var e := [CONSTANT_Utf8] + U2(|text|) + text;
    ReadU2OfU2(|text|, text);
    assert e[1..] == U2(|text|) + text;
    assert ReadU2(e, 1) == ReadU2(U2(|text|) + text, 0);
    assert e[3..3 + |text|] == text;
  }

  /** Every entry of well-formed slots is a well-formed entry. */
  lemma {:induction false} SlotsEntriesWellFormed(slots: seq<Slot>, k: nat)
    requires WellFormedSlots(slots) && k < |slots| && slots[k].Some?
    ensures WellFormedEntry(slots[k].value)
    decreases |slots|
  {
    if slots[0].Some? {
      if k > 0 {
        SlotsEntriesWellFormed(slots[1..], k - 1);
      }
    } else if k > 1 {
      SlotsEntriesWellFormed(slots[2..], k - 2);
    }
  }

  /**
   * In a pool the parser produced, every Utf8 slot resolves: the fallback
   * for a too-short entry never applies.
   */
  lemma GetUtf8OnWellFormedPool(pool: seq<Slot>, index: u16)
    requires WellFormedPool(pool) && 0 < index as int < |pool|
    requires pool[index].Some? && |pool[index].value| >= 1 && pool[index].value[0] == CONSTANT_Utf8
    ensures GetUtf8(pool, index).Some?
  {
    SlotsEntriesWellFormed(pool[1..], index as int - 1);
    var e := pool[index].value;
    assert pool[1..][index as int - 1] == pool[index];
    assert DecodeEntry(e, 0) == Some(e);
    assert PayloadSize(e, 0) == Some(2 + ReadU2(e, 1));
  }

  /** A target names the method with this name and descriptor (both strcmp calls return 0). */
  predicate Names(t: HookTarget, name: string, sig: string) {
    StrEq(name, t.methodName) && StrEq(sig, t.methodSignature)
  }

  /** Some target names the method. */
  predicate Named(targets: seq<HookTarget>, name: string, sig: string) {
    exists j :: 0 <= j < |targets| && Names(targets[j], name, sig)
  }

  /** The inner loop of classfile_patch_methods: is any target this method? */
  method ShouldHook(name: string, sig: string, targets: seq<HookTarget>) returns (hook: bool)
    ensures hook <==> Named(targets, name, sig)
  {
    var j := 0;
    while j < |targets|
      invariant 0 <= j <= |targets|
      invariant forall k :: 0 <= k < j ==> !Names(targets[k], name, sig)
    {
      if StrEq(name, targets[j].methodName) && StrEq(sig, targets[j].methodSignature) {
        return true;
      }
      j := j + 1;
    }
    return false;
  }

  /** The method is patched: its name and descriptor resolve and some target names them. */
  predicate Selected(pool: seq<Slot>, m: Member, targets: seq<HookTarget>) {
    var name := GetUtf8(pool, m.nameIndex);
    var sig := GetUtf8(pool, m.descriptorIndex);
    name.Some? && sig.Some? && Named(targets, name.value, sig.value)
  }

  /** An attribute whose name resolves to "Code" (as strcmp sees it). */
  predicate IsCode(pool: seq<Slot>, a: Attribute) {
    var name := GetUtf8(pool, a.nameIndex);
    name.Some? && StrEq(name.value, "Code")
  }

  /** The attributes without the Code attributes, in their order. */
  function StripCode(pool: seq<Slot>, attrs: seq<Attribute>): (r: seq<Attribute>)
    ensures |r| <= |attrs|
    decreases |attrs|
  {
    if attrs == [] then []
    else if IsCode(pool, attrs[0]) then StripCode(pool, attrs[1..])
    else [attrs[0]] + StripCode(pool, attrs[1..])
  }

  /** Exactly the attributes that are not Code survive. */
  lemma {:induction false} StripCodeKeepsOthers(pool: seq<Slot>, attrs: seq<Attribute>)
    ensures forall a :: a in StripCode(pool, attrs) <==> a in attrs && !IsCode(pool, a)
    decreases |attrs|
  {
    if attrs != [] {
      StripCodeKeepsOthers(pool, attrs[1..]);
      assert attrs == [attrs[0]] + attrs[1..];
    }
  }

  /** Stripping twice strips nothing more. */
  lemma {:induction false} StripCodeIdempotent(pool: seq<Slot>, attrs: seq<Attribute>)
    ensures StripCode(pool, StripCode(pool, attrs)) == StripCode(pool, attrs)
    decreases |attrs|
  {
    if attrs != [] {
      StripCodeIdempotent(pool, attrs[1..]);
      if !IsCode(pool, attrs[0]) {
        var r := [attrs[0]] + StripCode(pool, attrs[1..]);
        assert r[0] == attrs[0] && r[1..] == StripCode(pool, attrs[1..]);
      }
    }
  }

  /** Attributes without Code are left as they are. */
  lemma {:induction false} StripCodeNone(pool: seq<Slot>, attrs: seq<Attribute>)
    requires forall a <- attrs :: !IsCode(pool, a)
    ensures StripCode(pool, attrs) == attrs
    decreases |attrs|
  {
    if attrs != [] {
      StripCodeNone(pool, attrs[1..]);
      assert [attrs[0]] + attrs[1..] == attrs;
    }
  }

  /** `flags | ACC_NATIVE`. */
  function SetNative(flags: u16): (r: u16)
    ensures (r / ACC_NATIVE) % 2 == 1
    ensures r % ACC_NATIVE == flags % ACC_NATIVE && r / (2 * ACC_NATIVE) == flags / (2 * ACC_NATIVE)
  {
    if (flags / ACC_NATIVE) % 2 == 1 then flags else flags + ACC_NATIVE
  }

  /** One method after patching: native and without Code when selected, unchanged otherwise. */
  function PatchedMember(pool: seq<Slot>, m: Member, targets: seq<HookTarget>): (r: Member)
    ensures r.nameIndex == m.nameIndex && r.descriptorIndex == m.descriptorIndex
    ensures !Selected(pool, m, targets) ==> r == m
  {
    if Selected(pool, m, targets) then
      m.(accessFlags := SetNative(m.accessFlags), attributes := StripCode(pool, m.attributes))
    else m
  }

  /**
   * A selected method comes out with ACC_NATIVE set and its other flag bits
   * kept, with no Code attribute left and every other attribute kept.
   */
  lemma PatchedMemberNative(pool: seq<Slot>, m: Member, targets: seq<HookTarget>)
    requires Selected(pool, m, targets)
    ensures var r := PatchedMember(pool, m, targets);
            && (r.accessFlags / ACC_NATIVE) % 2 == 1
            && r.accessFlags % ACC_NATIVE == m.accessFlags % ACC_NATIVE
            && r.accessFlags / (2 * ACC_NATIVE) == m.accessFlags / (2 * ACC_NATIVE)
            && (forall a <- r.attributes :: !IsCode(pool, a))
            && (forall a <- m.attributes :: !IsCode(pool, a) ==> a in r.attributes)
  {
    StripCodeKeepsOthers(pool, m.attributes);
  }

  /** What classfile_patch_methods leaves of `cf`: only the selected methods change. */
  function Patched(cf: ClassFile, targets: seq<HookTarget>): (r: ClassFile)
    ensures r.(methods := cf.methods) == cf
    ensures |r.methods| == |cf.methods|
    ensures forall i :: 0 <= i < |cf.methods| ==> r.methods[i] == PatchedMember(cf.constantPool, cf.methods[i], targets)
  {
    cf.(methods := seq(|cf.methods|, i requires 0 <= i < |cf.methods| => PatchedMember(cf.constantPool, cf.methods[i], targets)))
  }

  /** Patching with the same targets again changes nothing more. */
  lemma PatchIdempotent(cf: ClassFile, targets: seq<HookTarget>)
    ensures Patched(Patched(cf, targets), targets) == Patched(cf, targets)
  {
    var p := Patched(cf, targets);
    forall i | 0 <= i < |cf.methods|
      ensures PatchedMember(cf.constantPool, p.methods[i], targets) == p.methods[i]
    {
      var m := cf.methods[i];
      if Selected(cf.constantPool, m, targets) {
        StripCodeIdempotent(cf.constantPool, m.attributes);
      }
    }
    assert Patched(p, targets).methods == p.methods;
  }

  lemma StripCodeFits(pool: seq<Slot>, attrs: seq<Attribute>)
    requires AllAttributesFit(attrs)
    ensures AllAttributesFit(StripCode(pool, attrs))
  {
    StripCodeKeepsOthers(pool, attrs);
  }

  /** A patched class still fits the format, and a parsed one stays well formed. */
  lemma PatchedFits(cf: ClassFile, targets: seq<HookTarget>)
    requires Fits(cf)
    ensures Fits(Patched(cf, targets))
    ensures WellFormed(cf) ==> WellFormed(Patched(cf, targets))
  {
    var p := Patched(cf, targets);
    forall m | m in p.methods
      ensures MemberFits(m)
    {
      var i :| 0 <= i < |p.methods| && p.methods[i] == m;
      assert MemberFits(cf.methods[i]);
      StripCodeFits(cf.constantPool, cf.methods[i].attributes);
    }
  }

  /**
   * The shift loop of classfile_patch_methods: the attributes after `j`
   * move down by one over attribute `j`; the last slot keeps its old value.
   */
  method ShiftDown(attrs: array<Attribute>, j: nat, count: nat)
    requires j < count <= attrs.Length
    modifies attrs
    ensures attrs[..j] == old(attrs[..j])
    ensures attrs[j..count - 1] == old(attrs[j + 1..count])
    ensures attrs[count - 1..] == old(attrs[count - 1..])
  {
    var k := j;
    while k < count - 1
      invariant j <= k <= count - 1
      invariant attrs[..j] == old(attrs[..j])
      invariant attrs[j..k] == old(attrs[j + 1..k + 1])
      invariant attrs[k..] == old(attrs[k..])
    {
      attrs[k] := attrs[k + 1];
      k := k + 1;
    }
  }

  /** A Code attribute at `j` contributes nothing to the stripped suffix. */
  lemma StripSkip(pool: seq<Slot>, s: seq<Attribute>, j: nat, n: nat)
    requires j < n <= |s| && IsCode(pool, s[j])
    ensures StripCode(pool, s[j..n]) == StripCode(pool, s[j + 1..n])
  {
    assert s[j..n][1..] == s[j + 1..n];
  }

  /** Any other attribute at `j` heads the stripped suffix. */
  lemma StripKeep(pool: seq<Slot>, s: seq<Attribute>, j: nat, n: nat)
    requires j < n <= |s| && !IsCode(pool, s[j])
    ensures StripCode(pool, s[j..n]) == [s[j]] + StripCode(pool, s[j + 1..n])
  {
    assert s[j..n][1..] == s[j + 1..n];
  }

  /**
   * One iteration of the Code-removal loop: a Code attribute at `j` is
   * shifted out and the count drops by one; any other attribute is kept and
   * `j` moves past it.  Either way the stripped result is unchanged.
   */
  method StripStep(pool: seq<Slot>, attrs: array<Attribute>, ghost goal: seq<Attribute>, j: nat, n: nat)
    returns (j': nat, n': nat)
    requires j < n <= attrs.Length
    requires goal == attrs[..j] + StripCode(pool, attrs[j..n])
    modifies attrs
    ensures j <= j' <= n' <= n && n' - j' == n - j - 1
    ensures goal == attrs[..j'] + StripCode(pool, attrs[j'..n'])
  {
    ghost var s := attrs[..];
    assert attrs[..j] == s[..j] && attrs[j..n] == s[j..n];
    if IsCode(pool, attrs[j]) {
      StripSkip(pool, s, j, n);
      ShiftDown(attrs, j, n);
      assert attrs[..j] == s[..j] && attrs[j..n - 1] == s[j + 1..n];
      return j, n - 1;
    } else {
      StripKeep(pool, s, j, n);
      assert attrs[..j + 1] == s[..j] + [s[j]] && attrs[j + 1..n] == s[j + 1..n];
      return j + 1, n;
    }
  }

  /**
   * The Code-removal loop of classfile_patch_methods, in place: every
   * attribute named "Code" is shifted out and the count decremented; the
   * others keep their order.
   */
  method RemoveCodeAttributes(pool: seq<Slot>, attrs: array<Attribute>, count: nat) returns (newCount: nat)
    requires count <= attrs.Length
    modifies attrs
    ensures newCount <= count
    ensures attrs[..newCount] == StripCode(pool, old(attrs[..count]))
  {
    ghost var goal := StripCode(pool, attrs[..count]);
    newCount := count;
    var j := 0;
    assert attrs[..count] == attrs[..0] + attrs[0..count];
    while j < newCount
      invariant 0 <= j <= newCount <= count <= attrs.Length
      invariant goal == attrs[..j] + StripCode(pool, attrs[j..newCount])
      decreases newCount - j
    {
      j, newCount := StripStep(pool, attrs, goal, j, newCount);
    }
    assert attrs[..newCount] == attrs[..j] + StripCode(pool, attrs[j..newCount]);
  }

  /** The loop body of classfile_patch_methods for one method. */
  method PatchMethod(pool: seq<Slot>, m: Member, targets: seq<HookTarget>) returns (r: Member)
    ensures r == PatchedMember(pool, m, targets)
  {
    var name := GetUtf8(pool, m.nameIndex);
    var sig := GetUtf8(pool, m.descriptorIndex);
    if name.None? || sig.None? {
      return m;
    }
    var hook := ShouldHook(name.value, sig.value, targets);
    if !hook {
      return m;
    }
    var attrs := new Attribute[|m.attributes|](k requires 0 <= k < |m.attributes| => m.attributes[k]);
    assert attrs[..attrs.Length] == m.attributes;
    var count := RemoveCodeAttributes(pool, attrs, attrs.Length);
    return m.(accessFlags := SetNative(m.accessFlags), attributes := attrs[..count]);
  }

  /**
   * classfile_patch_methods: 0 (and nothing changed) when the class or the
   * target list is NULL; otherwise every method whose name and descriptor
   * resolve to Utf8 and equal some target's is made native and loses its
   * Code attributes, and the result is 1.  The method table is an array
   * updated in place, as is each patched method's attribute array.
   */
  method ClassfilePatchMethods(cf: Option<ClassFile>, targets: Option<seq<HookTarget>>) returns (result: int, out: Option<ClassFile>)
    ensures result == (if cf.Some? && targets.Some? then 1 else 0)
    ensures out == if result == 1 then Some(Patched(cf.value, targets.value)) else cf
  {
    if cf.None? || targets.None? {
      return 0, cf;
    }
    var c := cf.value;
    var pool := c.constantPool;
    var methods := new Member[|c.methods|](i requires 0 <= i < |c.methods| => c.methods[i]);
    ghost var want := Patched(c, targets.value).methods;
    var i := 0;
    while i < methods.Length
      invariant 0 <= i <= methods.Length == |c.methods| == |want|
      invariant methods[..i] == want[..i]
      invariant methods[i..] == c.methods[i..]
    {
      assert methods[i] == c.methods[i];
      var m := PatchMethod(pool, methods[i], targets.value);
      assert m == want[i];
      methods[i] := m;
      i := i + 1;
    }
    assert methods[..] == want;
    return 1, Some(c.(methods := methods[..]));
  }
}
