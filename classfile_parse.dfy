/**
 * classfile_parse and its helpers (src/classfile.c:19-213) as the loops the
 * C code runs: a cursor `p` that walks the input and arrays that are filled
 * one element per iteration.  Each method is proved to compute exactly the
 * corresponding decoder of ClassfileDecode.
 *
 * The C code never checks the cursor against `len` after the 10-byte
 * header; where it would read past the end of the input, these methods
 * fail instead.  Allocation failures (calloc/malloc returning NULL) are not
 * modelled: every allocation succeeds.
 */
module ClassfileParse {
  import opened Wrappers
  import opened Bytes
  import opened ClassfileFormat
  import opened ClassfileDecode

  /** `pre` in front of the elements of a decoding result; failure stays failure. */
  function Prefixed<T>(pre: seq<T>, r: Option<(seq<T>, nat)>): (q: Option<(seq<T>, nat)>)
    ensures q.Some? <==> r.Some?
    ensures q.Some? ==> |q.value.0| == |pre| + |r.value.0| && q.value.1 == r.value.1
  {
    match r
    case None => None
    case Some((rest, end)) => Some((pre + rest, end))
  }

  lemma PrefixedNothing<T>(r: Option<(seq<T>, nat)>)
    ensures Prefixed([], r) == r
  {
    if r.Some? {
      assert [] + r.value.0 == r.value.0;
    }
  }

  lemma PrefixedAppend<T>(a: seq<T>, b: seq<T>, r: Option<(seq<T>, nat)>)
    ensures Prefixed(a, Prefixed(b, r)) == Prefixed(a + b, r)
  {
    if r.Some? {
      assert a + (b + r.value.0) == (a + b) + r.value.0;
    }
  }

  /** Two decoding steps in a row: the prefixes join. */
  lemma PrefixedChain<T>(x: Option<(seq<T>, nat)>, y: Option<(seq<T>, nat)>, z: Option<(seq<T>, nat)>,
                         a: seq<T>, b: seq<T>)
    requires x == Prefixed(a, y) && y == Prefixed(b, z)
    ensures x == Prefixed(a + b, z)
  {
    PrefixedAppend(a, b, z);
  }

  /* ---------- parse_constant_pool (src/classfile.c:19-78) ---------- */

  /**
   * The body of the loop of parse_constant_pool: the tag at `p`, then the
   * payload the switch sizes for it; an unknown tag fails.
   */
  method ReadEntry(data: seq<byte>, p: nat) returns (r: Option<seq<byte>>)
    ensures r == DecodeEntry(data, p)
  {
    if p >= |data| {
      return None;
    }
    var size := PayloadSize(data, p);
    if size.None? || p + 1 + size.value > |data| {
      return None;
    }
    return Some(data[p..p + 1 + size.value]);
  }

  /** Decoding `m` slots: the slots of the first entry, then the `m'` slots after it. */
  lemma SlotsUnfold(data: seq<byte>, p: nat, p': nat, m: nat, m': nat, e: seq<byte>)
    requires DecodeEntry(data, p) == Some(e) && |e| >= 1 && p' == p + |e| <= |data| && m == |Lead(e)| + m'
    ensures DecodeSlots(data, p, m) == Prefixed(Lead(e), DecodeSlots(data, p', m'))
  {
    var r := DecodeSlots(data, p', m');
    if r.Some? {
      SlotsStep(data, p, p', m, m', e, r.value.0, r.value.1);
    }
  }

  /** One more entry read: the loop invariant of ParseConstantPool moves past its slots. */
  lemma PoolAdvance(data: seq<byte>, pos: nat, count: nat, before: seq<Slot>, p: nat, i: nat, e: seq<byte>,
                    p': nat, i': nat)
    requires 1 <= i && pos <= |data| && p + |e| <= |data| && DecodeEntry(data, p) == Some(e) && |e| >= 1
    requires p' == p + |e| && i' == i + |Lead(e)| && i' <= count
    requires DecodeSlots(data, pos, count - 1) == Prefixed(before, DecodeSlots(data, p, count - i))
    ensures DecodeSlots(data, pos, count - 1) == Prefixed(before + Lead(e), DecodeSlots(data, p', count - i'))
  {
    SlotsUnfold(data, p, p', count - i, count - i', e);
    PrefixedChain(DecodeSlots(data, pos, count - 1), DecodeSlots(data, p, count - i),
                  DecodeSlots(data, p', count - i'), before, Lead(e));
  }

  /** Where the entry at `p` is unreadable, or is a Long or Double left only one slot, the pool fails. */
  lemma PoolFails(data: seq<byte>, pos: nat, count: nat, before: seq<Slot>, p: nat, i: nat)
    requires 1 <= i < count && pos <= |data| && p <= |data|
    requires DecodeSlots(data, pos, count - 1) == Prefixed(before, DecodeSlots(data, p, count - i))
    requires DecodeEntry(data, p).None? || (IsWide(DecodeEntry(data, p).value[0]) && i + 1 >= count)
    ensures DecodeSlots(data, pos, count - 1).None?
  {
  }

  /** Once every slot is read, the pool is the empty slot 0 followed by them. */
  lemma PoolDone(data: seq<byte>, pos: nat, count: u16, slots: seq<Slot>, p: nat)
    requires 1 <= count && pos <= p <= |data|
    requires DecodeSlots(data, pos, count - 1) == Prefixed(slots, DecodeSlots(data, p, 0))
    ensures DecodePool(data, pos, count) == Some(([None] + slots, p))
  {
    assert DecodeSlots(data, p, 0) == Some(([], p));
    assert slots + [] == slots;
  }

  /**
   * The store at the end of the loop of parse_constant_pool: a Long or
   * Double first bumps the index, leaving its first slot as calloc left it.
   * Returns the index of the next slot to fill.
   */
  method StoreEntry(pool: array<Slot>, i: nat, e: seq<byte>) returns (next: nat)
    requires 1 <= i < pool.Length && |e| >= 1 && i + |Lead(e)| <= pool.Length
    requires forall k :: i <= k < pool.Length ==> pool[k].None?
    modifies pool
    ensures next == i + |Lead(e)|
    ensures pool[0] == old(pool[0]) && pool[1..next] == old(pool[1..i]) + Lead(e)
    ensures forall k :: next <= k < pool.Length ==> pool[k].None?
  {
    var j := i;
    if IsWide(e[0]) {
      j := j + 1;
    }
    pool[j] := Some(e);
    next := j + 1;
    assert pool[1..next] == old(pool[1..i]) + Lead(e);
  }

  /**
   * One iteration of the loop of parse_constant_pool: read the entry at `p`
   * and store it.  Fails (`ok` false) where the whole pool fails to decode.
   */
  method PoolStep(data: seq<byte>, pos: nat, count: u16, pool: array<Slot>, p: nat, i: nat)
    returns (ok: bool, i': nat, p': nat)
    requires pool.Length == count as int && 1 <= i < count && pos <= p <= |data|
    requires forall k :: i <= k < count ==> pool[k].None?
    requires DecodeSlots(data, pos, count - 1) == Prefixed(pool[1..i], DecodeSlots(data, p, count - i))
    modifies pool
    ensures !ok ==> DecodeSlots(data, pos, count - 1).None?
    ensures ok ==> i < i' <= count && p <= p' <= |data| && pool[0] == old(pool[0])
    ensures ok ==> forall k :: i' <= k < count ==> pool[k].None?
    ensures ok ==> DecodeSlots(data, pos, count - 1) == Prefixed(pool[1..i'], DecodeSlots(data, p', count - i'))
  {
    var entry := ReadEntry(data, p);
    if entry.None? || (IsWide(entry.value[0]) && i + 1 >= count) {
      PoolFails(data, pos, count as nat, pool[1..i], p, i);
      return false, i, p;
    }
    var e := entry.value;
    ghost var before := pool[1..i];
    i' := StoreEntry(pool, i, e);
    p' := p + |e|;
    PoolAdvance(data, pos, count as nat, before, p, i, e, p', i');
    ok := true;
  }

  /**
   * parse_constant_pool: slots 1 .. count-1 of a zeroed array are filled
   * in order.  A Long or Double first bumps the index, so its bytes land in
   * the second of its two slots and the first stays empty.  An unknown tag
   * fails.  A Long or Double in the last slot would make the C code store
   * past the end of the array; the model fails there instead.
   */
  method ParseConstantPool(data: seq<byte>, pos: nat, count: u16) returns (r: Option<(seq<Slot>, nat)>)
    requires pos <= |data|
    ensures r == DecodePool(data, pos, count)
  {
    if count == 0 {
      return Some(([], pos));
    }
    var pool := new Slot[count](_ => None);
    var p := pos;
    var i := 1;
    PrefixedNothing(DecodeSlots(data, pos, count - 1));
    while i < count
      invariant 1 <= i <= count && pos <= p <= |data|
      invariant forall k :: i <= k < count ==> pool[k].None?
      invariant pool[0].None?
      invariant DecodeSlots(data, pos, count - 1) == Prefixed(pool[1..i], DecodeSlots(data, p, count - i))
      decreases count - i
    {
      var ok;
      ok, i, p := PoolStep(data, pos, count, pool, p, i);
      if !ok {
        return None;
      }
    }
    assert pool[1..i] == pool[1..];
    PoolDone(data, pos, count, pool[1..], p);
    assert pool[..] == [None] + pool[1..];
    return Some((pool[..], p));
  }

  /* ---------- parse_attributes (src/classfile.c:80-105) ---------- */

  /** The loop of parse_attributes has run to the end: the prefix is the whole result. */
  lemma AttributesDone(data: seq<byte>, whole: Option<(seq<Attribute>, nat)>, attrs: seq<Attribute>, p: nat)
    requires p <= |data| && whole == Prefixed(attrs, DecodeAttributes(data, p, 0))
    ensures whole == Some((attrs, p))
  {
    assert attrs + [] == attrs;
  }

  lemma AttributesUnfold(data: seq<byte>, p: nat, m: nat)
    requires m >= 1 && p <= |data|
    ensures DecodeAttribute(data, p).None? ==> DecodeAttributes(data, p, m).None?
    ensures DecodeAttribute(data, p).Some? ==>
              var (a, next) := DecodeAttribute(data, p).value;
              DecodeAttributes(data, p, m) == Prefixed([a], DecodeAttributes(data, next, m - 1))
  {
  }

  /** The body of the loop of parse_attributes: one attribute at `p`. */
  method ReadAttribute(data: seq<byte>, p: nat) returns (r: Option<(Attribute, nat)>)
    ensures r == DecodeAttribute(data, p)
  {
    if p + 6 > |data| {
      return None;
    }
    var nameIndex := ReadU2(data, p);
    var length := ReadU4(data, p + 2);
    if p + 6 + length > |data| {
      return None;
    }
    return Some((Attribute(nameIndex, data[p + 6..p + 6 + length]), p + 6 + length));
  }

  /** One iteration of the loop of parse_attributes: read the attribute at `p` into slot `i`. */
  method AttributeStep(data: seq<byte>, ghost whole: Option<(seq<Attribute>, nat)>, count: u16, attrs: array<Attribute>, p: nat, i: nat)
    returns (ok: bool, p': nat)
    requires attrs.Length == count as int && i < count && p <= |data|
    requires whole == Prefixed(attrs[..i], DecodeAttributes(data, p, count - i))
    modifies attrs
    ensures !ok ==> whole.None?
    ensures ok ==> p <= p' <= |data|
    ensures ok ==> whole == Prefixed(attrs[..i + 1], DecodeAttributes(data, p', count - (i + 1)))
  {
    AttributesUnfold(data, p, count - i);
    var one := ReadAttribute(data, p);
    if one.None? {
      return false, p;
    }
    var (a, next) := one.value;
    ghost var before := attrs[..i];
    PrefixedChain(whole, DecodeAttributes(data, p, count - i), DecodeAttributes(data, next, count - (i + 1)), before, [a]);
    attrs[i] := a;
    assert attrs[..i + 1] == before + [a];
    return true, next;
  }

  /** parse_attributes: `count` attributes, each u2 name index, u4 length and the payload. */
  method ParseAttributes(data: seq<byte>, pos: nat, count: u16) returns (r: Option<(seq<Attribute>, nat)>)
    requires pos <= |data|
    ensures r == DecodeAttributes(data, pos, count)
  {
    ghost var whole := DecodeAttributes(data, pos, count);
    var attrs := new Attribute[count](_ => Attribute(0, []));
    var p := pos;
    var i := 0;
    PrefixedNothing(whole);
    while i < count
      invariant 0 <= i <= count && pos <= p <= |data|
      invariant whole == Prefixed(attrs[..i], DecodeAttributes(data, p, count - i))
    {
      var ok;
      ok, p := AttributeStep(data, whole, count, attrs, p, i);
      if !ok {
        return None;
      }
      i := i + 1;
    }
    assert attrs[..] == attrs[..i];
    AttributesDone(data, whole, attrs[..], p);
    return Some((attrs[..], p));
  }

  /* ---------- parse_methods (src/classfile.c:107-137) ---------- */

  /** The loop of parse_methods has run to the end: the prefix is the whole result. */
  lemma MembersDone(data: seq<byte>, whole: Option<(seq<Member>, nat)>, members: seq<Member>, p: nat)
    requires p <= |data| && whole == Prefixed(members, DecodeMembers(data, p, 0))
    ensures whole == Some((members, p))
  {
    assert members + [] == members;
  }

  lemma MembersUnfold(data: seq<byte>, p: nat, m: nat)
    requires m >= 1 && p <= |data|
    ensures DecodeMember(data, p).None? ==> DecodeMembers(data, p, m).None?
    ensures DecodeMember(data, p).Some? ==>
              var (x, next) := DecodeMember(data, p).value;
              DecodeMembers(data, p, m) == Prefixed([x], DecodeMembers(data, next, m - 1))
  {
  }

  /** The body of the loop of parse_methods: four u2 fields, then the member's attributes. */
  method ReadMember(data: seq<byte>, p: nat) returns (r: Option<(Member, nat)>)
    ensures r == DecodeMember(data, p)
  {
    if p + 8 > |data| {
      return None;
    }
    var accessFlags := ReadU2(data, p);
    var nameIndex := ReadU2(data, p + 2);
    var descriptorIndex := ReadU2(data, p + 4);
    var attributesCount := ReadU2(data, p + 6);
    var attrs := ParseAttributes(data, p + 8, attributesCount);
    if attrs.None? {
      return None;
    }
    return Some((Member(accessFlags, nameIndex, descriptorIndex, attrs.value.0), attrs.value.1));
  }

  /** One iteration of the loop of parse_methods: read the member at `p` into slot `i`. */
  method MemberStep(data: seq<byte>, ghost whole: Option<(seq<Member>, nat)>, count: u16, members: array<Member>, p: nat, i: nat)
    returns (ok: bool, p': nat)
    requires members.Length == count as int && i < count && p <= |data|
    requires whole == Prefixed(members[..i], DecodeMembers(data, p, count - i))
    modifies members
    ensures !ok ==> whole.None?
    ensures ok ==> p <= p' <= |data|
    ensures ok ==> whole == Prefixed(members[..i + 1], DecodeMembers(data, p', count - (i + 1)))
  {
    MembersUnfold(data, p, count - i);
    var one := ReadMember(data, p);
    if one.None? {
      return false, p;
    }
    var (m, next) := one.value;
    ghost var before := members[..i];
    PrefixedChain(whole, DecodeMembers(data, p, count - i), DecodeMembers(data, next, count - (i + 1)), before, [m]);
    members[i] := m;
    assert members[..i + 1] == before + [m];
    return true, next;
  }

  /** parse_methods, used for the field and the method table alike. */
  method ParseMembers(data: seq<byte>, pos: nat, count: u16) returns (r: Option<(seq<Member>, nat)>)
    requires pos <= |data|
    ensures r == DecodeMembers(data, pos, count)
  {
    ghost var whole := DecodeMembers(data, pos, count);
    var members := new Member[count](_ => Member(0, 0, 0, []));
    var p := pos;
    var i := 0;
    PrefixedNothing(whole);
    while i < count
      invariant 0 <= i <= count && pos <= p <= |data|
      invariant whole == Prefixed(members[..i], DecodeMembers(data, p, count - i))
    {
      var ok;
      ok, p := MemberStep(data, whole, count, members, p, i);
      if !ok {
        return None;
      }
      i := i + 1;
    }
    assert members[..] == members[..i];
    MembersDone(data, whole, members[..], p);
    return Some((members[..], p));
  }

  /* ---------- classfile_parse (src/classfile.c:139-213) ---------- */

  lemma InterfacesUnfold(data: seq<byte>, p: nat, m: nat)
    requires m >= 1 && p + 2 <= |data|
    ensures DecodeInterfaces(data, p, m) == Prefixed([ReadU2(data, p)], DecodeInterfaces(data, p + 2, m - 1))
  {
  }

  /** The interface loop of classfile_parse (src/classfile.c:182-195). */
  method ParseInterfaces(data: seq<byte>, pos: nat, count: u16) returns (r: Option<(seq<u16>, nat)>)
    requires pos <= |data|
    ensures r == DecodeInterfaces(data, pos, count)
  {
    var interfaces := new u16[count];
    var p := pos;
    var i := 0;
    PrefixedNothing(DecodeInterfaces(data, pos, count));
    while i < count
      invariant 0 <= i <= count && pos <= p <= |data|
      invariant DecodeInterfaces(data, pos, count) == Prefixed(interfaces[..i], DecodeInterfaces(data, p, count - i))
    {
      if p + 2 > |data| {
        return None;
      }
      InterfacesUnfold(data, p, count - i);
      ghost var before := interfaces[..i];
      var v := ReadU2(data, p);
      PrefixedAppend(before, [v], DecodeInterfaces(data, p + 2, count - i - 1));
      interfaces[i] := v;
      assert interfaces[..i + 1] == before + [v];
      p := p + 2;
      i := i + 1;
    }
    assert DecodeInterfaces(data, p, 0) == Some(([], p));
    assert interfaces[..] == interfaces[..i] + [];
    return Some((interfaces[..], p));
  }

  /**
   * classfile_parse: NULL for a NULL input, for fewer than 10 bytes and for
   * a wrong magic number; otherwise the sections in file order.
   */
  method ClassfileParse(input: Option<seq<byte>>) returns (cf: Option<ClassFile>)
    ensures input.None? ==> cf.None?
    ensures input.Some? ==> cf == Parse(input.value)
    ensures input.Some? && (|input.value| < 10 || ReadU4(input.value, 0) != MAGIC) ==> cf.None?
  {
    if input.None? || |input.value| < 10 {
      return None;
    }
    var data := input.value;
    var magic := ReadU4(data, 0);
    if magic != MAGIC {
      return None;
    }
    var minor := ReadU2(data, 4);
    var major := ReadU2(data, 6);
    var poolCount := ReadU2(data, 8);
    var pool := ParseConstantPool(data, 10, poolCount);
    if pool.None? {
      return None;
    }
    var p := pool.value.1;
    var c0 := ClassFile(magic, minor, major, pool.value.0, 0, 0, 0, [], [], [], []);
    assert DecodeClass(data) == DecodeInfo(data, c0, p);
    var r := ParseFromInfo(data, c0, p);
    cf := if r.None? then None else Some(r.value.0);
  }

  /** The rest of classfile_parse after the constant pool (src/classfile.c:171-195). */
  method ParseFromInfo(data: seq<byte>, c0: ClassFile, pos: nat) returns (r: Option<(ClassFile, nat)>)
    requires pos <= |data|
    ensures r == DecodeInfo(data, c0, pos)
  {
    if pos + 8 > |data| {
      return None;
    }
    var accessFlags := ReadU2(data, pos);
    var thisClass := ReadU2(data, pos + 2);
    var superClass := ReadU2(data, pos + 4);
    var interfacesCount := ReadU2(data, pos + 6);
    var interfaces := ParseInterfaces(data, pos + 8, interfacesCount);
    if interfaces.None? {
      return None;
    }
    var c1 := c0.(accessFlags := accessFlags, thisClass := thisClass, superClass := superClass,
                  interfaces := interfaces.value.0);
    r := ParseFields(data, c1, interfaces.value.1);
  }

  /** The field table of classfile_parse (src/classfile.c:197-200). */
  method ParseFields(data: seq<byte>, c1: ClassFile, p: nat) returns (r: Option<(ClassFile, nat)>)
    requires p <= |data|
    ensures r == DecodeFields(data, c1, p)
  {
    if p + 2 > |data| {
      return None;
    }
    var fields := ParseMembers(data, p + 2, ReadU2(data, p));
    if fields.None? {
      return None;
    }
    r := ParseMethodTable(data, c1.(fields := fields.value.0), fields.value.1);
  }

  /** The method table of classfile_parse (src/classfile.c:202-205). */
  method ParseMethodTable(data: seq<byte>, c2: ClassFile, p: nat) returns (r: Option<(ClassFile, nat)>)
    requires p <= |data|
    ensures r == DecodeMethods(data, c2, p)
  {
    if p + 2 > |data| {
      return None;
    }
    var methods := ParseMembers(data, p + 2, ReadU2(data, p));
    if methods.None? {
      return None;
    }
    r := ParseClassAttributes(data, c2.(methods := methods.value.0), methods.value.1);
  }

  /** The class attribute table of classfile_parse (src/classfile.c:207-210). */
  method ParseClassAttributes(data: seq<byte>, c3: ClassFile, p: nat) returns (r: Option<(ClassFile, nat)>)
    requires p <= |data|
    ensures r == DecodeClassAttributes(data, c3, p)
  {
    if p + 2 > |data| {
      return None;
    }
    var attributes := ParseAttributes(data, p + 2, ReadU2(data, p));
    if attributes.None? {
      return None;
    }
    return Some((c3.(attributes := attributes.value.0), attributes.value.1));
  }
}
