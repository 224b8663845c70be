/**
 * What classfile_parse reads (src/classfile.c:19-213), as total functions
 * over the input bytes, and the round-trip laws that connect them with the
 * encoding of ClassfileFormat.
 *
 * The C parser never compares its cursor with `len` once the 10-byte header
 * check has passed; these decoders instead fail (None) wherever the input
 * ends before the structure does.  On every input the C code reads without
 * overrunning, the two agree.
 */
module ClassfileDecode {
  import opened Wrappers
  import opened Bytes
  import opened ClassfileFormat

  /**
   * The payload length that follows the tag at `pos` (the switch of
   * parse_constant_pool): None for a tag outside the fourteen known ones,
   * or for a Utf8 entry whose 2-byte length is cut off.
   */
  function PayloadSize(data: seq<byte>, pos: nat): (r: Option<nat>)
    requires pos < |data|
    ensures r.Some? <==> KnownTag(data[pos]) && (data[pos] == CONSTANT_Utf8 ==> pos + 3 <= |data|)
  {
    var tag := data[pos];
    if tag == CONSTANT_Utf8 then
      if pos + 3 <= |data| then Some(2 + ReadU2(data, pos + 1)) else None
    else if tag == CONSTANT_Integer || tag == CONSTANT_Float then Some(4)
    else if tag == CONSTANT_Long || tag == CONSTANT_Double then Some(8)
    else if tag == CONSTANT_Class || tag == CONSTANT_String || tag == CONSTANT_MethodType then Some(2)
    else if tag == CONSTANT_Fieldref || tag == CONSTANT_Methodref || tag == CONSTANT_InterfaceMethodref
         || tag == CONSTANT_NameAndType || tag == CONSTANT_InvokeDynamic then Some(4)
    else if tag == CONSTANT_MethodHandle then Some(3)
    else None
  }

  /** One constant-pool entry at `pos`: its tag byte followed by its payload, verbatim. */
  ghost function DecodeEntry(data: seq<byte>, pos: nat): (r: Option<seq<byte>>)
    ensures r.Some? ==> |r.value| >= 1 && pos + |r.value| <= |data| && r.value == data[pos..pos + |r.value|]
    ensures r.Some? ==> KnownTag(r.value[0]) && PayloadSize(data, pos) == Some(|r.value| - 1)
    ensures pos < |data| && !KnownTag(data[pos]) ==> r.None?
  {
    if pos >= |data| then None
    else match PayloadSize(data, pos)
      case None => None
      case Some(n) => if pos + 1 + n <= |data| then Some(data[pos..pos + 1 + n]) else None
  }

  /** An entry is well formed when decoding it on its own yields exactly itself. */
  ghost predicate WellFormedEntry(e: seq<byte>) {
    DecodeEntry(e, 0) == Some(e)
  }

  /**
   * The slots after index 0 as parse_constant_pool leaves them: a narrow
   * entry fills one slot; a Long or Double leaves its first slot empty and
   * sits in the second (src/classfile.c:42, :64).
   */
  ghost predicate WellFormedSlots(slots: seq<Slot>)
    decreases |slots|
  {
    if slots == [] then true
    else if slots[0].Some? then
      && WellFormedEntry(slots[0].value)
      && !IsWide(slots[0].value[0])
      && WellFormedSlots(slots[1..])
    else
      && |slots| >= 2
      && slots[1].Some?
      && WellFormedEntry(slots[1].value)
      && IsWide(slots[1].value[0])
      && WellFormedSlots(slots[2..])
  }

  ghost predicate WellFormedPool(pool: seq<Slot>) {
    pool == [] || (pool[0].None? && WellFormedSlots(pool[1..]))
  }

  /** A class value of the shape the parser produces. */
  ghost predicate WellFormed(cf: ClassFile) {
    cf.magic == MAGIC && Fits(cf) && WellFormedPool(cf.constantPool)
  }

  /** The `n` slots that follow index 0, read from `pos`. */
  ghost function DecodeSlots(data: seq<byte>, pos: nat, n: nat): (r: Option<(seq<Slot>, nat)>)
    requires pos <= |data|
    ensures r.Some? ==> pos <= r.value.1 <= |data| && |r.value.0| == n
    decreases n
  {
    if n == 0 then Some(([], pos))
    else match DecodeEntry(data, pos)
      case None => None
      case Some(e) =>
        if IsWide(e[0]) then
          if n < 2 then None
          else match DecodeSlots(data, pos + |e|, n - 2)
            case None => None
            case Some((rest, end)) => Some(([None, Some(e)] + rest, end))
        else match DecodeSlots(data, pos + |e|, n - 1)
          case None => None
          case Some((rest, end)) => Some(([Some(e)] + rest, end))
  }

  /** parse_constant_pool: `count` slots, index 0 empty. */
  ghost function DecodePool(data: seq<byte>, pos: nat, count: u16): (r: Option<(seq<Slot>, nat)>)
    requires pos <= |data|
    ensures r.Some? ==> pos <= r.value.1 <= |data| && |r.value.0| == count
  {
    if count == 0 then Some(([], pos))
    else match DecodeSlots(data, pos, count - 1)
      case None => None
      case Some((slots, end)) => Some(([None] + slots, end))
  }

  /** One attribute_info: u2 name index, u4 length, then that many bytes. */
  ghost function DecodeAttribute(data: seq<byte>, pos: nat): (r: Option<(Attribute, nat)>)
    ensures r.Some? ==> pos + 6 <= r.value.1 <= |data| && AttributeFits(r.value.0)
  {
    if pos + 6 > |data| then None
    else
      var len := ReadU4(data, pos + 2);
      if pos + 6 + len > |data| then None
      else Some((Attribute(ReadU2(data, pos), data[pos + 6..pos + 6 + len]), pos + 6 + len))
  }

  /** parse_attributes: `n` attributes read back to back. */
  ghost function DecodeAttributes(data: seq<byte>, pos: nat, n: nat): (r: Option<(seq<Attribute>, nat)>)
    requires pos <= |data|
    ensures r.Some? ==> pos <= r.value.1 <= |data| && |r.value.0| == n
    decreases n
  {
    if n == 0 then Some(([], pos))
    else match DecodeAttribute(data, pos)
      case None => None
      case Some((a, next)) =>
        match DecodeAttributes(data, next, n - 1)
        case None => None
        case Some((rest, end)) => Some(([a] + rest, end))
  }

  /** One field_info or method_info (the loop body of parse_methods). */
  ghost function DecodeMember(data: seq<byte>, pos: nat): (r: Option<(Member, nat)>)
    ensures r.Some? ==> pos + 8 <= r.value.1 <= |data|
  {
    if pos + 8 > |data| then None
    else match DecodeAttributes(data, pos + 8, ReadU2(data, pos + 6))
      case None => None
      case Some((attrs, end)) =>
        Some((Member(ReadU2(data, pos), ReadU2(data, pos + 2), ReadU2(data, pos + 4), attrs), end))
  }

  /** parse_methods: `n` members read back to back. */
  ghost function DecodeMembers(data: seq<byte>, pos: nat, n: nat): (r: Option<(seq<Member>, nat)>)
    requires pos <= |data|
    ensures r.Some? ==> pos <= r.value.1 <= |data| && |r.value.0| == n
    decreases n
  {
    if n == 0 then Some(([], pos))
    else match DecodeMember(data, pos)
      case None => None
      case Some((m, next)) =>
        match DecodeMembers(data, next, n - 1)
        case None => None
        case Some((rest, end)) => Some(([m] + rest, end))
  }

  /** The interface indices: `n` big-endian u2 values. */
  ghost function DecodeInterfaces(data: seq<byte>, pos: nat, n: nat): (r: Option<(seq<u16>, nat)>)
    requires pos <= |data|
    ensures r.Some? ==> pos <= r.value.1 <= |data| && |r.value.0| == n
    decreases n
  {
    if n == 0 then Some(([], pos))
    else if pos + 2 > |data| then None
    else match DecodeInterfaces(data, pos + 2, n - 1)
      case None => None
      case Some((rest, end)) => Some(([ReadU2(data, pos)] + rest, end))
  }

  /**
   * classfile_parse: the parsed class and the offset just past it.  Fails
   * when the input is shorter than 10 bytes, when the magic is not
   * 0xCAFEBABE, when a constant has an unknown tag, and when the input ends
   * early.  Like the C code, it fills the class in section by section; the
   * fields not yet read hold placeholders.
   */
  ghost function DecodeClass(data: seq<byte>): Option<(ClassFile, nat)> {
    if |data| < 10 || ReadU4(data, 0) != MAGIC then None
    else match DecodePool(data, 10, ReadU2(data, 8))
      case None => None
      case Some((pool, p1)) =>
        var cf := ClassFile(ReadU4(data, 0), ReadU2(data, 4), ReadU2(data, 6), pool, 0, 0, 0, [], [], [], []);
        DecodeInfo(data, cf, p1)
  }

  /** Access flags, this and super class, and the interfaces. */
  ghost function DecodeInfo(data: seq<byte>, cf: ClassFile, pos: nat): Option<(ClassFile, nat)>
    requires pos <= |data|
  {
    if pos + 8 > |data| then None
    else match DecodeInterfaces(data, pos + 8, ReadU2(data, pos + 6))
      case None => None
      case Some((ifaces, next)) =>
        DecodeFields(data, cf.(accessFlags := ReadU2(data, pos), thisClass := ReadU2(data, pos + 2),
                               superClass := ReadU2(data, pos + 4), interfaces := ifaces), next)
  }

  /** The field table. */
  ghost function DecodeFields(data: seq<byte>, cf: ClassFile, pos: nat): Option<(ClassFile, nat)>
    requires pos <= |data|
  {
    if pos + 2 > |data| then None
    else match DecodeMembers(data, pos + 2, ReadU2(data, pos))
      case None => None
      case Some((fields, next)) => DecodeMethods(data, cf.(fields := fields), next)
  }

  /** The method table. */
  ghost function DecodeMethods(data: seq<byte>, cf: ClassFile, pos: nat): Option<(ClassFile, nat)>
    requires pos <= |data|
  {
    if pos + 2 > |data| then None
    else match DecodeMembers(data, pos + 2, ReadU2(data, pos))
      case None => None
      case Some((methods, next)) => DecodeClassAttributes(data, cf.(methods := methods), next)
  }

  /** The class attribute table, the last section. */
  ghost function DecodeClassAttributes(data: seq<byte>, cf: ClassFile, pos: nat): Option<(ClassFile, nat)>
    requires pos <= |data|
  {
    if pos + 2 > |data| then None
    else match DecodeAttributes(data, pos + 2, ReadU2(data, pos))
      case None => None
      case Some((attrs, next)) => Some((cf.(attributes := attrs), next))
  }

  /** The class classfile_parse returns, or None where it returns NULL. */
  ghost function Parse(data: seq<byte>): Option<ClassFile> {
    match DecodeClass(data)
    case None => None
    case Some((cf, _)) => Some(cf)
  }


  /* ---------- Helpers on byte slices ---------- */

  lemma SplitSlice(data: seq<byte>, a: nat, b: nat, c: nat)
    requires a <= b <= c <= |data|
    ensures data[a..c] == data[a..b] + data[b..c]
  {
  }

  /** Reading a u2 at `pos` and writing it back gives the same two bytes. */
  lemma PeelU2(data: seq<byte>, pos: nat, end: nat)
    requires pos + 2 <= end <= |data|
    ensures data[pos..end] == U2(ReadU2(data, pos)) + data[pos + 2..end]
  {
    U2OfReadU2(data, pos);
    SplitSlice(data, pos, pos + 2, end);
  }

  /** The same for four consecutive u2 values. */
  lemma PeelFourU2(data: seq<byte>, pos: nat, end: nat)
    requires pos + 8 <= end <= |data|
    ensures data[pos..end] == U2(ReadU2(data, pos)) + U2(ReadU2(data, pos + 2)) + U2(ReadU2(data, pos + 4))
                              + U2(ReadU2(data, pos + 6)) + data[pos + 8..end]
  {
    PeelU2(data, pos, end);
    PeelU2(data, pos + 2, end);
    PeelU2(data, pos + 4, end);
    PeelU2(data, pos + 6, end);
  }

  /** `e` occurs in `data` at `pos`. */
  ghost predicate At(e: seq<byte>, data: seq<byte>, pos: nat) {
    pos + |e| <= |data| && data[pos..pos + |e|] == e
  }

  lemma AtSplit(e1: seq<byte>, e2: seq<byte>, data: seq<byte>, pos: nat)
    requires At(e1 + e2, data, pos)
    ensures At(e1, data, pos) && At(e2, data, pos + |e1|)
  {
    assert data[pos..pos + |e1|] == (e1 + e2)[..|e1|];
    assert data[pos + |e1|..pos + |e1| + |e2|] == (e1 + e2)[|e1|..];
  }

  /** A u2 written at `pos` reads back. */
  lemma ReadBackU2(v: u16, data: seq<byte>, pos: nat)
    requires At(U2(v), data, pos)
    ensures ReadU2(data, pos) == v
  {
    ReadU2OfU2(v, []);
    assert ReadU2(data, pos) == ReadU2(U2(v) + [], 0);
  }

  lemma NarrowSlots(e: seq<byte>, rest: seq<Slot>)
    requires WellFormedEntry(e) && !IsWide(e[0]) && WellFormedSlots(rest)
    ensures EncodeSlots([Some(e)] + rest) == e + EncodeSlots(rest)
    ensures WellFormedSlots([Some(e)] + rest)
  {
    assert ([Some(e)] + rest)[1..] == rest;
  }

  lemma WideSlots(e: seq<byte>, rest: seq<Slot>)
    requires WellFormedEntry(e) && IsWide(e[0]) && WellFormedSlots(rest)
    ensures EncodeSlots([None, Some(e)] + rest) == e + EncodeSlots(rest)
    ensures WellFormedSlots([None, Some(e)] + rest)
  {
    var slots := [None, Some(e)] + rest;
    assert slots[1..] == [Some(e)] + rest && slots[2..] == rest;
    assert slots[1..][1..] == rest;
  }

  /** An entry read out of a larger input decodes the same way on its own. */
  lemma EntryStandsAlone(data: seq<byte>, pos: nat, e: seq<byte>)
    requires DecodeEntry(data, pos) == Some(e)
    ensures WellFormedEntry(e)
  {
    assert e[0] == data[pos];
    if e[0] == CONSTANT_Utf8 {
      assert |e| >= 3;
      assert e[1] == data[pos + 1] && e[2] == data[pos + 2];
      assert ReadU2(e, 1) == ReadU2(data, pos + 1);
    }
    assert PayloadSize(e, 0) == Some(|e| - 1);
    assert e[0..|e|] == e;
  }

  /* ---------- Round trip, direction 1: what was parsed is what generate writes ---------- */

  lemma {:induction false} SlotsSound(data: seq<byte>, pos: nat, n: nat)
    requires pos <= |data| && DecodeSlots(data, pos, n).Some?
    ensures WellFormedSlots(DecodeSlots(data, pos, n).value.0)
    ensures data[pos..DecodeSlots(data, pos, n).value.1] == EncodeSlots(DecodeSlots(data, pos, n).value.0)
    decreases n
  {
    if n > 0 {
      var e := DecodeEntry(data, pos).value;
      EntryStandsAlone(data, pos, e);
      var m := if IsWide(e[0]) then n - 2 else n - 1;
      var (rest, end) := DecodeSlots(data, pos + |e|, m).value;
      SlotsSound(data, pos + |e|, m);
      SplitSlice(data, pos, pos + |e|, end);
      if IsWide(e[0]) {
        assert DecodeSlots(data, pos, n).value == ([None, Some(e)] + rest, end);
        WideSlots(e, rest);
      } else {
        assert DecodeSlots(data, pos, n).value == ([Some(e)] + rest, end);
        NarrowSlots(e, rest);
      }
    }
  }

  lemma PoolSound(data: seq<byte>, pos: nat, count: u16)
    requires pos <= |data| && DecodePool(data, pos, count).Some?
    ensures WellFormedPool(DecodePool(data, pos, count).value.0)
    ensures data[pos..DecodePool(data, pos, count).value.1] == EncodePool(DecodePool(data, pos, count).value.0)
  {
    if count > 0 {
      var (slots, end) := DecodeSlots(data, pos, count - 1).value;
      SlotsSound(data, pos, count - 1);
      assert ([None] + slots)[1..] == slots;
    }
  }

  lemma AttributeSound(data: seq<byte>, pos: nat)
    requires DecodeAttribute(data, pos).Some?
    ensures data[pos..DecodeAttribute(data, pos).value.1] == EncodeAttribute(DecodeAttribute(data, pos).value.0)
  {
    var len := ReadU4(data, pos + 2);
    U2OfReadU2(data, pos);
    U4OfReadU4(data, pos + 2);
    assert data[pos..pos + 6 + len] == data[pos..pos + 2] + data[pos + 2..pos + 6] + data[pos + 6..pos + 6 + len];
  }

  lemma {:induction false} AttributesSound(data: seq<byte>, pos: nat, n: nat)
    requires pos <= |data| && DecodeAttributes(data, pos, n).Some?
    ensures AllAttributesFit(DecodeAttributes(data, pos, n).value.0)
    ensures data[pos..DecodeAttributes(data, pos, n).value.1] == EncodeAttributes(DecodeAttributes(data, pos, n).value.0)
    decreases n
  {
    if n > 0 {
      var (a, next) := DecodeAttribute(data, pos).value;
      var (rest, end) := DecodeAttributes(data, next, n - 1).value;
      var attrs := [a] + rest;
      assert DecodeAttributes(data, pos, n).value == (attrs, end);
      AttributeSound(data, pos);
      AttributesSound(data, next, n - 1);
      assert attrs[0] == a && attrs[1..] == rest;
      SplitSlice(data, pos, next, end);
    }
  }

  lemma MemberSound(data: seq<byte>, pos: nat)
    requires DecodeMember(data, pos).Some?
    ensures MemberFits(DecodeMember(data, pos).value.0)
    ensures data[pos..DecodeMember(data, pos).value.1] == EncodeMember(DecodeMember(data, pos).value.0)
  {
    var (attrs, end) := DecodeAttributes(data, pos + 8, ReadU2(data, pos + 6)).value;
    AttributesSound(data, pos + 8, ReadU2(data, pos + 6));
    U2OfReadU2(data, pos);
    U2OfReadU2(data, pos + 2);
    U2OfReadU2(data, pos + 4);
    U2OfReadU2(data, pos + 6);
    assert data[pos..end] == data[pos..pos + 2] + data[pos + 2..pos + 4] + data[pos + 4..pos + 6]
                             + data[pos + 6..pos + 8] + data[pos + 8..end];
  }

  lemma {:induction false} MembersSound(data: seq<byte>, pos: nat, n: nat)
    requires pos <= |data| && DecodeMembers(data, pos, n).Some?
    ensures AllMembersFit(DecodeMembers(data, pos, n).value.0)
    ensures data[pos..DecodeMembers(data, pos, n).value.1] == EncodeMembers(DecodeMembers(data, pos, n).value.0)
    decreases n
  {
    if n > 0 {
      var (m, next) := DecodeMember(data, pos).value;
      var (rest, end) := DecodeMembers(data, next, n - 1).value;
      var ms := [m] + rest;
      assert DecodeMembers(data, pos, n).value == (ms, end);
      MemberSound(data, pos);
      MembersSound(data, next, n - 1);
      assert ms[0] == m && ms[1..] == rest;
      SplitSlice(data, pos, next, end);
    }
  }

  lemma {:induction false} InterfacesSound(data: seq<byte>, pos: nat, n: nat)
    requires pos <= |data| && DecodeInterfaces(data, pos, n).Some?
    ensures data[pos..DecodeInterfaces(data, pos, n).value.1] == EncodeInterfaces(DecodeInterfaces(data, pos, n).value.0)
    decreases n
  {
    if n > 0 {
      var (rest, end) := DecodeInterfaces(data, pos + 2, n - 1).value;
      var ifaces := [ReadU2(data, pos)] + rest;
      assert DecodeInterfaces(data, pos, n).value == (ifaces, end);
      InterfacesSound(data, pos + 2, n - 1);
      assert ifaces[1..] == rest;
      U2OfReadU2(data, pos);
      SplitSlice(data, pos, pos + 2, end);
    }
  }

  lemma ClassAttributesSound(data: seq<byte>, cf: ClassFile, pos: nat)
    requires pos <= |data| && DecodeClassAttributes(data, cf, pos).Some?
    ensures var (cf', end) := DecodeClassAttributes(data, cf, pos).value;
      && end <= |data| && cf' == cf.(attributes := cf'.attributes)
      && |cf'.attributes| < 0x1_0000 && AllAttributesFit(cf'.attributes)
      && data[pos..end] == EncodeAttributeTable(cf'.attributes)
  {
    var (attrs, end) := DecodeAttributes(data, pos + 2, ReadU2(data, pos)).value;
    AttributesSound(data, pos + 2, ReadU2(data, pos));
    U2OfReadU2(data, pos);
    SplitSlice(data, pos, pos + 2, end);
  }

  lemma MethodsSound(data: seq<byte>, cf: ClassFile, pos: nat)
    requires pos <= |data| && DecodeMethods(data, cf, pos).Some?
    ensures var (cf', end) := DecodeMethods(data, cf, pos).value;
      && end <= |data| && cf' == cf.(methods := cf'.methods, attributes := cf'.attributes)
      && |cf'.methods| < 0x1_0000 && AllMembersFit(cf'.methods)
      && |cf'.attributes| < 0x1_0000 && AllAttributesFit(cf'.attributes)
      && data[pos..end] == EncodeMemberTable(cf'.methods) + EncodeAttributeTable(cf'.attributes)
  {
    var (methods, next) := DecodeMembers(data, pos + 2, ReadU2(data, pos)).value;
    ClassAttributesSound(data, cf.(methods := methods), next);
    var end := DecodeMethods(data, cf, pos).value.1;
    MembersSound(data, pos + 2, ReadU2(data, pos));
    U2OfReadU2(data, pos);
    SplitSlice(data, pos, pos + 2, next);
    SplitSlice(data, pos, next, end);
  }

  lemma FieldsSound(data: seq<byte>, cf: ClassFile, pos: nat)
    requires pos <= |data| && DecodeFields(data, cf, pos).Some?
    ensures var (cf', end) := DecodeFields(data, cf, pos).value;
      && end <= |data| && cf' == cf.(fields := cf'.fields, methods := cf'.methods, attributes := cf'.attributes)
      && TablesFit(cf') && data[pos..end] == EncodeFromFields(cf')
  {
    var (fields, next) := DecodeMembers(data, pos + 2, ReadU2(data, pos)).value;
    MethodsSound(data, cf.(fields := fields), next);
    var end := DecodeFields(data, cf, pos).value.1;
    MembersSound(data, pos + 2, ReadU2(data, pos));
    U2OfReadU2(data, pos);
    SplitSlice(data, pos, pos + 2, next);
    SplitSlice(data, pos, next, end);
  }

  lemma InfoSound(data: seq<byte>, cf: ClassFile, pos: nat)
    requires pos <= |data| && DecodeInfo(data, cf, pos).Some?
    ensures var (cf', end) := DecodeInfo(data, cf, pos).value;
      && end <= |data|
      && cf' == cf.(accessFlags := cf'.accessFlags, thisClass := cf'.thisClass, superClass := cf'.superClass,
                    interfaces := cf'.interfaces, fields := cf'.fields, methods := cf'.methods,
                    attributes := cf'.attributes)
      && |cf'.interfaces| < 0x1_0000 && TablesFit(cf') && data[pos..end] == EncodeFromInfo(cf')
  {
    var (ifaces, next) := DecodeInterfaces(data, pos + 8, ReadU2(data, pos + 6)).value;
    var cf1 := cf.(accessFlags := ReadU2(data, pos), thisClass := ReadU2(data, pos + 2),
                   superClass := ReadU2(data, pos + 4), interfaces := ifaces);
    FieldsSound(data, cf1, next);
    var (cf', end) := DecodeInfo(data, cf, pos).value;
    InterfacesSound(data, pos + 8, ReadU2(data, pos + 6));
    PeelFourU2(data, pos, end);
    SplitSlice(data, pos + 8, next, end);
  }

  /**
   * Whatever classfile_parse accepts is well formed, and encoding it again
   * gives back exactly the bytes it consumed.
   */
  lemma DecodeClassSound(data: seq<byte>)
    requires DecodeClass(data).Some?
    ensures DecodeClass(data).value.1 <= |data|
    ensures WellFormed(DecodeClass(data).value.0)
    ensures data[..DecodeClass(data).value.1] == EncodeClass(DecodeClass(data).value.0)
  {
    var (pool, p1) := DecodePool(data, 10, ReadU2(data, 8)).value;
    var cf0 := ClassFile(ReadU4(data, 0), ReadU2(data, 4), ReadU2(data, 6), pool, 0, 0, 0, [], [], [], []);
    InfoSound(data, cf0, p1);
    var (cf, end) := DecodeClass(data).value;
    PoolSound(data, 10, ReadU2(data, 8));
    HeadBytes(data, p1, cf);
    SplitSlice(data, 0, p1, end);
    assert data[..end] == data[0..end];
  }

  /** The bytes in front of the class info are the head generate writes for what was read. */
  lemma HeadBytes(data: seq<byte>, p1: nat, cf: ClassFile)
    requires 10 <= p1 <= |data| && |cf.constantPool| < 0x1_0000
    requires && ReadU4(data, 0) == cf.magic
             && ReadU2(data, 4) == cf.minorVersion
             && ReadU2(data, 6) == cf.majorVersion
             && ReadU2(data, 8) as nat == |cf.constantPool|
    requires data[10..p1] == EncodePool(cf.constantPool)
    ensures data[0..p1] == EncodeHead(cf)
  {
    U4OfReadU4(data, 0);
    U2OfReadU2(data, 4);
    U2OfReadU2(data, 6);
    U2OfReadU2(data, 8);
    SplitSlice(data, 0, 4, 6);
    SplitSlice(data, 0, 6, 8);
    SplitSlice(data, 0, 8, 10);
    SplitSlice(data, 0, 10, p1);
  }


  /* ---------- Round trip, direction 2: what generate writes parses back ---------- */

  lemma EntryComplete(e: seq<byte>, data: seq<byte>, pos: nat)
    requires WellFormedEntry(e) && At(e, data, pos)
    ensures DecodeEntry(data, pos) == Some(e)
  {
    assert e[0] == data[pos];
    if e[0] == CONSTANT_Utf8 {
      assert e[1] == data[pos + 1] && e[2] == data[pos + 2];
      assert ReadU2(e, 1) == ReadU2(data, pos + 1);
    }
    assert PayloadSize(data, pos) == PayloadSize(e, 0);
  }

  /** The slots one constant-pool entry fills: a pair for a Long or Double, one slot otherwise. */
  ghost function Lead(e: seq<byte>): seq<Slot>
    requires |e| >= 1
  {
    if IsWide(e[0]) then [None, Some(e)] else [Some(e)]
  }

  lemma SlotsStep(data: seq<byte>, pos: nat, next: nat, n: nat, m: nat, e: seq<byte>, rest: seq<Slot>, end: nat)
    requires |e| >= 1 && n == |Lead(e)| + m && next == pos + |e| <= |data| && DecodeEntry(data, pos) == Some(e)
    requires DecodeSlots(data, next, m) == Some((rest, end))
    ensures DecodeSlots(data, pos, n) == Some((Lead(e) + rest, end))
  {
    if IsWide(e[0]) {
      assert n - 2 == m;
    } else {
      assert n - 1 == m;
    }
  }

  /**
   * The slots' bytes lie in `data` one entry after another from `pos`, and
   * the last one ends at `end`: EncodeSlots placed at `pos`, with its end
   * position carried along instead of its length.
   */
  ghost predicate SlotsAt(slots: seq<Slot>, data: seq<byte>, pos: nat, end: nat)
    decreases |slots|
  {
    if slots == [] then end == pos
    else At(SlotBytes(slots[0]), data, pos) && SlotsAt(slots[1..], data, pos + |SlotBytes(slots[0])|, end)
  }

  lemma {:induction false} SlotsAtOfEncoded(slots: seq<Slot>, data: seq<byte>, pos: nat)
    requires At(EncodeSlots(slots), data, pos)
    ensures SlotsAt(slots, data, pos, pos + |EncodeSlots(slots)|)
    decreases |slots|
  {
    if slots != [] {
      AtSplit(SlotBytes(slots[0]), EncodeSlots(slots[1..]), data, pos);
      SlotsAtOfEncoded(slots[1..], data, pos + |SlotBytes(slots[0])|);
    }
  }

  lemma {:induction false} SlotsComplete(slots: seq<Slot>, data: seq<byte>, pos: nat, end: nat)
    requires pos <= |data| && WellFormedSlots(slots) && SlotsAt(slots, data, pos, end)
    ensures DecodeSlots(data, pos, |slots|) == Some((slots, end))
    decreases |slots|, 1
  {
    if slots != [] {
      if slots[0].None? {
        var e, rest := WideHead(slots, data, pos, end);
        SlotsJoin(slots, data, pos, e, rest, end);
      } else {
        NarrowComplete(slots, data, pos, end);
      }
    }
  }

  /** SlotsComplete when the first slot holds an entry. */
  lemma {:induction false} NarrowComplete(slots: seq<Slot>, data: seq<byte>, pos: nat, end: nat)
    requires slots != [] && slots[0].Some? && WellFormedSlots(slots) && SlotsAt(slots, data, pos, end)
    ensures DecodeSlots(data, pos, |slots|) == Some((slots, end))
    decreases |slots|, 0
  {
    var e, rest := NarrowHead(slots, data, pos, end);
    SlotsJoin(slots, data, pos, e, rest, end);
  }

  /** The slots decode once their first entry does and the slots after it are placed behind it. */
  lemma {:induction false} SlotsJoin(slots: seq<Slot>, data: seq<byte>, pos: nat, e: seq<byte>, rest: seq<Slot>, end: nat)
    requires |e| >= 1 && pos + |e| <= |data| && DecodeEntry(data, pos) == Some(e)
    requires slots == Lead(e) + rest
    requires WellFormedSlots(rest) && SlotsAt(rest, data, pos + |e|, end)
    ensures DecodeSlots(data, pos, |slots|) == Some((slots, end))
    decreases |slots|, -1
  {
    SlotsComplete(rest, data, pos + |e|, end);
    SlotsStep(data, pos, pos + |e|, |slots|, |rest|, e, rest, end);
  }

  /**
   * The first entry of placed slots decodes; `rest` are the slots after it
   * and are placed right behind it.  WideHead: a Long or Double first, as an
   * empty slot and then the entry.
   */
  lemma WideHead(slots: seq<Slot>, data: seq<byte>, pos: nat, end: nat) returns (e: seq<byte>, rest: seq<Slot>)
    requires slots != [] && slots[0].None? && WellFormedSlots(slots) && SlotsAt(slots, data, pos, end)
    ensures |e| >= 1 && pos + |e| <= |data| && DecodeEntry(data, pos) == Some(e)
    ensures slots == Lead(e) + rest
    ensures WellFormedSlots(rest) && SlotsAt(rest, data, pos + |e|, end)
  {
    var tail := slots[1..];
    assert SlotsAt(tail, data, pos, end);
    e, rest := tail[0].value, tail[1..];
    assert SlotsAt(rest, data, pos + |e|, end);
    assert slots[2..] == rest;
    assert slots == [None, Some(e)] + rest;
    EntryComplete(e, data, pos);
  }

  /** Any other entry first: it fills the first slot. */
  lemma NarrowHead(slots: seq<Slot>, data: seq<byte>, pos: nat, end: nat) returns (e: seq<byte>, rest: seq<Slot>)
    requires slots != [] && slots[0].Some? && WellFormedSlots(slots) && SlotsAt(slots, data, pos, end)
    ensures |e| >= 1 && pos + |e| <= |data| && DecodeEntry(data, pos) == Some(e)
    ensures slots == Lead(e) + rest
    ensures WellFormedSlots(rest) && SlotsAt(rest, data, pos + |e|, end)
  {
    e, rest := slots[0].value, slots[1..];
    assert slots == [Some(e)] + rest;
    EntryComplete(e, data, pos);
  }

  lemma PoolComplete(pool: seq<Slot>, data: seq<byte>, pos: nat)
    requires WellFormedPool(pool) && |pool| < 0x1_0000 && At(EncodePool(pool), data, pos)
    ensures DecodePool(data, pos, |pool|) == Some((pool, pos + |EncodePool(pool)|))
  {
    if pool != [] {
      SlotsAtOfEncoded(pool[1..], data, pos);
      SlotsComplete(pool[1..], data, pos, pos + |EncodeSlots(pool[1..])|);
      assert [None] + pool[1..] == pool;
    }
  }

  lemma AttributeComplete(a: Attribute, data: seq<byte>, pos: nat)
    requires AttributeFits(a) && At(EncodeAttribute(a), data, pos)
    ensures DecodeAttribute(data, pos) == Some((a, pos + |EncodeAttribute(a)|))
  {
    var enc := EncodeAttribute(a);
    AtSplit(U2(a.nameIndex) + U4(|a.info|), a.info, data, pos);
    AtSplit(U2(a.nameIndex), U4(|a.info|), data, pos);
    ReadU2OfU2(a.nameIndex, []);
    ReadU4OfU4(|a.info|, []);
    assert data[pos..pos + 2] == U2(a.nameIndex);
    assert ReadU2(data, pos) == ReadU2(U2(a.nameIndex) + [], 0);
    assert ReadU4(data, pos + 2) == ReadU4(U4(|a.info|) + [], 0);
  }

  /** One attribute decoded in front of `m` more gives `m + 1` attributes. */
  lemma AttributesStep(data: seq<byte>, pos: nat, next: nat, n: nat, m: nat, x: Attribute, rest: seq<Attribute>, end: nat)
    requires pos <= |data| && n == m + 1 && DecodeAttribute(data, pos) == Some((x, next))
    requires DecodeAttributes(data, next, m) == Some((rest, end))
    ensures DecodeAttributes(data, pos, n) == Some(([x] + rest, end))
  {
  }

  lemma {:induction false} AttributesComplete(attrs: seq<Attribute>, data: seq<byte>, pos: nat, end: nat)
    requires AllAttributesFit(attrs) && At(EncodeAttributes(attrs), data, pos) && end == pos + |EncodeAttributes(attrs)|
    ensures DecodeAttributes(data, pos, |attrs|) == Some((attrs, end))
    decreases |attrs|
  {
    if attrs != [] {
      var next := AttributesHead(attrs, data, pos, end);
      AttributesComplete(attrs[1..], data, next, end);
      AttributesStep(data, pos, next, |attrs|, |attrs[1..]|, attrs[0], attrs[1..], end);
      assert [attrs[0]] + attrs[1..] == attrs;
    }
  }

  /** The first of the placed attributes decodes, and the others are placed right behind it. */
  lemma AttributesHead(attrs: seq<Attribute>, data: seq<byte>, pos: nat, end: nat) returns (next: nat)
    requires attrs != [] && AllAttributesFit(attrs) && At(EncodeAttributes(attrs), data, pos)
    requires end == pos + |EncodeAttributes(attrs)|
    ensures pos <= |data| && DecodeAttribute(data, pos) == Some((attrs[0], next))
    ensures AllAttributesFit(attrs[1..]) && At(EncodeAttributes(attrs[1..]), data, next)
    ensures end == next + |EncodeAttributes(attrs[1..])|
  {
    var ea, etl := EncodeAttribute(attrs[0]), EncodeAttributes(attrs[1..]);
    assert EncodeAttributes(attrs) == ea + etl;
    AtSplit(ea, etl, data, pos);
    AttributeComplete(attrs[0], data, pos);
    next := pos + |ea|;
  }

  /** The four u2 fields generate writes in front of a member's attributes read back. */
  lemma MemberHeaderReadsBack(m: Member, data: seq<byte>, pos: nat)
    requires MemberFits(m) && At(EncodeMember(m), data, pos)
    ensures && ReadU2(data, pos) == m.accessFlags
            && ReadU2(data, pos + 2) == m.nameIndex
            && ReadU2(data, pos + 4) == m.descriptorIndex
            && ReadU2(data, pos + 6) as nat == |m.attributes|
            && At(EncodeAttributes(m.attributes), data, pos + 8)
  {
    var f, n, d, c := U2(m.accessFlags), U2(m.nameIndex), U2(m.descriptorIndex), U2(|m.attributes|);
    AtSplit(f + n + d + c, EncodeAttributes(m.attributes), data, pos);
    AtSplit(f + n + d, c, data, pos);
    AtSplit(f + n, d, data, pos);
    AtSplit(f, n, data, pos);
    ReadBackU2(m.accessFlags, data, pos);
    ReadBackU2(m.nameIndex, data, pos + 2);
    ReadBackU2(m.descriptorIndex, data, pos + 4);
    ReadBackU2(|m.attributes| as u16, data, pos + 6);
  }

  lemma MemberComplete(m: Member, data: seq<byte>, pos: nat)
    requires MemberFits(m) && At(EncodeMember(m), data, pos)
    ensures DecodeMember(data, pos) == Some((m, pos + |EncodeMember(m)|))
  {
    MemberHeaderReadsBack(m, data, pos);
    AttributesComplete(m.attributes, data, pos + 8, pos + |EncodeMember(m)|);
  }

  lemma {:induction false} InterfacesComplete(ifaces: seq<u16>, data: seq<byte>, pos: nat)
    requires At(EncodeInterfaces(ifaces), data, pos)
    ensures DecodeInterfaces(data, pos, |ifaces|) == Some((ifaces, pos + |EncodeInterfaces(ifaces)|))
    decreases |ifaces|
  {
    if ifaces != [] {
      AtSplit(U2(ifaces[0]), EncodeInterfaces(ifaces[1..]), data, pos);
      ReadU2OfU2(ifaces[0], []);
      assert ReadU2(data, pos) == ReadU2(U2(ifaces[0]) + [], 0);
      InterfacesComplete(ifaces[1..], data, pos + 2);
      assert [ifaces[0]] + ifaces[1..] == ifaces;
    }
  }

  lemma ClassAttributesComplete(p: ClassFile, attrs: seq<Attribute>, data: seq<byte>, pos: nat, end: nat)
    requires |attrs| < 0x1_0000 && AllAttributesFit(attrs) && At(EncodeAttributeTable(attrs), data, pos)
    requires end == pos + |EncodeAttributeTable(attrs)|
    ensures DecodeClassAttributes(data, p, pos) == Some((p.(attributes := attrs), end))
  {
    AtSplit(U2(|attrs|), EncodeAttributes(attrs), data, pos);
    ReadBackU2(|attrs| as u16, data, pos);
    AttributesComplete(attrs, data, pos + 2, end);
  }

  /** One member decoded in front of `m` more gives `m + 1` members. */
  lemma MembersStep(data: seq<byte>, pos: nat, next: nat, n: nat, m: nat, x: Member, rest: seq<Member>, end: nat)
    requires pos <= |data| && n == m + 1 && DecodeMember(data, pos) == Some((x, next))
    requires DecodeMembers(data, next, m) == Some((rest, end))
    ensures DecodeMembers(data, pos, n) == Some(([x] + rest, end))
  {
  }

  lemma {:induction false} MembersComplete(ms: seq<Member>, data: seq<byte>, pos: nat, end: nat)
    requires AllMembersFit(ms) && At(EncodeMembers(ms), data, pos) && end == pos + |EncodeMembers(ms)|
    ensures DecodeMembers(data, pos, |ms|) == Some((ms, end))
    decreases |ms|
  {
    if ms != [] {
      var next := MembersHead(ms, data, pos, end);
      MembersComplete(ms[1..], data, next, end);
      MembersStep(data, pos, next, |ms|, |ms[1..]|, ms[0], ms[1..], end);
      assert [ms[0]] + ms[1..] == ms;
    }
  }

  /** The first of the placed members decodes, and the others are placed right behind it. */
  lemma MembersHead(ms: seq<Member>, data: seq<byte>, pos: nat, end: nat) returns (next: nat)
    requires ms != [] && AllMembersFit(ms) && At(EncodeMembers(ms), data, pos) && end == pos + |EncodeMembers(ms)|
    ensures pos <= |data| && DecodeMember(data, pos) == Some((ms[0], next))
    ensures AllMembersFit(ms[1..]) && At(EncodeMembers(ms[1..]), data, next) && end == next + |EncodeMembers(ms[1..])|
  {
    var em, etl := EncodeMember(ms[0]), EncodeMembers(ms[1..]);
    assert EncodeMembers(ms) == em + etl;
    AtSplit(em, etl, data, pos);
    MemberComplete(ms[0], data, pos);
    next := pos + |em|;
  }

  /** A member table as generate writes it: the count read back, then the members. */
  lemma MemberTableComplete(ms: seq<Member>, data: seq<byte>, pos: nat, next: nat)
    requires |ms| < 0x1_0000 && AllMembersFit(ms) && At(EncodeMemberTable(ms), data, pos)
    requires next == pos + |EncodeMemberTable(ms)|
    ensures ReadU2(data, pos) as nat == |ms|
    ensures DecodeMembers(data, pos + 2, |ms|) == Some((ms, next))
  {
    var body := EncodeMembers(ms);
    assert EncodeMemberTable(ms) == U2(|ms|) + body;
    AtSplit(U2(|ms|), body, data, pos);
    ReadBackU2(|ms| as u16, data, pos);
    assert next == pos + 2 + |body|;
    MembersComplete(ms, data, pos + 2, next);
  }

  /** The method table decodes once its count, its members and the class attributes do. */
  lemma MethodsStep(data: seq<byte>, p: ClassFile, pos: nat, ms: seq<Member>, next: nat, attrs: seq<Attribute>, end: nat)
    requires pos + 2 <= |data| && ReadU2(data, pos) as nat == |ms|
    requires DecodeMembers(data, pos + 2, |ms|) == Some((ms, next))
    requires DecodeClassAttributes(data, p.(methods := ms), next) == Some((p.(methods := ms).(attributes := attrs), end))
    ensures DecodeMethods(data, p, pos) == Some((p.(methods := ms, attributes := attrs), end))
  {
  }

  lemma MethodsComplete(p: ClassFile, cf: ClassFile, data: seq<byte>, pos: nat, end: nat)
    requires TablesFit(cf) && At(EncodeFromMethods(cf), data, pos) && end == pos + |EncodeFromMethods(cf)|
    ensures DecodeMethods(data, p, pos) == Some((p.(methods := cf.methods, attributes := cf.attributes), end))
  {
    var mt, at := EncodeMemberTable(cf.methods), EncodeAttributeTable(cf.attributes);
    assert EncodeFromMethods(cf) == mt + at;
    AtSplit(mt, at, data, pos);
    var next := pos + |mt|;
    MemberTableComplete(cf.methods, data, pos, next);
    ClassAttributesComplete(p.(methods := cf.methods), cf.attributes, data, next, end);
    MethodsStep(data, p, pos, cf.methods, next, cf.attributes, end);
  }

  /** The field table decodes once its count, its members and everything after it do. */
  lemma FieldsStep(data: seq<byte>, p: ClassFile, pos: nat, fs: seq<Member>, next: nat, r: ClassFile, end: nat)
    requires pos + 2 <= |data| && ReadU2(data, pos) as nat == |fs|
    requires DecodeMembers(data, pos + 2, |fs|) == Some((fs, next))
    requires DecodeMethods(data, p.(fields := fs), next) == Some((r, end))
    ensures DecodeFields(data, p, pos) == Some((r, end))
  {
  }

  lemma FieldsComplete(p: ClassFile, cf: ClassFile, data: seq<byte>, pos: nat, end: nat)
    requires TablesFit(cf) && At(EncodeFromFields(cf), data, pos) && end == pos + |EncodeFromFields(cf)|
    ensures DecodeFields(data, p, pos)
              == Some((p.(fields := cf.fields, methods := cf.methods, attributes := cf.attributes), end))
  {
    var ft, rest := EncodeMemberTable(cf.fields), EncodeFromMethods(cf);
    assert EncodeFromFields(cf) == ft + rest;
    AtSplit(ft, rest, data, pos);
    var next := pos + |ft|;
    MemberTableComplete(cf.fields, data, pos, next);
    MethodsComplete(p.(fields := cf.fields), cf, data, next, end);
    FieldsStep(data, p, pos, cf.fields, next,
               p.(fields := cf.fields).(methods := cf.methods, attributes := cf.attributes), end);
  }

  /** The four u2 fields in front of the interfaces read back. */
  lemma InfoHeaderReadsBack(cf: ClassFile, data: seq<byte>, pos: nat)
    requires |cf.interfaces| < 0x1_0000 && At(EncodeInfo(cf), data, pos)
    ensures && ReadU2(data, pos) == cf.accessFlags
            && ReadU2(data, pos + 2) == cf.thisClass
            && ReadU2(data, pos + 4) == cf.superClass
            && ReadU2(data, pos + 6) as nat == |cf.interfaces|
            && At(EncodeInterfaces(cf.interfaces), data, pos + 8)
  {
    var f, t, s, c := U2(cf.accessFlags), U2(cf.thisClass), U2(cf.superClass), U2(|cf.interfaces|);
    AtSplit(f + t + s + c, EncodeInterfaces(cf.interfaces), data, pos);
    AtSplit(f + t + s, c, data, pos);
    AtSplit(f + t, s, data, pos);
    AtSplit(f, t, data, pos);
    ReadBackU2(cf.accessFlags, data, pos);
    ReadBackU2(cf.thisClass, data, pos + 2);
    ReadBackU2(cf.superClass, data, pos + 4);
    ReadBackU2(|cf.interfaces| as u16, data, pos + 6);
  }

  /** The class info decodes once its four u2 fields, the interfaces and everything after them do. */
  lemma InfoStep(data: seq<byte>, p: ClassFile, pos: nat, ifaces: seq<u16>, next: nat, r: ClassFile, end: nat)
    requires pos + 8 <= |data| && ReadU2(data, pos + 6) as nat == |ifaces|
    requires DecodeInterfaces(data, pos + 8, |ifaces|) == Some((ifaces, next))
    requires DecodeFields(data, p.(accessFlags := ReadU2(data, pos), thisClass := ReadU2(data, pos + 2),
                                   superClass := ReadU2(data, pos + 4), interfaces := ifaces), next)
             == Some((r, end))
    ensures DecodeInfo(data, p, pos) == Some((r, end))
  {
  }

  lemma InfoComplete(p: ClassFile, cf: ClassFile, data: seq<byte>, pos: nat, end: nat)
    requires |cf.interfaces| < 0x1_0000 && TablesFit(cf) && At(EncodeFromInfo(cf), data, pos)
    requires end == pos + |EncodeFromInfo(cf)|
    ensures DecodeInfo(data, p, pos)
              == Some((p.(accessFlags := cf.accessFlags, thisClass := cf.thisClass, superClass := cf.superClass,
                          interfaces := cf.interfaces, fields := cf.fields, methods := cf.methods,
                          attributes := cf.attributes), end))
  {
    var info, rest := EncodeInfo(cf), EncodeFromFields(cf);
    assert EncodeFromInfo(cf) == info + rest;
    AtSplit(info, rest, data, pos);
    InfoHeaderReadsBack(cf, data, pos);
    var next := pos + |info|;
    assert |info| == 8 + |EncodeInterfaces(cf.interfaces)|;
    InterfacesComplete(cf.interfaces, data, pos + 8);
    var p1 := p.(accessFlags := cf.accessFlags, thisClass := cf.thisClass, superClass := cf.superClass,
                 interfaces := cf.interfaces);
    FieldsComplete(p1, cf, data, next, end);
    InfoStep(data, p, pos, cf.interfaces, next, p1.(fields := cf.fields, methods := cf.methods, attributes := cf.attributes), end);
  }

  /** Magic, versions and the pool count in front of the pool read back. */
  lemma HeadReadsBack(cf: ClassFile, data: seq<byte>)
    requires |cf.constantPool| < 0x1_0000 && At(EncodeHead(cf), data, 0)
    ensures && |data| >= 10
            && ReadU4(data, 0) == cf.magic
            && ReadU2(data, 4) == cf.minorVersion
            && ReadU2(data, 6) == cf.majorVersion
            && ReadU2(data, 8) as nat == |cf.constantPool|
            && At(EncodePool(cf.constantPool), data, 10)
  {
    var m, mi, ma, n := U4(cf.magic), U2(cf.minorVersion), U2(cf.majorVersion), U2(|cf.constantPool|);
    AtSplit(m + mi + ma + n, EncodePool(cf.constantPool), data, 0);
    AtSplit(m + mi + ma, n, data, 0);
    AtSplit(m + mi, ma, data, 0);
    AtSplit(m, mi, data, 0);
    ReadU4OfU4(cf.magic, []);
    assert data[0..4] == m;
    assert ReadU4(data, 0) == ReadU4(m + [], 0);
    ReadBackU2(cf.minorVersion, data, 4);
    ReadBackU2(cf.majorVersion, data, 6);
    ReadBackU2(|cf.constantPool| as u16, data, 8);
  }

  /** The class decodes once its head reads back and its pool and info decode. */
  lemma ClassStep(data: seq<byte>, magic: u32, minor: u16, major: u16, pool: seq<Slot>, p1: nat, r: ClassFile, end: nat)
    requires |data| >= 10 && magic == MAGIC && ReadU4(data, 0) == magic
    requires ReadU2(data, 4) == minor && ReadU2(data, 6) == major && ReadU2(data, 8) as nat == |pool|
    requires DecodePool(data, 10, |pool|) == Some((pool, p1))
    requires DecodeInfo(data, ClassFile(magic, minor, major, pool, 0, 0, 0, [], [], [], []), p1) == Some((r, end))
    ensures DecodeClass(data) == Some((r, end))
  {
  }

  /** The head of a class as generate writes it reads back, and the pool decodes. */
  lemma HeadComplete(cf: ClassFile, data: seq<byte>, end: nat) returns (p1: nat)
    requires |cf.constantPool| < 0x1_0000 && WellFormedPool(cf.constantPool) && |cf.interfaces| < 0x1_0000
    requires TablesFit(cf) && At(EncodeHead(cf) + EncodeFromInfo(cf), data, 0)
    requires end == |EncodeHead(cf)| + |EncodeFromInfo(cf)|
    ensures && |data| >= 10
            && ReadU4(data, 0) == cf.magic
            && ReadU2(data, 4) == cf.minorVersion
            && ReadU2(data, 6) == cf.majorVersion
            && ReadU2(data, 8) as nat == |cf.constantPool|
    ensures DecodePool(data, 10, |cf.constantPool|) == Some((cf.constantPool, p1))
    ensures At(EncodeFromInfo(cf), data, p1) && end == p1 + |EncodeFromInfo(cf)|
  {
    var head, rest := EncodeHead(cf), EncodeFromInfo(cf);
    AtSplit(head, rest, data, 0);
    HeadReadsBack(cf, data);
    PoolComplete(cf.constantPool, data, 10);
    p1 := 10 + |EncodePool(cf.constantPool)|;
  }

  /** A class as generate writes it, placed at the start of `data`, decodes. */
  lemma ClassComplete(cf: ClassFile, data: seq<byte>, end: nat)
    requires WellFormed(cf) && At(EncodeHead(cf) + EncodeFromInfo(cf), data, 0)
    requires end == |EncodeHead(cf)| + |EncodeFromInfo(cf)|
    ensures DecodeClass(data) == Some((cf, end))
  {
    var p1 := HeadComplete(cf, data, end);
    var cf0 := ClassFile(cf.magic, cf.minorVersion, cf.majorVersion, cf.constantPool, 0, 0, 0, [], [], [], []);
    InfoComplete(cf0, cf, data, p1, end);
    assert cf0.(accessFlags := cf.accessFlags, thisClass := cf.thisClass, superClass := cf.superClass,
                interfaces := cf.interfaces, fields := cf.fields, methods := cf.methods,
                attributes := cf.attributes) == cf;
    ClassStep(data, cf.magic, cf.minorVersion, cf.majorVersion, cf.constantPool, p1, cf, end);
  }

  /**
   * Whatever generate writes for a well-formed class parses back to that
   * class, consuming every byte.
   */
  lemma DecodeClassComplete(cf: ClassFile)
    requires WellFormed(cf)
    ensures DecodeClass(EncodeClass(cf)) == Some((cf, |EncodeClass(cf)|))
  {
    var data := EncodeClass(cf);
    assert At(data, data, 0);
    ClassComplete(cf, data, |data|);
  }

  /** classfile_parse of what classfile_generate writes for a well-formed class is that class. */
  lemma ParseOfEncode(cf: ClassFile)
    requires WellFormed(cf)
    ensures Parse(EncodeClass(cf)) == Some(cf)
  {
    DecodeClassComplete(cf);
  }

  /**
   * An input that parses and has nothing after the class is reproduced
   * byte for byte by generate.
   */
  lemma EncodeOfParse(data: seq<byte>)
    requires DecodeClass(data).Some? && DecodeClass(data).value.1 == |data|
    ensures WellFormed(Parse(data).value) && EncodeClass(Parse(data).value) == data
  {
    DecodeClassSound(data);
    assert data[..|data|] == data;
  }
}
