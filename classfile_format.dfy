/**
 * The parsed class file of include/classfile.h (chapter 4 of the Java
 * Virtual Machine Specification) and its byte encoding, which is exactly
 * what classfile_generate writes.
 *
 * The C structs carry explicit counts next to their arrays
 * (constant_pool_count, attributes_count, ...); here every count is the
 * length of the sequence it describes, and `Fits` says that each count
 * still fits the 16-bit (or, for an attribute's length, 32-bit) field it
 * is written to.
 */
module ClassfileFormat {
  import opened Wrappers
  import opened Bytes

  const MAGIC: u32 := 0xCAFE_BABE
  const ACC_NATIVE: u16 := 0x0100

  const CONSTANT_Utf8: byte := 1
  const CONSTANT_Integer: byte := 3
  const CONSTANT_Float: byte := 4
  const CONSTANT_Long: byte := 5
  const CONSTANT_Double: byte := 6
  const CONSTANT_Class: byte := 7
  const CONSTANT_String: byte := 8
  const CONSTANT_Fieldref: byte := 9
  const CONSTANT_Methodref: byte := 10
  const CONSTANT_InterfaceMethodref: byte := 11
  const CONSTANT_NameAndType: byte := 12
  const CONSTANT_MethodHandle: byte := 15
  const CONSTANT_MethodType: byte := 16
  const CONSTANT_InvokeDynamic: byte := 18

  /** The fourteen tags the parser accepts (include/classfile.h). */
  predicate KnownTag(tag: byte) {
    tag in {CONSTANT_Utf8, CONSTANT_Integer, CONSTANT_Float, CONSTANT_Long, CONSTANT_Double,
            CONSTANT_Class, CONSTANT_String, CONSTANT_Fieldref, CONSTANT_Methodref,
            CONSTANT_InterfaceMethodref, CONSTANT_NameAndType, CONSTANT_MethodHandle,
            CONSTANT_MethodType, CONSTANT_InvokeDynamic}
  }

  /** Long and Double constants occupy two constant-pool indices. */
  predicate IsWide(tag: byte) {
    tag == CONSTANT_Long || tag == CONSTANT_Double
  }

  /** attribute_t: name index and payload; its length is |info|. */
  datatype Attribute = Attribute(nameIndex: u16, info: seq<byte>)

  /** method_t, used for both fields and methods. */
  datatype Member = Member(accessFlags: u16, nameIndex: u16, descriptorIndex: u16, attributes: seq<Attribute>)

  /**
   * One constant_pool slot (cp_entry_t): the entry's verbatim bytes, tag
   * included, or None for an empty slot (index 0, and the first of the two
   * slots a Long or Double occupies).
   */
  type Slot = Option<seq<byte>>

  datatype ClassFile = ClassFile(
    magic: u32,
    minorVersion: u16,
    majorVersion: u16,
    constantPool: seq<Slot>,
    accessFlags: u16,
    thisClass: u16,
    superClass: u16,
    interfaces: seq<u16>,
    fields: seq<Member>,
    methods: seq<Member>,
    attributes: seq<Attribute>)

  ghost predicate AttributeFits(a: Attribute) {
    |a.info| < 0x1_0000_0000
  }

  ghost predicate AllAttributesFit(attrs: seq<Attribute>) {
    forall a <- attrs :: AttributeFits(a)
  }

  ghost predicate MemberFits(m: Member) {
    |m.attributes| < 0x1_0000 && AllAttributesFit(m.attributes)
  }

  ghost predicate AllMembersFit(ms: seq<Member>) {
    forall m <- ms :: MemberFits(m)
  }

  /** The member and attribute tables of `cf` fit the counts and lengths classfile_generate writes. */
  ghost predicate TablesFit(cf: ClassFile) {
    && |cf.fields| < 0x1_0000 && AllMembersFit(cf.fields)
    && |cf.methods| < 0x1_0000 && AllMembersFit(cf.methods)
    && |cf.attributes| < 0x1_0000 && AllAttributesFit(cf.attributes)
  }

  /** Every count and length of `cf` fits the field classfile_generate writes it to. */
  ghost predicate Fits(cf: ClassFile) {
    |cf.constantPool| < 0x1_0000 && |cf.interfaces| < 0x1_0000 && TablesFit(cf)
  }

  ghost function EncodeAttribute(a: Attribute): seq<byte>
    requires AttributeFits(a)
  {
    U2(a.nameIndex) + U4(|a.info|) + a.info
  }

  ghost function EncodeAttributes(attrs: seq<Attribute>): seq<byte>
    requires AllAttributesFit(attrs)
  {
    if attrs == [] then [] else EncodeAttribute(attrs[0]) + EncodeAttributes(attrs[1..])
  }

  ghost function EncodeMember(m: Member): seq<byte>
    requires MemberFits(m)
  {
    U2(m.accessFlags) + U2(m.nameIndex) + U2(m.descriptorIndex) + U2(|m.attributes|)
      + EncodeAttributes(m.attributes)
  }

  ghost function EncodeMembers(ms: seq<Member>): seq<byte>
    requires AllMembersFit(ms)
  {
    if ms == [] then [] else EncodeMember(ms[0]) + EncodeMembers(ms[1..])
  }

  ghost function EncodeInterfaces(ifaces: seq<u16>): seq<byte> {
    if ifaces == [] then [] else U2(ifaces[0]) + EncodeInterfaces(ifaces[1..])
  }

  /** The bytes a slot contributes: its verbatim entry, or nothing when empty. */
  ghost function SlotBytes(s: Slot): seq<byte> {
    if s.Some? then s.value else []
  }

  ghost function EncodeSlots(slots: seq<Slot>): seq<byte> {
    if slots == [] then [] else SlotBytes(slots[0]) + EncodeSlots(slots[1..])
  }

  /** The constant pool as written: slots 1 .. count-1, empty ones skipped. */
  ghost function EncodePool(pool: seq<Slot>): seq<byte> {
    if pool == [] then [] else EncodeSlots(pool[1..])
  }

  /** The bytes classfile_generate writes for `cf`, in its order, section by section. */
  ghost function EncodeClass(cf: ClassFile): seq<byte>
    requires Fits(cf)
  {
    EncodeHead(cf) + EncodeFromInfo(cf)
  }

  /** Magic, versions, pool count and the pool (src/classfile.c:341-352). */
  ghost function EncodeHead(cf: ClassFile): seq<byte>
    requires |cf.constantPool| < 0x1_0000
  {
    U4(cf.magic) + U2(cf.minorVersion) + U2(cf.majorVersion)
      + U2(|cf.constantPool|) + EncodePool(cf.constantPool)
  }

  /** Access flags, this and super class, and the interfaces (src/classfile.c:354-363). */
  ghost function EncodeInfo(cf: ClassFile): seq<byte>
    requires |cf.interfaces| < 0x1_0000
  {
    U2(cf.accessFlags) + U2(cf.thisClass) + U2(cf.superClass)
      + U2(|cf.interfaces|) + EncodeInterfaces(cf.interfaces)
  }

  /** A member table: its count, then the members (src/classfile.c:365-401). */
  ghost function EncodeMemberTable(ms: seq<Member>): seq<byte>
    requires |ms| < 0x1_0000 && AllMembersFit(ms)
  {
    U2(|ms|) + EncodeMembers(ms)
  }

  /** An attribute table: its count, then the attributes (src/classfile.c:403-411). */
  ghost function EncodeAttributeTable(attrs: seq<Attribute>): seq<byte>
    requires |attrs| < 0x1_0000 && AllAttributesFit(attrs)
  {
    U2(|attrs|) + EncodeAttributes(attrs)
  }

  ghost function EncodeFromInfo(cf: ClassFile): seq<byte>
    requires |cf.interfaces| < 0x1_0000 && TablesFit(cf)
  {
    EncodeInfo(cf) + EncodeFromFields(cf)
  }

  ghost function EncodeFromFields(cf: ClassFile): seq<byte>
    requires TablesFit(cf)
  {
    EncodeMemberTable(cf.fields) + EncodeFromMethods(cf)
  }

  ghost function EncodeFromMethods(cf: ClassFile): seq<byte>
    requires TablesFit(cf)
  {
    EncodeMemberTable(cf.methods) + EncodeAttributeTable(cf.attributes)
  }
}
