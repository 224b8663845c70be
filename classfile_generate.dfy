/**
 * classfile_generate (src/classfile.c:335-415): the class written section
 * by section into a growable buffer, then detached.  Each writer is proved
 * to append exactly the bytes ClassfileFormat assigns to its section.
 *
 * classfile_generate ignores what the appends return; the model lets every
 * reallocation succeed (see README).
 */
module ClassfileGenerate {
  import opened Wrappers
  import opened Bytes
  import opened ClassfileFormat
  import opened ByteBuffer

  /** The initial capacity classfile_generate asks for. */
  const INITIAL_CAPACITY: nat := 8192

  /** Regrouping of appended bytes, the one sequence fact the writers need. */
  lemma Reassoc(a: seq<byte>, b: seq<byte>, c: seq<byte>)
    ensures (a + b) + c == a + (b + c)
  {
  }

  /** One attribute: u2 name index, u4 length, then the payload when there is one. */
  method WriteAttribute(buf: Buffer, a: Attribute)
    requires buf.Valid() && AttributeFits(a)
    modifies buf.Repr
    ensures buf.Valid() && fresh(buf.Repr - old(buf.Repr))
    ensures buf.Contents == old(buf.Contents) + EncodeAttribute(a)
  {
    ghost var c0 := buf.Contents;
    var _ := buf.AppendU2(a.nameIndex, true);
    var _ := buf.AppendU4(|a.info|, true);
    Reassoc(c0, U2(a.nameIndex), U4(|a.info|));
    if |a.info| > 0 {
      var _ := buf.Append(Some(a.info), true);
    }
    Reassoc(c0, U2(a.nameIndex) + U4(|a.info|), a.info);
  }

  /** An attribute table: the count, then each attribute. */
  method WriteAttributeTable(buf: Buffer, attrs: seq<Attribute>)
    requires buf.Valid() && |attrs| < 0x1_0000 && AllAttributesFit(attrs)
    modifies buf.Repr
    ensures buf.Valid() && fresh(buf.Repr - old(buf.Repr))
    ensures buf.Contents == old(buf.Contents) + EncodeAttributeTable(attrs)
  {
    ghost var want := buf.Contents + EncodeAttributeTable(attrs);
    Reassoc(buf.Contents, U2(|attrs|), EncodeAttributes(attrs));
    var _ := buf.AppendU2(|attrs|, true);
    var j := 0;
    while j < |attrs|
      invariant 0 <= j <= |attrs|
      invariant buf.Valid() && fresh(buf.Repr - old(buf.Repr))
      invariant buf.Contents + EncodeAttributes(attrs[j..]) == want
    {
      assert attrs[j..][1..] == attrs[j + 1..];
      Reassoc(buf.Contents, EncodeAttribute(attrs[j]), EncodeAttributes(attrs[j + 1..]));
      WriteAttribute(buf, attrs[j]);
      j := j + 1;
    }
  }

  /** One field or method: four u2 fields, then its attribute table. */
  method WriteMember(buf: Buffer, m: Member)
    requires buf.Valid() && MemberFits(m)
    modifies buf.Repr
    ensures buf.Valid() && fresh(buf.Repr - old(buf.Repr))
    ensures buf.Contents == old(buf.Contents) + EncodeMember(m)
  {
    ghost var c0 := buf.Contents;
    var _ := buf.AppendU2(m.accessFlags, true);
    var _ := buf.AppendU2(m.nameIndex, true);
    Reassoc(c0, U2(m.accessFlags), U2(m.nameIndex));
    ghost var w := U2(m.accessFlags) + U2(m.nameIndex);
    var _ := buf.AppendU2(m.descriptorIndex, true);
    Reassoc(c0, w, U2(m.descriptorIndex));
    w := w + U2(m.descriptorIndex);
    WriteAttributeTable(buf, m.attributes);
    Reassoc(c0, w, EncodeAttributeTable(m.attributes));
    Reassoc(w, U2(|m.attributes|), EncodeAttributes(m.attributes));
  }

  /** The field or the method table: the count, then each member. */
  method WriteMemberTable(buf: Buffer, ms: seq<Member>)
    requires buf.Valid() && |ms| < 0x1_0000 && AllMembersFit(ms)
    modifies buf.Repr
    ensures buf.Valid() && fresh(buf.Repr - old(buf.Repr))
    ensures buf.Contents == old(buf.Contents) + EncodeMemberTable(ms)
  {
    ghost var want := buf.Contents + EncodeMemberTable(ms);
    Reassoc(buf.Contents, U2(|ms|), EncodeMembers(ms));
    var _ := buf.AppendU2(|ms|, true);
    var i := 0;
    while i < |ms|
      invariant 0 <= i <= |ms|
      invariant buf.Valid() && fresh(buf.Repr - old(buf.Repr))
      invariant buf.Contents + EncodeMembers(ms[i..]) == want
    {
      assert ms[i..][1..] == ms[i + 1..];
      Reassoc(buf.Contents, EncodeMember(ms[i]), EncodeMembers(ms[i + 1..]));
      WriteMember(buf, ms[i]);
      i := i + 1;
    }
  }

  /** The constant pool entries 1 .. count-1, each verbatim; empty slots write nothing. */
  method WriteSlots(buf: Buffer, pool: seq<Slot>)
    requires buf.Valid()
    modifies buf.Repr
    ensures buf.Valid() && fresh(buf.Repr - old(buf.Repr))
    ensures buf.Contents == old(buf.Contents) + EncodePool(pool)
  {
    if pool != [] {
      ghost var want := buf.Contents + EncodeSlots(pool[1..]);
      var i := 1;
      while i < |pool|
        invariant 1 <= i <= |pool|
        invariant buf.Valid() && fresh(buf.Repr - old(buf.Repr))
        invariant buf.Contents + EncodeSlots(pool[i..]) == want
      {
        assert pool[i..][1..] == pool[i + 1..];
        Reassoc(buf.Contents, SlotBytes(pool[i]), EncodeSlots(pool[i + 1..]));
        if pool[i].Some? {
          var _ := buf.Append(pool[i], true);
        }
        i := i + 1;
      }
    }
  }

  /** The interface indices, one u2 each. */
  method WriteInterfaces(buf: Buffer, ifaces: seq<u16>)
    requires buf.Valid()
    modifies buf.Repr
    ensures buf.Valid() && fresh(buf.Repr - old(buf.Repr))
    ensures buf.Contents == old(buf.Contents) + EncodeInterfaces(ifaces)
  {
    ghost var want := buf.Contents + EncodeInterfaces(ifaces);
    var i := 0;
    while i < |ifaces|
      invariant 0 <= i <= |ifaces|
      invariant buf.Valid() && fresh(buf.Repr - old(buf.Repr))
      invariant buf.Contents + EncodeInterfaces(ifaces[i..]) == want
    {
      assert ifaces[i..][1..] == ifaces[i + 1..];
      Reassoc(buf.Contents, U2(ifaces[i]), EncodeInterfaces(ifaces[i + 1..]));
      var _ := buf.AppendU2(ifaces[i], true);
      i := i + 1;
    }
  }

  /** Magic, versions, the pool count and the non-empty pool entries verbatim. */
  method WriteHead(buf: Buffer, cf: ClassFile)
    requires buf.Valid() && |cf.constantPool| < 0x1_0000
    modifies buf.Repr
    ensures buf.Valid() && fresh(buf.Repr - old(buf.Repr))
    ensures buf.Contents == old(buf.Contents) + EncodeHead(cf)
  {
    ghost var c0 := buf.Contents;
    var _ := buf.AppendU4(cf.magic, true);
    var _ := buf.AppendU2(cf.minorVersion, true);
    Reassoc(c0, U4(cf.magic), U2(cf.minorVersion));
    ghost var w := U4(cf.magic) + U2(cf.minorVersion);
    var _ := buf.AppendU2(cf.majorVersion, true);
    Reassoc(c0, w, U2(cf.majorVersion));
    w := w + U2(cf.majorVersion);
    var _ := buf.AppendU2(|cf.constantPool|, true);
    Reassoc(c0, w, U2(|cf.constantPool|));
    w := w + U2(|cf.constantPool|);
    WriteSlots(buf, cf.constantPool);
    Reassoc(c0, w, EncodePool(cf.constantPool));
  }

  /** Access flags, this and super class, the interface count and the interfaces. */
  method WriteInfo(buf: Buffer, cf: ClassFile)
    requires buf.Valid() && |cf.interfaces| < 0x1_0000
    modifies buf.Repr
    ensures buf.Valid() && fresh(buf.Repr - old(buf.Repr))
    ensures buf.Contents == old(buf.Contents) + EncodeInfo(cf)
  {
    ghost var c0 := buf.Contents;
    var _ := buf.AppendU2(cf.accessFlags, true);
    var _ := buf.AppendU2(cf.thisClass, true);
    Reassoc(c0, U2(cf.accessFlags), U2(cf.thisClass));
    ghost var w := U2(cf.accessFlags) + U2(cf.thisClass);
    var _ := buf.AppendU2(cf.superClass, true);
    Reassoc(c0, w, U2(cf.superClass));
    w := w + U2(cf.superClass);
    var _ := buf.AppendU2(|cf.interfaces|, true);
    Reassoc(c0, w, U2(|cf.interfaces|));
    w := w + U2(|cf.interfaces|);
    WriteInterfaces(buf, cf.interfaces);
    Reassoc(c0, w, EncodeInterfaces(cf.interfaces));
  }

  /** Every section in classfile_generate's order. */
  method WriteClass(buf: Buffer, cf: ClassFile)
    requires buf.Valid() && Fits(cf)
    modifies buf.Repr
    ensures buf.Valid() && fresh(buf.Repr - old(buf.Repr))
    ensures buf.Contents == old(buf.Contents) + EncodeClass(cf)
  {
    ghost var c0 := buf.Contents;
    ghost var h, i, f, m, a := EncodeHead(cf), EncodeInfo(cf), EncodeMemberTable(cf.fields),
      EncodeMemberTable(cf.methods), EncodeAttributeTable(cf.attributes);
    WriteHead(buf, cf);
    WriteInfo(buf, cf);
    Reassoc(c0, h, i);
    WriteMemberTable(buf, cf.fields);
    Reassoc(c0, h + i, f);
    WriteMemberTable(buf, cf.methods);
    Reassoc(c0, (h + i) + f, m);
    WriteAttributeTable(buf, cf.attributes);
    Reassoc(c0, ((h + i) + f) + m, a);
    Reassoc((h + i) + f, m, a);
    Reassoc(h + i, f, m + a);
    Reassoc(h, i, f + (m + a));
  }

  /**
   * classfile_generate: NULL for a NULL class or when the buffer cannot be
   * created; otherwise exactly the bytes of EncodeClass.
   */
  method ClassfileGenerate(cf: Option<ClassFile>, createOk: bool) returns (out: Option<seq<byte>>)
    requires cf.Some? ==> Fits(cf.value)
    ensures out == if cf.Some? && createOk then Some(EncodeClass(cf.value)) else None
  {
    if cf.None? {
      return None;
    }
    var c := cf.value;
    var buf := Buffer.Create(INITIAL_CAPACITY, createOk);
    if buf == null {
      return None;
    }
    WriteClass(buf, c);
    assert buf.Contents == [] + EncodeClass(c) == EncodeClass(c);
    var block, size := buf.Detach();
    assert size == |EncodeClass(c)| > 0;
    out := Some(block[..size]);
  }
}
