/** The 64-bit translation descriptors of kernel/memory/mmu.c, bit by bit.

    The page-table model keeps a descriptor as (type, frame, attribute bits).
    This module shows that the packed words the kernel writes carry exactly
    those three parts, and what the attribute bits mean to the hardware. */
module Descriptors {

  const ADDR_MASK: bv64 := 0x000F_FFFF_FFFF_F000
  const PXN: bv64 := 0x0020_0000_0000_0000
  const UXN: bv64 := 0x0040_0000_0000_0000
  const AF: bv64 := 0x400
  const NG: bv64 := 0x800
  const AP_MASK: bv64 := 0xC0
  const SH_MASK: bv64 := 0x300
  const ATTR_INDEX_MASK: bv64 := 0x1C
  const TYPE_MASK: bv64 := 0x3

  const MEM_RW: bv8 := 1
  const MEM_EXEC: bv8 := 2
  const MEM_DEV: bv8 := 4

  datatype Privilege = User | Kernel | Shared

  /** make_pte */
  function MakePte(pa: bv64, attrIndex: bv64, memAttr: bv8, level: Privilege, ty: bv64): bv64 {
    (pa & ADDR_MASK) | Attributes(attrIndex, memAttr, level) | ty
  }

  /** The part of make_pte that is neither address nor type. */
  function Attributes(attrIndex: bv64, memAttr: bv8, level: Privilege): bv64 {
    var sh: bv64 := if memAttr & MEM_DEV != 0 then 0 else 3;
    var writable := memAttr & MEM_RW != 0;
    var ap: bv64 := if level.Kernel? then (if writable then 0 else 2) else (if writable then 1 else 3);
    var attr := AF | (sh << 8) | (ap << 6) | (attrIndex << 2);
    var noExec := memAttr & MEM_EXEC == 0;
    if level.Kernel? then
      attr | UXN | (if noExec then PXN else 0)
    else
      attr | NG | PXN | (if noExec then UXN else 0)
  }

  function WithAf(attr: bv64): bv64 { attr | AF }

  /** The three parts do not overlap, so each can be read back: the masks used
      all over mmu.c recover what make_pte was given. */
  lemma PartsRecovered(pa: bv64, attrIndex: bv64, memAttr: bv8, level: Privilege, ty: bv64)
    requires attrIndex < 8 && ty <= 3
    ensures var w := MakePte(pa, attrIndex, memAttr, level, ty);
            && w & ADDR_MASK == pa & ADDR_MASK
            && w & TYPE_MASK == ty
            && (w & !ADDR_MASK) & !TYPE_MASK == Attributes(attrIndex, memAttr, level)
            && (w & ATTR_INDEX_MASK) >> 2 == attrIndex
  {
    var a := Attributes(attrIndex, memAttr, level);
    assert a & ADDR_MASK == 0 && a & TYPE_MASK == 0 && (a & ATTR_INDEX_MASK) >> 2 == attrIndex;
  }

  /** Comparing two words outside address and access flag, as the remap checks
      do, is comparing their attributes outside the access flag. */
  lemma WordDiffIsAttrDiff(v: bv64, w: bv64)
    requires v & TYPE_MASK == w & TYPE_MASK
    ensures (v ^ w) & !(ADDR_MASK | AF)
         == (((v & !ADDR_MASK) & !TYPE_MASK) ^ ((w & !ADDR_MASK) & !TYPE_MASK)) & !AF
  {
  }

  /** What stage 1 permissions of VMSAv8-64 grant for an attribute word. */
  datatype Rights = Rights(userRead: bool, userWrite: bool, userExec: bool, kernelWrite: bool, kernelExec: bool)

  function RightsOf(attr: bv64): Rights {
    var el0 := attr & 0x40 != 0;
    var readOnly := attr & 0x80 != 0;
    Rights(el0, el0 && !readOnly, attr & UXN == 0, !readOnly, attr & PXN == 0)
  }

  lemma GrantedRights(attrIndex: bv64, memAttr: bv8, level: Privilege)
    requires attrIndex < 8
    ensures var r := RightsOf(Attributes(attrIndex, memAttr, level));
            var rw, ex := memAttr & MEM_RW != 0, memAttr & MEM_EXEC != 0;
            r == if level.Kernel? then Rights(false, false, false, rw, ex) else Rights(true, rw, ex, rw, false)
  {
    var a := Attributes(attrIndex, memAttr, level);
    assert a & UXN == 0 <==> !level.Kernel? && memAttr & MEM_EXEC != 0;
  }

  /** Entries of user and shared pages belong to an address-space identifier, those of
      kernel pages to all: bit 11. Bits 9 and 8 make normal memory inner shareable and
      device memory not shareable. A new page has its access flag, bit 10. */
  lemma GivenSharing(attrIndex: bv64, memAttr: bv8, level: Privilege)
    requires attrIndex < 8
    ensures var a := Attributes(attrIndex, memAttr, level);
            && (a & 0x800 != 0 <==> !level.Kernel?) && a & 0x400 != 0
            && (a >> 8) & 3 == (if memAttr & 4 != 0 then 0 else 3)
            && (a >> 2) & 7 == attrIndex
  {
    var a := Attributes(attrIndex, memAttr, level);
    assert (attrIndex << 2) & 0xF00 == 0;
    assert (a >> 8) & 3 == (a & 0x300) >> 8;
  }
}
