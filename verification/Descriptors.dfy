/** VMSAv8-64 stage 1 translation table descriptors, 4 KiB granule (src/arm/mmu/mmu_dc.h).

A 64-bit descriptor word is kept as the three bit ranges that every mask of the source respects:
`hi` is bits 63:48, `frame` is bits 47:12 (the output address divided by the page size) and
`lo` is bits 11:0. Field getters and setters work on the bits of `lo` and `hi`.
*/
module Descriptors {

  const PAGE_SIZE: nat := 0x1000
  const FRAMES: nat := 0x10_0000_0000
  const ADDRESS_SPACE: nat := 0x1_0000_0000_0000
  const MAX_LEVEL: nat := 3

  type Frame = f: nat | f < FRAMES

  datatype Word = Word(hi: bv16, frame: Frame, lo: bv12)

  const NULL_WORD := Word(0, 0, 0)

  datatype PageCfg = PageCfg(attrIndex: bv8, ap: bv2, shareability: bv8, nonSecure: bool,
                             accessFlag: bool, pxn: bool, uxn: bool, sw: bv8)

  /** BadType stands for the failed assertion of `dc_get_type` on a last-level word whose type bit is clear. */
  datatype Kind = Block | Table | Page | BadType

  function Bit(b: bool): bv16 {
    if b then 1 else 0
  }

  function BitLo(b: bool): bv12 {
    if b then 1 else 0
  }

  // Getters

  predicate Valid(w: Word) {
    w.lo & 1 == 1
  }

  function KindAt(w: Word, level: nat): Kind {
    var typeBit := (w.lo >> 1) & 1;
    if level == MAX_LEVEL then
      if typeBit == 1 then Page else BadType
    else if typeBit == 0 then Block else Table
  }

  function AttrIndex(w: Word): bv8 {
    ((w.lo >> 2) & 0x7) as bv8
  }

  predicate NonSecure(w: Word) {
    (w.lo >> 5) & 1 == 1
  }

  function AccessPermissions(w: Word): bv2 {
    ((w.lo >> 6) & 0x3) as bv2
  }

  function Shareability(w: Word): bv8 {
    ((w.lo >> 8) & 0x3) as bv8
  }

  predicate AccessFlag(w: Word) {
    (w.lo >> 10) & 1 == 1
  }

  predicate PrivilegedExecuteNever(w: Word) {
    (w.hi >> 5) & 1 == 1
  }

  predicate UnprivilegedExecuteNever(w: Word) {
    (w.hi >> 6) & 1 == 1
  }

  function SoftwareDefined(w: Word): bv8 {
    ((w.hi >> 7) & 0xF) as bv8
  }

  function OutputAddress(w: Word): nat {
    w.frame * PAGE_SIZE
  }

  // Setters

  function SetValid(w: Word, v: bool): Word {
    w.(lo := (w.lo & !0x001) | BitLo(v))
  }

  function SetKind(w: Word, k: Kind): Word {
    w.(lo := (w.lo & !0x002) | (BitLo(k != Block) << 1))
  }

  function SetAttrIndex(w: Word, x: bv8): Word {
    w.(lo := (w.lo & !0x01C) | ((x as bv12 & 0x7) << 2))
  }

  function SetNonSecure(w: Word, v: bool): Word {
    w.(lo := (w.lo & !0x020) | (BitLo(v) << 5))
  }

  function SetAccessPermissions(w: Word, x: bv2): Word {
    w.(lo := (w.lo & !0x0C0) | (x as bv12 << 6))
  }

  function SetShareability(w: Word, x: bv8): Word {
    w.(lo := (w.lo & !0x300) | ((x as bv12 & 0x3) << 8))
  }

  function SetAccessFlag(w: Word, v: bool): Word {
    w.(lo := (w.lo & !0x400) | (BitLo(v) << 10))
  }

  function SetOutputAddress(w: Word, pa: nat): Word {
    w.(frame := pa / PAGE_SIZE % FRAMES)
  }

  function SetPrivilegedExecuteNever(w: Word, v: bool): Word {
    w.(hi := (w.hi & !0x0020) | (Bit(v) << 5))
  }

  function SetUnprivilegedExecuteNever(w: Word, v: bool): Word {
    w.(hi := (w.hi & !0x0040) | (Bit(v) << 6))
  }

  function SetSoftwareDefined(w: Word, x: bv8): Word {
    w.(hi := (w.hi & !0x0780) | ((x as bv16 & 0xF) << 7))
  }

  // Builders

  function TableDescriptor(pa: nat): Word {
    SetValid(SetOutputAddress(SetKind(NULL_WORD, Table), pa), true)
  }

  function BlockDescriptor(cfg: PageCfg, pa: nat, level: nat): Word {
    var w := SetValid(NULL_WORD, true);
    var w := SetKind(w, if level == MAX_LEVEL then Page else Block);
    var w := SetAttrIndex(w, cfg.attrIndex);
    var w := SetNonSecure(w, cfg.nonSecure);
    var w := SetAccessPermissions(w, cfg.ap);
    var w := SetShareability(w, cfg.shareability);
    var w := SetAccessFlag(w, cfg.accessFlag);
    var w := SetOutputAddress(w, pa);
    var w := SetPrivilegedExecuteNever(w, cfg.pxn);
    var w := SetUnprivilegedExecuteNever(w, cfg.uxn);
    SetSoftwareDefined(w, cfg.sw)
  }

  function CfgOf(w: Word): PageCfg {
    PageCfg(AttrIndex(w), AccessPermissions(w), Shareability(w), NonSecure(w), AccessFlag(w),
            PrivilegedExecuteNever(w), UnprivilegedExecuteNever(w), SoftwareDefined(w))
  }

  /** The attributes a descriptor can hold: 3 bits of index, 2 of shareability, 4 of software use. */
  predicate InWidth(cfg: PageCfg) {
    cfg.attrIndex < 8 && cfg.shareability < 4 && cfg.sw < 16
  }

  /** What remains of a configuration once its fields are cut to the descriptor's widths. */
  function Truncated(cfg: PageCfg): PageCfg {
    cfg.(attrIndex := cfg.attrIndex & 0x7, shareability := cfg.shareability & 0x3, sw := cfg.sw & 0xF)
  }

  lemma BlockDescriptorHeader(cfg: PageCfg, pa: nat, level: nat)
    ensures var w := BlockDescriptor(cfg, pa, level);
            && Valid(w)
            && KindAt(w, level) == (if level == MAX_LEVEL then Page else Block)
            && w.frame == pa / PAGE_SIZE % FRAMES
  {
  }

  /** Every attribute getter inverts the builder, up to the field widths. */
  lemma BlockDescriptorCfg(cfg: PageCfg, pa: nat, level: nat)
    ensures CfgOf(BlockDescriptor(cfg, pa, level)) == Truncated(cfg)
  {
  }

  /** A configuration survives being stored exactly when its fields fit. */
  lemma StoredCfgExact(cfg: PageCfg, pa: nat, level: nat)
    ensures CfgOf(BlockDescriptor(cfg, pa, level)) == cfg <==> InWidth(cfg)
  {
    BlockDescriptorCfg(cfg, pa, level);
  }

  /** Attributes read back from a word always fit, so storing them again loses nothing. */
  lemma ReadCfgInWidth(w: Word)
    ensures InWidth(CfgOf(w)) && Truncated(CfgOf(w)) == CfgOf(w)
  {
  }

  lemma TableDescriptorHeader(frame: nat, level: nat)
    requires frame < FRAMES && level < MAX_LEVEL
    ensures var w := TableDescriptor(frame * PAGE_SIZE);
            Valid(w) && KindAt(w, level) == Table && w.frame == frame
  {
  }
}
