/**
 * The Sv39 page table entry as a 64-bit word (section 4.4 of the RISC-V Privileged
 * Specification v1.12, without the Svpbmt extension), and the meaning PageTable gives it.
 */
module PteEncoding {
  import opened PageTable

  type Word64 = bv64

  const PTE_ADDR_MSK: bv64 := 0x00ff_ffff_ffff_f000
  const PTE_FLAGS_MSK: bv64 := 0xff
  const PTE_RSW_MSK: bv64 := 0x300
  const PTE_VALID: bv64 := 1
  const PTE_TABLE: bv64 := 1
  const PTE_PAGE: bv64 := 0xf
  const PTE_RSW_RSRV: bv64 := 0x300

  function PteWord(addr: Word64, kind: Word64, flags: Word64): Word64 {
    ((addr & PTE_ADDR_MSK) >> 2) | ((if kind == PTE_TABLE then kind else kind | flags) & PTE_FLAGS_MSK)
  }

  function PteAddr(w: Word64): Word64 {
    (w << 2) & PTE_ADDR_MSK
  }

  predicate PteValid(w: Word64) {
    w & PTE_VALID != 0
  }

  function PteWithRsw(w: Word64, rsw: Word64): Word64 {
    (w & !PTE_RSW_MSK) | (rsw & PTE_RSW_MSK)
  }

  predicate PteCheckRsw(w: Word64, rsw: Word64) {
    w & PTE_RSW_MSK == rsw & PTE_RSW_MSK
  }

  predicate PteIsTable(w: Word64) {
    w & 0xf == PTE_VALID
  }

  function Frame(addr: Word64): nat {
    (addr >> 12) as nat
  }

  /** What the walker makes of a word. */
  function Decode(w: Word64): Pte {
    if !PteValid(w) then Invalid(((w & PTE_RSW_MSK) >> 8) as nat)
    else if PteIsTable(w) then Table(Frame(PteAddr(w)))
    else Leaf(Frame(PteAddr(w)), (w & PTE_FLAGS_MSK) as nat)
  }

  // ----- the layout of section 4.4: bits 53..10 hold the frame, 9..8 are for software, 7..0 are flags

  /** The frame the hardware reads from a word. */
  function HardwareBits(w: Word64): Word64 {
    (w >> 10) & 0xfff_ffff_ffff
  }

  function HardwareFrame(w: Word64): nat {
    HardwareBits(w) as nat
  }

  /** A frame address: a multiple of 4096 of 56 bits. */
  predicate IsFrameAddr(addr: Word64) {
    addr & 0xfff == 0 && addr >> 56 == 0
  }

  /** pte_set puts the frame into bits 53..10, the type and flags below it, and nothing above it. */
  lemma WordLayout(addr: Word64, kind: Word64, flags: Word64)
    ensures PteWord(addr, kind, flags) >> 10 == (addr >> 12) & 0xfff_ffff_ffff && PteWord(addr, kind, flags) >> 54 == 0
    ensures PteWord(addr, kind, flags) & 0x300 == 0
    ensures PteWord(addr, kind, flags) & 0xff == (if kind == 1 then 1 else (kind | flags) & 0xff)
  {
  }

  /** pte_addr is the address of the frame in bits 53..10, whatever the other bits are. */
  lemma AddrLayout(w: Word64)
    ensures PteAddr(w) >> 12 == (w >> 10) & 0xfff_ffff_ffff && PteAddr(w) & 0xfff == 0
  {
  }

  /** An entry is valid if V is set, and then a table if R, W and X are clear. */
  lemma KindLayout(w: Word64)
    ensures PteValid(w) <==> w & 1 == 1
    ensures PteIsTable(w) <==> w & 1 == 1 && w & 2 == 0 && w & 4 == 0 && w & 8 == 0
  {
  }

  /** The walker and the hardware read the same frame. */
  lemma FrameLayout(w: Word64)
    ensures Frame(PteAddr(w)) == HardwareFrame(w)
  {
    hide PteAddr, HardwareBits, Frame, HardwareFrame;
    FrameIs(w, PteAddr(w), HardwareBits(w)) by { AddrShift(w); }
  }

  lemma AddrShift(w: Word64)
    ensures PteAddr(w) >> 12 == HardwareBits(w)
  {
  }

  lemma FrameIs(w: Word64, addr: Word64, bits: Word64)
    requires addr >> 12 == bits && bits == HardwareBits(w)
    ensures Frame(addr) == HardwareFrame(w)
  {
    hide HardwareBits;
  }

  /** The hardware reads the frame that was written. */
  lemma FrameWritten(addr: Word64, kind: Word64, flags: Word64)
    requires IsFrameAddr(addr)
    ensures HardwareBits(PteWord(addr, kind, flags)) << 12 == addr
  {
    WordLayout(addr, kind, flags);
  }

  /** A frame address and the page flags survive pte_set; no reservation bit is left behind. */
  lemma PageRoundTrip(addr: Word64, flags: Word64)
    requires IsFrameAddr(addr)
    ensures Decode(PteWord(addr, PTE_PAGE, flags)) ==
            Leaf(HardwareFrame(PteWord(addr, PTE_PAGE, flags)), ((0xf | flags) & 0xff) as nat)
    ensures HardwareBits(PteWord(addr, PTE_PAGE, flags)) << 12 == addr
  {
    hide PteAddr, HardwareBits, Frame, HardwareFrame, PteWord;
    var w := PteWord(addr, PTE_PAGE, flags);
    PageBits(addr, flags, w);
    FrameLayout(w);
    FrameWritten(addr, PTE_PAGE, flags);
  }

  lemma PageBits(addr: Word64, flags: Word64, w: Word64)
    requires w == PteWord(addr, PTE_PAGE, flags)
    ensures PteValid(w) && !PteIsTable(w) && w & PTE_FLAGS_MSK == (0xf | flags) & 0xff
  {
    WordLayout(addr, PTE_PAGE, flags);
    assert w & 0xf == 0xf && w & 1 == 1;
  }

  /** A table entry keeps no flags, so it is read back as a table whatever they were. */
  lemma TableRoundTrip(addr: Word64, flags: Word64)
    requires IsFrameAddr(addr)
    ensures Decode(PteWord(addr, PTE_TABLE, flags)) == Table(HardwareFrame(PteWord(addr, PTE_TABLE, flags)))
    ensures HardwareBits(PteWord(addr, PTE_TABLE, flags)) << 12 == addr
  {
    hide PteAddr, HardwareBits, Frame, HardwareFrame, PteWord;
    var w := PteWord(addr, PTE_TABLE, flags);
    TableBits(addr, flags, w);
    FrameLayout(w);
    FrameWritten(addr, PTE_TABLE, flags);
  }

  lemma TableBits(addr: Word64, flags: Word64, w: Word64)
    requires w == PteWord(addr, PTE_TABLE, flags)
    ensures PteValid(w) && PteIsTable(w)
  {
    WordLayout(addr, PTE_TABLE, flags);
    assert w & 0xf == 1 && w & 1 == 1;
  }

  /** pte_set_rsw writes bits 9..8 and keeps all others. */
  lemma RswLayout(w: Word64, rsw: Word64)
    ensures PteWithRsw(w, rsw) & 0x300 == rsw & 0x300
    ensures PteWithRsw(w, rsw) & 0xffff_ffff_ffff_fcff == w & 0xffff_ffff_ffff_fcff
  {
  }

  /** pte_check_rsw compares these two bits. */
  lemma RswChecked(w: Word64, rsw: Word64)
    ensures PteCheckRsw(w, rsw) <==> w & 0x300 == rsw & 0x300
  {
  }

  /** Reserving an entry changes its reservation bits and nothing else the walker reads. */
  lemma RswRoundTrip(w: Word64, rsw: Word64)
    ensures PteCheckRsw(PteWithRsw(w, rsw), rsw)
    ensures PteValid(w) ==> Decode(PteWithRsw(w, rsw)) == Decode(w)
    ensures !PteValid(w) ==> Decode(PteWithRsw(w, rsw)) == Invalid(((rsw & 0x300) >> 8) as nat)
    ensures !PteValid(w) ==> (PteCheckRsw(w, PTE_RSW_RSRV) <==> Decode(w) == Invalid(RSW_RSRV))
  {
    var u := PteWithRsw(w, rsw);
    RswBits(w, rsw);
    if !PteValid(w) {
      RswValue(w & PTE_RSW_MSK);
    }
  }

  lemma RswBits(w: Word64, rsw: Word64)
    ensures PteWithRsw(w, rsw) & PTE_RSW_MSK == rsw & PTE_RSW_MSK
    ensures PteAddr(PteWithRsw(w, rsw)) == PteAddr(w)
    ensures PteWithRsw(w, rsw) & PTE_FLAGS_MSK == w & PTE_FLAGS_MSK
    ensures PteWithRsw(w, rsw) & 0xf == w & 0xf && PteWithRsw(w, rsw) & 1 == w & 1
  {
  }

  lemma RswValue(bits: Word64)
    requires bits & PTE_RSW_MSK == bits
    ensures (bits >> 8) as nat == 3 <==> bits == PTE_RSW_RSRV
  {
    var b := bits >> 8;
    assert b == 0 || b == 1 || b == 2 || b == 3;
    assert b == 3 <==> bits == 0x300;
  }
}
