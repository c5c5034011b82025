/** Page-table entries as 64-bit words (section 4.5 of the Intel SDM, Volume 3A), and the record that the rest
    of the model uses for them. */
module PteBits {
  import opened PageTree
  import opened FrameAllocator
  import opened PageTables
  import opened Words

  const ADDR_MASK: bv64 := 0x000F_FFFF_FFFF_F000
  const FLAGS_MASK: bv64 := 0xFFF0_0000_0000_0FFF
  const PRESENT: bv64 := 0x1
  const WRITABLE: bv64 := 0x2
  const USER: bv64 := 0x4
  const CACHE_DISABLE: bv64 := 0x10
  const GLOBAL: bv64 := 0x100
  const COW: bv64 := 0x200
  const NX: bv64 := 0x8000_0000_0000_0000

  /** pte_create. */
  function Create(phys: bv64, flags: bv64): bv64 {
    (phys & ADDR_MASK) | (flags & FLAGS_MASK)
  }

  /** pte_get_addr and pte_get_flags. */
  function GetAddr(pte: bv64): bv64 {
    pte & ADDR_MASK
  }

  function GetFlags(pte: bv64): bv64 {
    pte & FLAGS_MASK
  }

  /** The bits that the code looks at. */
  function FlagsOf(w: bv64): Flags {
    Flags(w & PRESENT != 0, w & WRITABLE != 0, w & USER != 0, w & CACHE_DISABLE != 0, w & GLOBAL != 0, w & COW != 0,
          w & NX != 0)
  }

  /** Address and flags do not disturb each other, and together they are the entry. */
  lemma CreateSplits(phys: bv64, flags: bv64, pte: bv64)
    ensures GetAddr(Create(phys, flags)) == phys & ADDR_MASK && FlagsOf(Create(phys, flags)) == FlagsOf(flags)
    ensures Create(GetAddr(pte), GetFlags(pte)) == pte
  {
    assert ADDR_MASK & FLAGS_MASK == 0 && ADDR_MASK | FLAGS_MASK == 0xFFFF_FFFF_FFFF_FFFF;
  }

  /** The bit operations of mmu_copy_range, mmu_break_cow and get_or_create_table are updates of the record. */
  lemma ShareBits(w: bv64)
    ensures FlagsOf((w & !WRITABLE) | COW) == FlagsOf(w).(writable := false, cow := true)
  {
  }

  lemma BreakBits(w: bv64)
    ensures FlagsOf((w | WRITABLE) & !COW) == FlagsOf(w).(writable := true, cow := false)
  {
  }

  lemma LinkBits(w: bv64)
    ensures FlagsOf((w & !NX) | PRESENT | WRITABLE) == FlagsOf(w).(nx := false, present := true, writable := true)
  {
  }

  // ---------------------------------------------------------------- words and records

  /** The frame in the address bits of a word. */
  function FrameOf(w: bv64): nat {
    Value(GetAddr(w))
  }

  /** The record that the rest of the model uses for an entry. */
  function EntryOf(w: bv64): Pte {
    Pte(FrameOf(w), FlagsOf(w))
  }

  /** It is a page below 2^52, so that masking it again changes nothing. */
  lemma FrameOfIs(w: bv64)
    ensures Aligned(FrameOf(w)) && FrameOf(w) < PHYS_END && EntryAddr(FrameOf(w)) == FrameOf(w)
  {
    hide Value;
    AddressTimes(w);
    AddressBelow(w);
    TimesPage(Value((w & 0x000F_FFFF_FFFF_F000) >> 12), FrameOf(w));
    EntryAddrOfFrame(FrameOf(w));
  }

  lemma TimesPage(n: nat, a: nat)
    requires a == 4096 * n && n < 0x100_0000_0000
    ensures Aligned(a) && a < PHYS_END
  {
  }

  lemma ClearBits(w: bv64)
    ensures GetAddr(GetAddr(w)) == GetAddr(w) && FlagsOf(GetFlags(w)) == FlagsOf(w)
    ensures GetAddr(w & !NX) == GetAddr(w) && FlagsOf(w & !NX) == FlagsOf(w).(nx := false)
  {
  }

  /** A table as memset leaves it has absent entries. */
  lemma ZeroEntry()
    ensures EntryOf(0) == ABSENT
  {
    hide Value;
    ValueOfZero();
  }

  /** pte_create: the frame of the address with the flags, as the tables get it. */
  lemma CreateEntry(phys: bv64, flags: bv64)
    ensures EntryOf(Create(phys, flags)) == Pte(EntryAddr(FrameOf(phys)), FlagsOf(flags))
  {
    hide Value;
    hide EntryAddr;
    hide FlagsOf;
    hide Create;
    CreateSplits(phys, flags, 0);
    FrameOfIs(phys);
  }

  /** The word that mmu_copy_range writes stands for the entry that the tables get. */
  lemma ShareEntry(w: bv64)
    ensures EntryOf(Create(GetAddr(w), (GetFlags(w) & !WRITABLE) | COW)) == SharedEntry(EntryOf(w), true)
    ensures EntryOf(Create(GetAddr(w), GetFlags(w))) == SharedEntry(EntryOf(w), false)
  {
    hide Value;
    hide FlagsOf;
    hide EntryAddr;
    hide Create;
    CreateEntry(GetAddr(w), (GetFlags(w) & !WRITABLE) | COW);
    CreateEntry(GetAddr(w), GetFlags(w));
    ShareBits(GetFlags(w));
    ClearBits(w);
    FrameOfIs(w);
  }

  /** The word that mmu_break_cow writes, with the address of the new frame. */
  lemma BreakEntry(w: bv64, phys: bv64)
    ensures EntryOf(Create(phys, (GetFlags(w) | WRITABLE) & !COW))
            == Pte(EntryAddr(FrameOf(phys)), EntryOf(w).flags.(writable := true, cow := false))
  {
    hide Value;
    hide FlagsOf;
    hide EntryAddr;
    hide Create;
    CreateEntry(phys, (GetFlags(w) | WRITABLE) & !COW);
    BreakBits(GetFlags(w));
    ClearBits(w);
  }

  /** The word that get_or_create_table writes for a new table. */
  lemma LinkEntry(phys: bv64, flags: bv64)
    ensures EntryOf(Create(phys, (flags & !NX) | PRESENT | WRITABLE))
            == Pte(EntryAddr(FrameOf(phys)), FlagsOf(flags).(nx := false, present := true, writable := true))
  {
    hide Value;
    hide FlagsOf;
    hide EntryAddr;
    hide Create;
    CreateEntry(phys, (flags & !NX) | PRESENT | WRITABLE);
    LinkBits(flags);
  }

  /** The word that it leaves for a table that is there. */
  lemma ClearEntry(w: bv64)
    ensures EntryOf(w & !NX) == EntryOf(w).(flags := EntryOf(w).flags.(nx := false))
  {
    hide Value;
    hide FlagsOf;
    ClearBits(w);
  }
}
