/**
 * First-level translation tables of the Virtual Memory System Architecture: which table an
 * address uses, where its descriptor lies, and what a section's descriptor permits.
 *
 * Masks and shifts of 32-bit words are written as remainders and quotients by powers of two.
 */
module Vmsa {
  import opened Wrappers
  import opened Bytes
  import opened PowersOfTwo

  const SECTION_BITS := 20
  const SECTION_SIZE := 0x10_0000

  function LeadingZeros(addr: u32): (n: nat)
    ensures n <= 32
  {
    Pow2Values();
    BitLengthBound(addr, 32);
    32 - BitLength(addr)
  }

  // ----- Tables -----

  /** The translation registers, and the words of memory that the tables are made of. */
  datatype Mmu = Mmu(boundary: nat, ttbr0: u32, ttbr1: u32, word: u32 -> u32) {
    /** TTBCR.N is a three-bit field. */
    predicate Ok() {
      boundary <= 7
    }
  }

  datatype TranslationTable = TranslationTable(boundary: nat, base: u32, entries: nat)

  predicate UsesTt0(m: Mmu, addr: u32) {
    LeadingZeros(addr) >= m.boundary
  }

  /** The table address in a base register: bits below 14 - N are not part of it, nor are the low 7. */
  function BasePtr(ttbr: u32, boundary: nat): u32
    requires boundary <= 7
  {
    ClearLow(ClearLow(ttbr, 14 - boundary), 7)
  }

  /** How many top bits of the address the table leaves out, and its base register. */
  function Boundary(m: Mmu, va: u32): (n: nat)
    requires m.Ok()
    ensures n <= 7
  {
    if UsesTt0(m, va) then m.boundary else 0
  }

  function Ttbr(m: Mmu, va: u32): u32 {
    if UsesTt0(m, va) then m.ttbr0 else m.ttbr1
  }

  function ForAddr(m: Mmu, addr: u32): TranslationTable
    requires m.Ok()
  {
    var boundary := Boundary(m, addr);
    TranslationTable(boundary, BasePtr(Ttbr(m, addr), boundary), Pow2(32 - SECTION_BITS - boundary))
  }

  /** What `lookup_l1` asserts of the address before it indexes the table. */
  predicate Lookupable(tt: TranslationTable, addr: u32) {
    LeadingZeros(addr) >= tt.boundary && addr / SECTION_SIZE < tt.entries
  }

  /** The address of the descriptor, by pointer arithmetic on four-byte entries. */
  function LookupL1(tt: TranslationTable, addr: u32): int
    requires Lookupable(tt, addr)
  {
    tt.base + 4 * (addr / SECTION_SIZE)
  }

  // ----- The architecture's own account -----

  /** Section B3.5.4: TTBR0 translates the addresses whose top N bits are zero. */
  predicate ArchUsesTtbr0(m: Mmu, va: u32)
    requires m.Ok()
  {
    va / Pow2(32 - m.boundary) == 0
  }

  /** Section B3.5.5: the base's upper bits ored with the address's index bits and two zeros. */
  function ArchDescriptorAddr(m: Mmu, va: u32): nat
    requires m.Ok()
  {
    var n := if ArchUsesTtbr0(m, va) then m.boundary else 0;
    var ttbr := if ArchUsesTtbr0(m, va) then m.ttbr0 else m.ttbr1;
    Or(ClearLow(ttbr, 14 - n), va % Pow2(32 - n) / SECTION_SIZE * 4)
  }

  lemma UsesSameTable(m: Mmu, va: u32)
    requires m.Ok()
    ensures UsesTt0(m, va) <==> ArchUsesTtbr0(m, va)
    ensures UsesTt0(m, va) <==> va < Pow2(32 - m.boundary)
  {
    BitLengthBound(va, 32 - m.boundary);
    BelowMeansZero(va, Pow2(32 - m.boundary));
  }

  /** The addresses a table serves are those below its number of sections. */
  lemma TableSpan(n: nat)
    requires n <= 7
    ensures Pow2(32 - n) == Pow2(12 - n) * SECTION_SIZE && Pow2(14 - n) == 4 * Pow2(12 - n)
  {
    Pow2Values();
    Pow2Add(12 - n, 20);
    Pow2Add(2, 12 - n);
  }

  lemma SectionBelow(va: u32, sections: nat)
    ensures va < sections * SECTION_SIZE <==> va / SECTION_SIZE < sections
  {
  }

  /** The table chosen for an address passes both assertions of the lookup. */
  lemma ChosenTableIsLookupable(m: Mmu, va: u32)
    requires m.Ok()
    ensures Lookupable(ForAddr(m, va), va)
  {
    var n := ForAddr(m, va).boundary;
    UsesSameTable(m, va);
    Pow2Values();
    TableSpan(n);
    SectionBelow(va, Pow2(12 - n));
  }

  /** Clearing the low seven bits as well makes no difference to a base. */
  lemma BaseIs(ttbr: u32, n: nat)
    requires n <= 7
    ensures BasePtr(ttbr, n) == ClearLow(ttbr, 14 - n)
  {
    ClearLowFewer(ClearLow(ttbr, 14 - n), 7, 14 - n);
  }

  /** The index part of the descriptor's address. */
  lemma IndexFits(m: Mmu, va: u32)
    requires m.Ok()
    ensures var n := Boundary(m, va);
      va % Pow2(32 - n) == va && va / SECTION_SIZE * 4 < Pow2(14 - n)
  {
    var n := Boundary(m, va);
    UsesSameTable(m, va);
    Pow2Values();
    BelowMeansZero(va, Pow2(32 - n));
    TableSpan(n);
    SectionBelow(va, Pow2(12 - n));
  }

  /** An aligned base with an offset below its alignment. */
  lemma BaseAndOffset(ttbr: u32, offset: nat, n: nat)
    requires n <= 7 && offset < Pow2(14 - n)
    ensures Or(ClearLow(ttbr, 14 - n), offset) == ClearLow(ttbr, 14 - n) + offset < 0x1_0000_0000
  {
    Pow2Values();
    OrIsSum(ClearLow(ttbr, 14 - n), offset, 14 - n);
    AlignedBlockFits(ClearLow(ttbr, 14 - n), offset, 14 - n);
  }

  lemma CodeComputes(m: Mmu, va: u32)
    requires m.Ok()
    ensures Lookupable(ForAddr(m, va), va)
    ensures LookupL1(ForAddr(m, va), va) == ClearLow(Ttbr(m, va), 14 - Boundary(m, va)) + va / SECTION_SIZE * 4
  {
    ChosenTableIsLookupable(m, va);
    BaseIs(Ttbr(m, va), Boundary(m, va));
  }

  lemma ArchComputes(m: Mmu, va: u32)
    requires m.Ok()
    ensures ArchDescriptorAddr(m, va) == Or(ClearLow(Ttbr(m, va), 14 - Boundary(m, va)), va / SECTION_SIZE * 4)
  {
    UsesSameTable(m, va);
    IndexFits(m, va);
  }

  /** The pointer the code computes is the descriptor address the architecture defines. */
  lemma DescriptorAddress(m: Mmu, va: u32)
    requires m.Ok()
    ensures Lookupable(ForAddr(m, va), va)
    ensures LookupL1(ForAddr(m, va), va) == ArchDescriptorAddr(m, va) < 0x1_0000_0000
  {
    CodeComputes(m, va);
    ArchComputes(m, va);
    IndexFits(m, va);
    BaseAndOffset(Ttbr(m, va), va / SECTION_SIZE * 4, Boundary(m, va));
  }

  // ----- Sections -----

  datatype AccessPermissions =
    | NoAccess
    | PL1AccessOnly
    | PL1AccessUserRead
    | AllAccess
    | ReadOnlyPL1AccessOnly
    | ReadOnlyPL1AccessUserRead
    | ReadOnlyAllAccess
  {
    predicate TestWrite(pl1: bool) {
      match this
      case AllAccess => true
      case PL1AccessOnly | PL1AccessUserRead => pl1
      case _ => false
    }

    predicate TestRead(pl1: bool) {
      TestWrite(pl1) ||
      match this
      case ReadOnlyAllAccess | ReadOnlyPL1AccessUserRead | PL1AccessUserRead => true
      case ReadOnlyPL1AccessOnly => pl1
      case _ => false
    }
  }

  /** The three permission bits AP[2:0]; the value 0b100 is reserved. */
  function DecodePermissions(ap: nat): Option<AccessPermissions> {
    match ap
    case 0 => Some(NoAccess)
    case 1 => Some(PL1AccessOnly)
    case 2 => Some(PL1AccessUserRead)
    case 3 => Some(AllAccess)
    case 5 => Some(ReadOnlyPL1AccessOnly)
    case 6 => Some(ReadOnlyPL1AccessUserRead)
    case 7 => Some(ReadOnlyAllAccess)
    case _ => None
  }

  /** Bits 10, 11 and 15 of a section descriptor. */
  function PermissionBits(descriptor: u32): (ap: nat)
    ensures ap < 8
  {
    descriptor / 0x400 % 4 + 4 * (descriptor / 0x8000 % 2)
  }

  predicate IsSection(descriptor: u32) {
    descriptor % 4 == 2
  }

  function SectionPermissions(descriptor: u32): Option<AccessPermissions> {
    if IsSection(descriptor) then DecodePermissions(PermissionBits(descriptor)) else None
  }

  /**
   * The fields of a section's descriptor other than its permissions: bits 31 to 16, with the base
   * address on top; TEX, bits 14 to 12; and bits 9 to 2, with the domain, execute-never, C and B.
   */
  datatype SectionFields = SectionFields(upper: nat, tex: nat, lower: nat) {
    predicate Ok() {
      upper < 0x1_0000 && tex < 8 && lower < 0x100
    }
  }

  /** The descriptor of a section, as its format puts it together: AP[2] is bit 15, AP[1:0] bits 11 and 10. */
  function SectionDescriptor(f: SectionFields, ap: nat): u32
    requires f.Ok() && ap < 8
  {
    0x1_0000 * f.upper + 0x8000 * (ap / 4) + 0x1000 * f.tex + 0x400 * (ap % 4) + 4 * f.lower + 2
  }

  lemma QuotientOf(d: nat, p: nat, q: nat, r: nat)
    requires d == p * q + r && r < p
    ensures d / p == q && d % p == r
  {
    DivModUnique(d, p, q, r);
  }

  /** Decoding finds the permissions where the format puts them, whatever the other fields hold. */
  lemma SectionBits(f: SectionFields, ap: nat)
    requires f.Ok() && ap < 8
    ensures IsSection(SectionDescriptor(f, ap)) && PermissionBits(SectionDescriptor(f, ap)) == ap
  {
    var d, high, low := SectionDescriptor(f, ap), ap / 4, ap % 4;
    var above := 0x10 * f.upper + 8 * high + f.tex;
    QuotientOf(d, 4, 0x100 * (4 * above + low) + f.lower, 2);
    QuotientOf(d, 0x400, 4 * above + low, 4 * f.lower + 2);
    QuotientOf(4 * above + low, 4, above, low);
    QuotientOf(d, 0x8000, 2 * f.upper + high, 0x1000 * f.tex + 0x400 * low + 4 * f.lower + 2);
    QuotientOf(2 * f.upper + high, 2, f.upper, high);
  }

  /** Every descriptor with these two low bits is put together like that. */
  lemma SectionFieldsOf(d: u32) returns (f: SectionFields, ap: nat)
    requires d % 4 == 2
    ensures f.Ok() && ap < 8 && SectionDescriptor(f, ap) == d
  {
    var lower, low, tex, high := d / 4 % 0x100, d / 0x400 % 4, d / 0x1000 % 8, d / 0x8000 % 2;
    f, ap := SectionFields(d / 0x1_0000, tex, lower), 4 * high + low;
    DivMod(d, 4);
    DivNested(d, 4, 0x100);
    DivNested(d, 0x400, 4);
    DivNested(d, 0x1000, 8);
    DivNested(d, 0x8000, 2);
  }

  /**
   * Section B3.7.1: AP[2] makes a region read-only; the two low bits say who has access, and
   * with AP[2] set one of the combinations is reserved.
   */
  predicate ArchPermits(ap: nat, write: bool, pl1: bool) {
    var readOnly, who := ap / 4 == 1, ap % 4;
    && who != 0
    && (write ==> !readOnly)
    && (!pl1 ==> if write then who == 3 else who >= 2)
  }

  /** The decoded permissions agree with the architecture's table at both privilege levels. */
  lemma PermissionsAgree(ap: nat, pl1: bool)
    requires ap < 8
    ensures DecodePermissions(ap).Some? && DecodePermissions(ap).value.TestWrite(pl1) <==> ArchPermits(ap, true, pl1)
    ensures DecodePermissions(ap).Some? && DecodePermissions(ap).value.TestRead(pl1) <==> ArchPermits(ap, false, pl1)
  {
  }
}
