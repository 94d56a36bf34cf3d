/**
 * Reading and writing program memory without faulting.
 */
module MemoryAccess {
  import opened Bytes
  import opened PowersOfTwo
  import opened Vmsa

  const TOP: u32 := 0xFFFF_FFFF

  function SaturatingAdd(a: u32, b: nat): (r: u32)
    ensures r == a + b || (r == TOP && TOP < a + b)
  {
    if a + b <= TOP then a + b else TOP
  }

  /**
   * Access to the byte at `addr`, by the architecture's account: its descriptor is put together as a
   * section's whose permissions allow it.
   */
  ghost predicate Accessible(m: Mmu, addr: u32, write: bool)
    requires m.Ok()
  {
    exists f: SectionFields, ap: nat ::
      && f.Ok() && ap < 8 && DescriptorOf(m, addr) == SectionDescriptor(f, ap)
      && ArchPermits(ap, write, true)
  }

  /** The word at the descriptor address that the architecture defines. */
  function DescriptorOf(m: Mmu, addr: u32): u32
    requires m.Ok()
  {
    DescriptorAddress(m, addr);
    m.word(ArchDescriptorAddr(m, addr))
  }

  /** The test of one section, at the given address in it. */
  predicate CanAccess(m: Mmu, addr: u32, write: bool)
    requires m.Ok()
  {
    DescriptorAddress(m, addr);
    var permissions := SectionPermissions(m.word(LookupL1(ForAddr(m, addr), addr)));
    permissions.Some? && if write then permissions.value.TestWrite(true) else permissions.value.TestRead(true)
  }

  /** The test decides access to the byte it is made at. */
  lemma TestDecides(m: Mmu, addr: u32, write: bool)
    requires m.Ok()
    ensures CanAccess(m, addr, write) <==> Accessible(m, addr, write)
  {
    DescriptorAddress(m, addr);
    var d := DescriptorOf(m, addr);
    PermissionsAgree(PermissionBits(d), true);
    if CanAccess(m, addr, write) {
      var f, ap := SectionFieldsOf(d);
      SectionBits(f, ap);
    }
    if f: SectionFields, ap: nat :| f.Ok() && ap < 8 && d == SectionDescriptor(f, ap) && ArchPermits(ap, write, true) {
      SectionBits(f, ap);
    }
  }

  /** For a section's descriptor the permission field alone decides, whatever the other fields are. */
  lemma SectionDecides(m: Mmu, addr: u32, write: bool, f: SectionFields, ap: nat)
    requires m.Ok() && f.Ok() && ap < 8 && DescriptorOf(m, addr) == SectionDescriptor(f, ap)
    ensures CanAccess(m, addr, write) <==> ArchPermits(ap, write, true)
    ensures Accessible(m, addr, write) <==> ArchPermits(ap, write, true)
  {
    DescriptorAddress(m, addr);
    SectionBits(f, ap);
    PermissionsAgree(ap, true);
    TestDecides(m, addr, write);
  }

  /** Anything else in the table gives no access. */
  lemma NoSectionNoAccess(m: Mmu, addr: u32, write: bool)
    requires m.Ok() && DescriptorOf(m, addr) % 4 != 2
    ensures !CanAccess(m, addr, write) && !Accessible(m, addr, write)
  {
    DescriptorAddress(m, addr);
    TestDecides(m, addr, write);
  }

  /** Addresses of one section are on the same side of every table boundary. */
  lemma SameTable(a: u32, b: u32, n: nat)
    requires a / SECTION_SIZE == b / SECTION_SIZE && n <= 7
    ensures a < Pow2(32 - n) <==> b < Pow2(32 - n)
  {
    TableSpan(n);
    SectionBelow(a, Pow2(12 - n));
    SectionBelow(b, Pow2(12 - n));
  }

  /** All bytes of a section share its descriptor, so testing one tests them all. */
  lemma SectionUniform(m: Mmu, addr: u32, inSection: u32, write: bool)
    requires m.Ok() && addr / SECTION_SIZE == inSection / SECTION_SIZE
    ensures CanAccess(m, inSection, write) <==> Accessible(m, addr, write)
  {
    SameDescriptor(m, addr, inSection);
    TestDecides(m, inSection, write);
  }

  lemma SameDescriptor(m: Mmu, addr: u32, inSection: u32)
    requires m.Ok() && addr / SECTION_SIZE == inSection / SECTION_SIZE
    ensures DescriptorOf(m, addr) == DescriptorOf(m, inSection)
  {
    DescriptorAddress(m, addr);
    DescriptorAddress(m, inSection);
    UsesSameTable(m, addr);
    UsesSameTable(m, inSection);
    SameTable(addr, inSection, m.boundary);
    assert LookupL1(ForAddr(m, addr), addr) == LookupL1(ForAddr(m, inSection), inSection);
  }

  ghost predicate AllAccessible(m: Mmu, start: u32, stop: int, write: bool)
    requires m.Ok()
  {
    forall a: u32 :: start <= a < stop ==> Accessible(m, a, write)
  }

  /** `n` is the length of the longest prefix of the range all of whose bytes are accessible. */
  ghost predicate LongestPrefix(m: Mmu, start: u32, end: u32, write: bool, n: nat)
    requires m.Ok()
  {
    && start + n <= (if start <= end then end else start)
    && AllAccessible(m, start, start + n, write)
    && (start + n < end ==> !Accessible(m, start + n, write))
  }

  /** There is only one such length. */
  lemma LongestPrefixUnique(m: Mmu, start: u32, end: u32, write: bool, n: nat, k: nat)
    requires m.Ok() && LongestPrefix(m, start, end, write, n) && LongestPrefix(m, start, end, write, k)
    ensures n == k
  {
  }

  /** A section boundary at or below the range's next untested byte, or the end of the walk. */
  predicate AtSection(checkAddr: u32, start: u32) {
    checkAddr == TOP || (checkAddr % SECTION_SIZE == 0 && start < checkAddr + SECTION_SIZE)
  }

  /** Walks the range section by section. */
  method TestAccess(m: Mmu, start: u32, end: u32, write: bool) returns (n: nat)
    requires m.Ok()
    ensures LongestPrefix(m, start, end, write, n)
  {
    var rangeEnd := end;
    var checkAddr: u32 := start - start % SECTION_SIZE;
    while checkAddr < rangeEnd
      invariant rangeEnd == end
      invariant AtSection(checkAddr, start)
      invariant AllAccessible(m, start, checkAddr, write)
      decreases TOP - checkAddr
    {
      if !CanAccess(m, checkAddr, write) {
        NoneInSection(m, start, checkAddr, write);
        rangeEnd := checkAddr;
        break;
      }
      AllInSection(m, start, checkAddr, write);
      NextSection(checkAddr);
      checkAddr := SaturatingAdd(checkAddr, SECTION_SIZE);
    }
    n := if start <= rangeEnd then rangeEnd - start else 0;
  }

  lemma InAccessibleSection(m: Mmu, section: u32, a: u32, write: bool)
    requires m.Ok() && section % SECTION_SIZE == 0 && CanAccess(m, section, write)
    requires section <= a < section + SECTION_SIZE
    ensures Accessible(m, a, write)
  {
    SectionIndex(section, a);
    SectionUniform(m, a, section, write);
  }

  lemma AllInSection(m: Mmu, start: u32, section: u32, write: bool)
    requires m.Ok() && section % SECTION_SIZE == 0 && CanAccess(m, section, write)
    requires AllAccessible(m, start, section, write)
    ensures AllAccessible(m, start, section + SECTION_SIZE, write)
  {
    forall a: u32 | section <= a < section + SECTION_SIZE
      ensures Accessible(m, a, write)
    {
      InAccessibleSection(m, section, a, write);
    }
  }

  lemma NextSection(section: u32)
    requires section % SECTION_SIZE == 0
    ensures AtSection(SaturatingAdd(section, SECTION_SIZE), section)
  {
  }

  lemma SectionIndex(section: u32, a: u32)
    requires section % SECTION_SIZE == 0 && section <= a < section + SECTION_SIZE
    ensures a / SECTION_SIZE == section / SECTION_SIZE
  {
  }

  /** An inaccessible section is so at its first byte in the range. */
  lemma NoneInSection(m: Mmu, start: u32, section: u32, write: bool)
    requires m.Ok() && section % SECTION_SIZE == 0 && !CanAccess(m, section, write)
    ensures !Accessible(m, section, write)
    ensures section <= start < section + SECTION_SIZE ==> !Accessible(m, start, write)
  {
    SectionUniform(m, section, section, write);
    if section <= start < section + SECTION_SIZE {
      SectionIndex(section, start);
      SectionUniform(m, start, section, write);
    }
  }

  /** The bytes of the address space. */
  class AddressSpace {
    const bytes: array<byte>

    ghost predicate Valid() {
      bytes.Length == 0x1_0000_0000
    }

    constructor (contents: array<byte>)
      requires contents.Length == 0x1_0000_0000
      ensures Valid() && bytes == contents
    {
      bytes := contents;
    }

    /** Copies as much of the range as can be read; the rest of the buffer is left alone. */
    method ReadMemory(m: Mmu, start: u32, data: array<byte>) returns (n: nat)
      requires Valid() && m.Ok() && data != bytes && data.Length <= TOP
      modifies data
      ensures LongestPrefix(m, start, SaturatingAdd(start, data.Length), false, n)
      ensures n <= data.Length && start + n <= bytes.Length
      ensures data[..] == bytes[start..start + n] + old(data[..])[n..]
    {
      var end := SaturatingAdd(start, data.Length);
      n := TestAccess(m, start, end, false);
      for k := 0 to n
        invariant forall j :: 0 <= j < data.Length ==> data[j] == if j < k then bytes[start + j] else old(data[j])
      {
        data[k] := bytes[start + k];
      }
    }

    /** All or nothing: writes exactly when every byte may be written and the range ends below the top byte. */
    method WriteMemory(m: Mmu, start: u32, data: seq<byte>) returns (written: bool)
      requires Valid() && m.Ok() && |data| <= TOP
      modifies bytes
      ensures written <==> start + |data| <= TOP && AllAccessible(m, start, start + |data|, true)
      ensures bytes[..] == if written then Splice(old(bytes[..]), start, data) else old(bytes[..])
    {
      var end := SaturatingAdd(start, |data|);
      var n := TestAccess(m, start, end, true);
      if n < |data| {
        return false;
      }
      for k := 0 to n
        invariant forall j :: 0 <= j < bytes.Length ==>
          bytes[j] == if start <= j < start + k then data[j - start] else old(bytes[j])
      {
        bytes[start + k] := data[k];
      }
      written := true;
    }
  }
}
