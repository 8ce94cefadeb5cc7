/**
 * ELF64 symbol lookup (resolve_symbol_offset in src/speed_bump_uprobe.c),
 * over the bytes of the file. Fields are decoded little-endian, as the
 * code's host-order reads do on a little-endian machine; the file's own
 * EI_DATA byte is never consulted. The result is the raw st_value of the
 * first matching symbol, stored into a loff_t, or 0 for "not found".
 */
module ElfSymbols {
  import opened SpeedBump

  /** An octet of the file. */
  type byte = b: int | 0 <= b < 0x100

  /** Sizes of Elf64_Ehdr, Elf64_Shdr and Elf64_Sym. */
  const EHDR_SIZE := 64
  const SHDR_SIZE := 64
  const SYM_SIZE := 24

  const ELFMAG: seq<byte> := [0x7f, 0x45, 0x4c, 0x46]
  const EI_CLASS := 4
  const ELFCLASS64: byte := 2
  const SHT_SYMTAB := 2
  const SHT_DYNSYM := 11

  /** The largest file position a loff_t can hold. */
  const LOFF_MAX := 0x7fff_ffff_ffff_ffff

  function Le16(s: seq<byte>, off: nat): (v: nat)
    requires off + 2 <= |s|
    ensures v < 0x1_0000
  {
    s[off] as int + 0x100 * s[off + 1] as int
  }

  function Le32(s: seq<byte>, off: nat): (v: nat)
    requires off + 4 <= |s|
    ensures v < 0x1_0000_0000
  {
    Le16(s, off) + 0x1_0000 * Le16(s, off + 2)
  }

  function Le64(s: seq<byte>, off: nat): u64
    requires off + 8 <= |s|
  {
    Le32(s, off) + 0x1_0000_0000 * Le32(s, off + 4)
  }

  /**
   * kernel_read of `n` bytes at `pos` of a regular file: a position that is
   * negative as a loff_t is refused, and a read that runs past the end of
   * the file comes back short. None stands for any result other than `n`.
   */
  function KernelRead(file: seq<byte>, pos: nat, n: nat): (r: Option<seq<byte>>)
    ensures r.Some? ==> |r.value| == n
    ensures r.Some? && n > 0 ==> pos + n <= |file| && r.value == file[pos..pos + n]
  {
    if pos > LOFF_MAX then None
    else if n == 0 then Some([])
    else if pos + n <= |file| then Some(file[pos..pos + n])
    else None
  }

  /** The fields of Elf64_Ehdr the lookup uses. */
  datatype Ehdr = Ehdr(shoff: u64, shnum: nat, shstrndx: nat)

  function DecodeEhdr(h: seq<byte>): Ehdr
    requires |h| == EHDR_SIZE
  {
    Ehdr(Le64(h, 40), Le16(h, 60), Le16(h, 62))
  }

  /** The fields of Elf64_Shdr the lookup uses. */
  datatype Shdr = Shdr(shType: nat, shOffset: u64, shSize: u64, shLink: nat)

  /** Section header `i` of a section header table. */
  function DecodeShdr(table: seq<byte>, i: nat): Shdr
    requires (i + 1) * SHDR_SIZE <= |table|
  {
    var b := i * SHDR_SIZE;
    Shdr(Le32(table, b + 4), Le64(table, b + 24), Le64(table, b + 32), Le32(table, b + 40))
  }

  /** The section header table, once the header checks and reads before the search loop succeed. */
  datatype Tables = Tables(shnum: nat, shdrs: seq<byte>) {
    predicate Valid() {
      |shdrs| == shnum * SHDR_SIZE
    }
  }

  /**
   * The part of the lookup before the section loop: the header read, the
   * magic and class checks, the section header table read, the e_shstrndx
   * check and the read of the section name string table (which is never
   * used afterwards).
   */
  function ReadTables(file: seq<byte>): (r: Option<Tables>)
    ensures r.Some? ==> r.value.Valid()
  {
    match KernelRead(file, 0, EHDR_SIZE)
    case None => None
    case Some(h) =>
      if h[..4] != ELFMAG || h[EI_CLASS] != ELFCLASS64 then None
      else
        var eh := DecodeEhdr(h);
        match KernelRead(file, eh.shoff, eh.shnum * SHDR_SIZE)
        case None => None
        case Some(shdrs) =>
          if eh.shstrndx >= eh.shnum then None
          else
            var shstr := DecodeShdr(shdrs, eh.shstrndx);
            if KernelRead(file, shstr.shOffset, shstr.shSize).None? then None
            else Some(Tables(eh.shnum, shdrs))
  }

  /** A symbol table section is searched with its linked string table. */
  datatype SymbolSection = SymbolSection(strtab: seq<byte>, symtab: seq<byte>)

  /**
   * Section `i` as the search loop sees it: searched only if it is
   * SHT_SYMTAB or SHT_DYNSYM, its sh_link names a section, and both its
   * string table and its own contents read in full.
   */
  function SectionAt(file: seq<byte>, t: Tables, i: nat): Option<SymbolSection>
    requires t.Valid() && i < t.shnum
  {
    var sh := DecodeShdr(t.shdrs, i);
    if sh.shType != SHT_SYMTAB && sh.shType != SHT_DYNSYM then None
    else if sh.shLink >= t.shnum then None
    else
      var link := DecodeShdr(t.shdrs, sh.shLink);
      match KernelRead(file, link.shOffset, link.shSize)
      case None => None
      case Some(strtab) =>
        match KernelRead(file, sh.shOffset, sh.shSize)
        case None => None
        case Some(symtab) => Some(SymbolSection(strtab, symtab))
  }

  function SymCount(symtab: seq<byte>): nat {
    |symtab| / SYM_SIZE
  }

  function StName(symtab: seq<byte>, j: nat): nat
    requires j < SymCount(symtab)
  {
    Le32(symtab, j * SYM_SIZE)
  }

  function StValue(symtab: seq<byte>, j: nat): u64
    requires j < SymCount(symtab)
  {
    Le64(symtab, j * SYM_SIZE + 8)
  }

  /** A byte read as a character of a C string. */
  function ByteChar(b: byte): char {
    b as char
  }

  /**
   * The name at offset `off` of a string table: the bytes up to the first
   * NUL, or up to the end of the table when it has no NUL there.
   */
  function CName(strtab: seq<byte>, off: nat): (name: string)
    requires off <= |strtab|
    ensures |name| <= |strtab| - off
    ensures off + |name| < |strtab| ==> strtab[off + |name|] == 0
    decreases |strtab| - off
  {
    if off == |strtab| || strtab[off] == 0 then ""
    else
      [ByteChar(strtab[off])] + CName(strtab, off + 1)
  }

  /** The name consists of the string table's bytes from `off`, none of them NUL. */
  lemma {:induction false} CNameBytes(strtab: seq<byte>, off: nat)
    requires off <= |strtab|
    ensures forall k :: 0 <= k < |CName(strtab, off)| ==>
      CName(strtab, off)[k] == ByteChar(strtab[off + k]) && CName(strtab, off)[k] != '\0'
    decreases |strtab| - off
  {
    if off < |strtab| && strtab[off] != 0 {
      CNameBytes(strtab, off + 1);
      var rest := CName(strtab, off + 1);
      var name := CName(strtab, off);
      assert name == [ByteChar(strtab[off])] + rest;
      forall k | 0 <= k < |name|
        ensures name[k] == ByteChar(strtab[off + k]) && name[k] != '\0'
      {
        if k > 0 {
          assert name[k] == rest[k - 1];
          assert off + k == (off + 1) + (k - 1);
        }
      }
    }
  }

  /** Entry `j` of a symbol table has a name within the string table equal to `name`. */
  predicate EntryHits(sec: SymbolSection, name: string, j: nat) {
    j < SymCount(sec.symtab) &&
    StName(sec.symtab, j) < |sec.strtab| &&
    CName(sec.strtab, StName(sec.symtab, j)) == name
  }

  /** The first matching entry at or after `j`. */
  function FirstEntry(sec: SymbolSection, name: string, j: nat): (r: Option<nat>)
    requires j <= SymCount(sec.symtab)
    ensures r.Some? ==> j <= r.value && EntryHits(sec, name, r.value)
    decreases SymCount(sec.symtab) - j
  {
    if j == SymCount(sec.symtab) then None
    else if EntryHits(sec, name, j) then Some(j)
    else FirstEntry(sec, name, j + 1)
  }

  /** FirstEntry skips only non-matching entries, and finds none exactly when none matches. */
  lemma {:induction false} FirstEntryIsFirst(sec: SymbolSection, name: string, j: nat)
    requires j <= SymCount(sec.symtab)
    ensures FirstEntry(sec, name, j).Some? ==>
      forall k :: j <= k < FirstEntry(sec, name, j).value ==> !EntryHits(sec, name, k)
    ensures FirstEntry(sec, name, j).None? <==> forall k :: j <= k ==> !EntryHits(sec, name, k)
    decreases SymCount(sec.symtab) - j
  {
    if j < SymCount(sec.symtab) && !EntryHits(sec, name, j) {
      FirstEntryIsFirst(sec, name, j + 1);
      forall k | j <= k && EntryHits(sec, name, k)
        ensures j + 1 <= k
      {
      }
    }
  }

  /** Every section of the table as the search loop sees it, in index order. */
  function SymbolSections(file: seq<byte>, t: Tables): (secs: seq<Option<SymbolSection>>)
    requires t.Valid()
    ensures |secs| == t.shnum
  {
    seq(t.shnum, i requires 0 <= i < t.shnum => SectionAt(file, t, i))
  }

  /** Section `i` is searched and its entry `j` matches `name`. */
  predicate Hit(secs: seq<Option<SymbolSection>>, name: string, i: nat, j: nat) {
    i < |secs| && secs[i].Some? && EntryHits(secs[i].value, name, j)
  }

  /** Where a hit is: the section index and the entry index within it. */
  datatype Location = Location(section: nat, entry: nat)

  /** The first hit in section order, then entry order, from section `i` on. */
  function FirstHit(secs: seq<Option<SymbolSection>>, name: string, i: nat): (r: Option<Location>)
    requires i <= |secs|
    ensures r.Some? ==> i <= r.value.section && Hit(secs, name, r.value.section, r.value.entry)
    decreases |secs| - i
  {
    if i == |secs| then None
    else if secs[i].Some? && FirstEntry(secs[i].value, name, 0).Some? then
      Some(Location(i, FirstEntry(secs[i].value, name, 0).value))
    else
      FirstHit(secs, name, i + 1)
  }

  /**
   * FirstHit finds the first hit from section `i` on, sections in index
   * order and then entries in order, and finds none exactly when there is none.
   */
  lemma {:induction false} FirstHitIsFirst(secs: seq<Option<SymbolSection>>, name: string, i: nat)
    requires i <= |secs|
    ensures var r := FirstHit(secs, name, i);
      && (r.Some? ==> forall k: nat, j: nat :: i <= k < r.value.section ==> !Hit(secs, name, k, j))
      && (r.Some? ==> forall j: nat :: j < r.value.entry ==> !Hit(secs, name, r.value.section, j))
      && (r.None? <==> forall k: nat, j: nat :: i <= k ==> !Hit(secs, name, k, j))
    decreases |secs| - i
  {
    if i < |secs| {
      if secs[i].Some? && FirstEntry(secs[i].value, name, 0).Some? {
        FirstEntryIsFirst(secs[i].value, name, 0);
        assert FirstHit(secs, name, i) == Some(Location(i, FirstEntry(secs[i].value, name, 0).value));
      } else {
        assert FirstHit(secs, name, i) == FirstHit(secs, name, i + 1);
        FirstHitIsFirst(secs, name, i + 1);
        if secs[i].Some? {
          FirstEntryIsFirst(secs[i].value, name, 0);
        }
        assert forall j: nat :: !Hit(secs, name, i, j);
      }
    }
  }

  /** The value the section search yields: the st_value of the first hit, as a loff_t, or 0. */
  function SearchSpec(file: seq<byte>, t: Tables, name: string): i64
    requires t.Valid()
  {
    var secs := SymbolSections(file, t);
    match FirstHit(secs, name, 0)
    case None => 0
    case Some(loc) => Signed64(StValue(secs[loc.section].value.symtab, loc.entry))
  }

  /** What resolve_symbol_offset returns. */
  function ResolveSpec(file: seq<byte>, name: string): i64 {
    match ReadTables(file)
    case None => 0
    case Some(t) => SearchSpec(file, t, name)
  }

  /** resolve_symbol_offset: the nested section and symbol loops. */
  method ResolveSymbolOffset(file: seq<byte>, symbolName: string) returns (offset: i64)
    ensures offset == ResolveSpec(file, symbolName)
  {
    offset := 0;
    var ehdr := KernelRead(file, 0, EHDR_SIZE);
    if ehdr.None? {
      return;
    }
    if ehdr.value[..4] != ELFMAG || ehdr.value[EI_CLASS] != ELFCLASS64 {
      return;
    }
    var eh := DecodeEhdr(ehdr.value);
    var shdrs := KernelRead(file, eh.shoff, eh.shnum * SHDR_SIZE);
    if shdrs.None? {
      return;
    }
    if eh.shstrndx >= eh.shnum {
      return;
    }
    var shstr := DecodeShdr(shdrs.value, eh.shstrndx);
    var shstrtab := KernelRead(file, shstr.shOffset, shstr.shSize);
    if shstrtab.None? {
      return;
    }
    var t := Tables(eh.shnum, shdrs.value);
    assert ReadTables(file) == Some(t);
    offset := SearchSections(file, t, symbolName);
  }

  /** The section loop of resolve_symbol_offset, with the inner loop over symbol entries. */
  method SearchSections(file: seq<byte>, t: Tables, symbolName: string) returns (offset: i64)
    requires t.Valid()
    ensures offset == SearchSpec(file, t, symbolName)
  {
    offset := 0;
    ghost var secs := SymbolSections(file, t);
    var i := 0;
    while i < t.shnum
      invariant i <= t.shnum
      invariant FirstHit(secs, symbolName, 0) == FirstHit(secs, symbolName, i)
    {
      var section := ReadSection(file, t, i);
      if section.None? {
        i := i + 1;
        continue;
      }
      var sec := section.value;
      var found := SearchEntries(sec, symbolName);
      if found.Some? {
        HitFound(secs, symbolName, i, sec, found.value);
        SearchFound(file, t, symbolName, i, found.value);
        offset := Signed64(StValue(sec.symtab, found.value));
        return;
      }
      i := i + 1;
    }
  }

  lemma HitFound(secs: seq<Option<SymbolSection>>, name: string, i: nat, sec: SymbolSection, j: nat)
    requires i < |secs| && secs[i] == Some(sec)
    requires FirstEntry(sec, name, 0) == Some(j)
    ensures FirstHit(secs, name, i) == Some(Location(i, j))
  {
  }

  lemma SearchFound(file: seq<byte>, t: Tables, name: string, i: nat, j: nat)
    requires t.Valid()
    requires FirstHit(SymbolSections(file, t), name, 0) == Some(Location(i, j))
    ensures i < t.shnum && SymbolSections(file, t)[i].Some?
    ensures j < SymCount(SymbolSections(file, t)[i].value.symtab)
    ensures SearchSpec(file, t, name) == Signed64(StValue(SymbolSections(file, t)[i].value.symtab, j))
  {
  }

  /**
   * The checks and reads at the top of the section loop: the section's type
   * and sh_link, then its string table and its own contents.
   */
  method ReadSection(file: seq<byte>, t: Tables, i: nat) returns (section: Option<SymbolSection>)
    requires t.Valid() && i < t.shnum
    ensures section == SectionAt(file, t, i)
  {
    var sh := DecodeShdr(t.shdrs, i);
    if sh.shType != SHT_SYMTAB && sh.shType != SHT_DYNSYM {
      return None;
    }
    if sh.shLink >= t.shnum {
      return None;
    }
    var link := DecodeShdr(t.shdrs, sh.shLink);
    var strtab := KernelRead(file, link.shOffset, link.shSize);
    if strtab.None? {
      return None;
    }
    var symtab := KernelRead(file, sh.shOffset, sh.shSize);
    if symtab.None? {
      return None;
    }
    return Some(SymbolSection(strtab.value, symtab.value));
  }

  /** The inner loop over the entries of one symbol table: the index of the first entry named `symbolName`. */
  method SearchEntries(sec: SymbolSection, symbolName: string) returns (found: Option<nat>)
    ensures found == FirstEntry(sec, symbolName, 0)
  {
    var symcount := |sec.symtab| / SYM_SIZE;
    var j := 0;
    while j < symcount
      invariant j <= symcount
      invariant FirstEntry(sec, symbolName, 0) == FirstEntry(sec, symbolName, j)
    {
      var stName := StName(sec.symtab, j);
      if stName < |sec.strtab| && CName(sec.strtab, stName) == symbolName {
        return Some(j);
      }
      j := j + 1;
    }
    return None;
  }

  /** A file too short for a header, without the ELF magic, or not ELFCLASS64 resolves nothing. */
  lemma HeaderErrorsResolveZero(file: seq<byte>, name: string)
    requires |file| < EHDR_SIZE || file[..4] != ELFMAG || file[EI_CLASS] != ELFCLASS64
    ensures ResolveSpec(file, name) == 0
  {
    if |file| >= EHDR_SIZE {
      assert KernelRead(file, 0, EHDR_SIZE) == Some(file[..EHDR_SIZE]);
      assert file[..EHDR_SIZE][..4] == file[..4];
    }
  }

  /** A short read of the section header table resolves nothing. */
  lemma ShortSectionTableResolvesZero(file: seq<byte>, name: string)
    requires |file| >= EHDR_SIZE
    requires
      var eh := DecodeEhdr(file[..EHDR_SIZE]);
      KernelRead(file, eh.shoff, eh.shnum * SHDR_SIZE).None?
    ensures ResolveSpec(file, name) == 0
  {
    assert KernelRead(file, 0, EHDR_SIZE) == Some(file[..EHDR_SIZE]);
  }

  /** An e_shstrndx that names no section resolves nothing. */
  lemma BadShstrndxResolvesZero(file: seq<byte>, name: string)
    requires |file| >= EHDR_SIZE
    requires DecodeEhdr(file[..EHDR_SIZE]).shstrndx >= DecodeEhdr(file[..EHDR_SIZE]).shnum
    ensures ResolveSpec(file, name) == 0
  {
    assert KernelRead(file, 0, EHDR_SIZE) == Some(file[..EHDR_SIZE]);
  }

  /**
   * A short read of the section name string table resolves nothing, although
   * that table is never searched.
   */
  lemma ShortShstrtabResolvesZero(file: seq<byte>, name: string, shdrs: seq<byte>)
    requires |file| >= EHDR_SIZE
    requires
      var eh := DecodeEhdr(file[..EHDR_SIZE]);
      KernelRead(file, eh.shoff, eh.shnum * SHDR_SIZE) == Some(shdrs) &&
      eh.shstrndx < eh.shnum &&
      KernelRead(file, DecodeShdr(shdrs, eh.shstrndx).shOffset, DecodeShdr(shdrs, eh.shstrndx).shSize).None?
    ensures ResolveSpec(file, name) == 0
  {
    assert KernelRead(file, 0, EHDR_SIZE) == Some(file[..EHDR_SIZE]);
  }

  /** A section that is not a symbol table, or whose sh_link names no section, is never searched. */
  lemma OnlyLinkedSymbolTablesSearched(file: seq<byte>, t: Tables, i: nat)
    requires t.Valid() && i < t.shnum
    requires
      var sh := DecodeShdr(t.shdrs, i);
      (sh.shType != SHT_SYMTAB && sh.shType != SHT_DYNSYM) || sh.shLink >= t.shnum
    ensures forall name: string, j: nat :: !Hit(SymbolSections(file, t), name, i, j)
  {
  }

  /**
   * The result is the st_value of the first entry named `name`, sections in
   * index order and then entries in order.
   */
  lemma {:induction false} ResolveFirstMatch(file: seq<byte>, name: string, t: Tables, i: nat, j: nat)
    requires ReadTables(file) == Some(t)
    requires Hit(SymbolSections(file, t), name, i, j)
    requires forall k: nat, l: nat :: k < i ==> !Hit(SymbolSections(file, t), name, k, l)
    requires forall l: nat :: l < j ==> !Hit(SymbolSections(file, t), name, i, l)
    ensures ResolveSpec(file, name) == Signed64(StValue(SymbolSections(file, t)[i].value.symtab, j))
  {
    var secs := SymbolSections(file, t);
    FirstHitIsFirst(secs, name, 0);
    var r := FirstHit(secs, name, 0);
    assert r.Some?;
    var loc := r.value;
    assert loc.section == i;
    assert loc.entry == j;
  }

  /** When no searched entry carries the name, the result is 0. */
  lemma NoMatchResolvesZero(file: seq<byte>, name: string, t: Tables)
    requires ReadTables(file) == Some(t)
    requires forall k: nat, l: nat :: !Hit(SymbolSections(file, t), name, k, l)
    ensures ResolveSpec(file, name) == 0
  {
    FirstHitIsFirst(SymbolSections(file, t), name, 0);
  }
}
