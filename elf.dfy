/** ElfSword: a read-only reader of ELF32 files. The mapped file is an
    immutable byte buffer; every header the C code hands out as a pointer
    into the mapping is here its byte offset into that buffer. */
module Elf {

  import opened Wrappers
  import opened Bytes
  import opened ElfSpecification

  // ---------------------------------------------------------------------
  // Magic number
  // ---------------------------------------------------------------------

  /** check_magic: the first four identification bytes are 0x7f 'E' 'L' 'F'.
      A buffer shorter than that fails, as the zero-filled tail of the mapped
      page would. */
  function CheckMagic(data: seq<byte>): (ok: bool)
    ensures ok <==> |data| >= 4 && data[..4] == [0x7f, 0x45, 0x4c, 0x46]
  {
    && |data| > EI_MAG3
    && data[EI_MAG0] == ELFMAG0
    && data[EI_MAG1] == ELFMAG1
    && data[EI_MAG2] == ELFMAG2
    && data[EI_MAG3] == ELFMAG3
  }

  /** A file that starts with a header image passes check_magic exactly
      when the header's e_ident starts with the magic. */
  lemma CheckMagicOfHeader(h: Ehdr, rest: seq<byte>)
    requires h.WellSized()
    ensures CheckMagic(EncodeEhdr(h) + rest) <==> h.ident[..4] == [ELFMAG0, ELFMAG1, ELFMAG2, ELFMAG3]
  {
    var data := EncodeEhdr(h) + rest;
    EhdrRoundTrip(h, data);
    assert data[..4] == data[..EI_NIDENT][..4];
  }

  // ---------------------------------------------------------------------
  // Header arrays
  // ---------------------------------------------------------------------

  /** The offsets `base + k * stride` for k = 0 .. count - 1. */
  function Strided(base: nat, stride: nat, count: nat): (offs: seq<nat>)
    ensures |offs| == count
    ensures forall k :: 0 <= k < count ==> offs[k] == base + k * stride
  {
    seq(count, k requires 0 <= k < count => base + k * stride)
  }

  /** Consecutive offsets of a strided array are one stride apart. */
  lemma StridedStep(base: nat, stride: nat, count: nat, k: nat)
    requires k + 1 < count
    ensures Strided(base, stride, count)[k + 1] == Strided(base, stride, count)[k] + stride
  {
    assert (k + 1) * stride == k * stride + stride;
  }

  /** The section header array: e_shnum entries of e_sheentsize bytes from e_shoff. */
  function SectionOffsets(data: seq<byte>): (offs: seq<nat>)
    requires |data| >= EHDR_SIZE
    ensures |offs| == LeU16(data, E_SHNUM)
    ensures forall k :: 0 <= k < |offs| ==>
              offs[k] == LeU32(data, E_SHOFF) + k * LeU16(data, E_SHENTSIZE)
  {
    var h := DecodeEhdr(data);
    Strided(h.shoff, h.shEntSize, h.shnum)
  }

  /** The program header array: e_phnum entries of e_phentsize bytes from e_phoff. */
  function ProgHeaderOffsets(data: seq<byte>): (offs: seq<nat>)
    requires |data| >= EHDR_SIZE
    ensures |offs| == LeU16(data, E_PHNUM)
    ensures forall k :: 0 <= k < |offs| ==>
              offs[k] == LeU32(data, E_PHOFF) + k * LeU16(data, E_PHENTSIZE)
  {
    var h := DecodeEhdr(data);
    Strided(h.phoff, h.phEntSize, h.phnum)
  }

  predicate ShdrInBounds(data: seq<byte>, shdr: nat)
  {
    shdr + SHDR_SIZE <= |data|
  }

  predicate IsSymbolTable(stype: nat)
  {
    stype == SHT_SYMTAB || stype == SHT_DYNSYM
  }

  /** The entries of a symbol table: sh_size / sizeof(Elf32_Sym) entries from sh_offset. */
  function SymbolOffsets(data: seq<byte>, shdr: nat): (offs: seq<nat>)
    requires ShdrInBounds(data, shdr)
    ensures |offs| == LeU32(data, shdr + SH_SIZE) / SYM_SIZE
    ensures forall k :: 0 <= k < |offs| ==>
              offs[k] == LeU32(data, shdr + SH_OFFSET) + k * SYM_SIZE
  {
    var sh := DecodeShdr(data, shdr);
    Strided(sh.offset, SYM_SIZE, sh.size / SYM_SIZE)
  }

  // ---------------------------------------------------------------------
  // NUL-terminated strings
  // ---------------------------------------------------------------------

  /** A NUL byte occurs at or after `pos`, inside the buffer. */
  predicate Terminated(data: seq<byte>, pos: nat)
  {
    pos < |data| && 0 in data[pos..]
  }

  /** `s` is the C string that starts at `pos`: its bytes, then a NUL, and no NUL inside. */
  predicate IsCStringAt(data: seq<byte>, pos: nat, s: seq<byte>)
  {
    && pos + |s| < |data|
    && data[pos..pos + |s|] == s
    && data[pos + |s|] == 0
    && forall i :: 0 <= i < |s| ==> s[i] != 0
  }

  /** The bytes of the C string at `pos`, without its NUL. */
  function CString(data: seq<byte>, pos: nat): (s: seq<byte>)
    requires Terminated(data, pos)
    ensures IsCStringAt(data, pos, s)
    decreases |data| - pos
  {
    if data[pos] == 0 then []
    else
      assert data[pos..] == [data[pos]] + data[pos + 1..];
      var rest := CString(data, pos + 1);
      assert data[pos..pos + 1 + |rest|] == [data[pos]] + data[pos + 1..pos + 1 + |rest|];
      [data[pos]] + rest
  }

  /** A position holds at most one C string, so CString is the only reading. */
  lemma CStringUnique(data: seq<byte>, pos: nat, s: seq<byte>, t: seq<byte>)
    requires IsCStringAt(data, pos, s) && IsCStringAt(data, pos, t)
    ensures s == t
  {
    forall j | pos <= j < pos + |t|
      ensures data[j] != 0
    {
      assert data[pos..pos + |t|][j - pos] == t[j - pos];
    }
    forall j | pos <= j < pos + |s|
      ensures data[j] != 0
    {
      assert data[pos..pos + |s|][j - pos] == s[j - pos];
    }
  }

  // ---------------------------------------------------------------------
  // Names
  // ---------------------------------------------------------------------

  /** The product of two unsigned values, kept apart so that the solver does
      not unfold the factors when it checks the product's sign. */
  function Times(a: nat, b: nat): (p: nat)
  {
    a * b
  }

  /** The section-name string table located by elf_map_file: absent when
      e_shstrndx is SHN_UNDEF, else the header at e_shoff + e_shstrndx * e_sheentsize. */
  function NamesHeader(data: seq<byte>): (names: Option<nat>)
    requires |data| >= EHDR_SIZE
    ensures names.None? <==> LeU16(data, E_SHSTRNDX) == SHN_UNDEF
    ensures names.Some? ==>
              names.value == LeU32(data, E_SHOFF) + LeU16(data, E_SHSTRNDX) * LeU16(data, E_SHENTSIZE)
  {
    var h := DecodeEhdr(data);
    if h.shstrndx == SHN_UNDEF then None else Some(h.shoff + Times(h.shstrndx, h.shEntSize))
  }

  /** The bytes elf_section_name reads lie inside the buffer. */
  predicate SectionNameReadable(data: seq<byte>, names: Option<nat>, shdr: nat)
  {
    names.Some? ==>
      && ShdrInBounds(data, shdr)
      && ShdrInBounds(data, names.value)
      && Terminated(data, LeU32(data, names.value + SH_OFFSET) + LeU32(data, shdr + SH_NAME))
  }

  /** elf_section_name: no name without a string table; otherwise the C string
      at names.sh_offset + shdr.sh_name. */
  function SectionName(data: seq<byte>, names: Option<nat>, shdr: nat): (r: Option<seq<byte>>)
    requires SectionNameReadable(data, names, shdr)
    ensures r.None? <==> names.None?
    ensures r.Some? ==>
              IsCStringAt(data, LeU32(data, names.value + SH_OFFSET) + LeU32(data, shdr + SH_NAME), r.value)
  {
    match names
    case None => None
    case Some(strtab) => Some(CString(data, DecodeShdr(data, strtab).offset + DecodeShdr(data, shdr).name))
  }

  /** The string table of a symbol table: the header at e_shoff + e_sheentsize * sh_link,
      the product taken in 32-bit unsigned arithmetic as the C does. */
  function LinkedHeader(data: seq<byte>, shdr: nat): (link: nat)
    requires |data| >= EHDR_SIZE && ShdrInBounds(data, shdr)
    ensures link == LeU32(data, E_SHOFF)
                    + (LeU16(data, E_SHENTSIZE) * LeU32(data, shdr + SH_LINK)) % U32_LIMIT
  {
    var h := DecodeEhdr(data);
    h.shoff + (h.shEntSize * DecodeShdr(data, shdr).link) % U32_LIMIT
  }

  /** The bytes elf_symbol_name reads lie inside the buffer. */
  predicate SymbolNameReadable(data: seq<byte>, shdr: nat, sym: nat)
  {
    && ShdrInBounds(data, shdr)
    && (IsSymbolTable(LeU32(data, shdr + SH_TYPE)) ==>
          && sym + SYM_SIZE <= |data|
          && (LeU32(data, sym + ST_NAME) != 0 ==>
                && |data| >= EHDR_SIZE
                && ShdrInBounds(data, LinkedHeader(data, shdr))
                && Terminated(data, LeU32(data, LinkedHeader(data, shdr) + SH_OFFSET)
                                    + LeU32(data, sym + ST_NAME))))
  }

  /** elf_symbol_name: no name outside a symbol table or for st_name 0;
      otherwise the C string at L.sh_offset + st_name, where L is the table
      named by the symbol section's own sh_link (not the file-wide one). */
  function SymbolName(data: seq<byte>, shdr: nat, sym: nat): (r: Option<seq<byte>>)
    requires SymbolNameReadable(data, shdr, sym)
    ensures r.None? <==> !IsSymbolTable(LeU32(data, shdr + SH_TYPE)) || LeU32(data, sym + ST_NAME) == 0
    ensures r.Some? ==>
              IsCStringAt(data, LeU32(data, LinkedHeader(data, shdr) + SH_OFFSET)
                                + LeU32(data, sym + ST_NAME), r.value)
  {
    var sh := DecodeShdr(data, shdr);
    if !IsSymbolTable(sh.stype) then None
    else
      var y := DecodeSym(data, sym);
      if y.name == 0 then None
      else Some(CString(data, DecodeShdr(data, LinkedHeader(data, shdr)).offset + y.name))
  }

  /** elf_section_content: where the section's bytes start, and how many there are. */
  function SectionContent(data: seq<byte>, shdr: nat): (r: (nat, nat))
    requires ShdrInBounds(data, shdr)
    ensures r == (LeU32(data, shdr + SH_OFFSET), LeU32(data, shdr + SH_SIZE))
  {
    var sh := DecodeShdr(data, shdr);
    (sh.offset, sh.size)
  }

  /** The content of a stored section header is the extent that header records. */
  lemma SectionContentOfHeader(h: Shdr, data: seq<byte>, shdr: nat)
    requires h.WellSized() && shdr + SHDR_SIZE <= |data|
    requires data[shdr..shdr + SHDR_SIZE] == EncodeShdr(h)
    ensures SectionContent(data, shdr) == (h.offset, h.size)
  {
    ShdrRoundTrip(h, data, shdr);
  }

  // ---------------------------------------------------------------------
  // Scans
  // ---------------------------------------------------------------------

  /** `visited` lists, in order, the elements a scan of `offs` hands to `cb`
      when it stops right after the first call that returns false. */
  predicate ScanVisits(offs: seq<nat>, cb: nat -> bool, visited: seq<nat>)
  {
    && |visited| <= |offs|
    && visited == offs[..|visited|]
    && (forall i :: 0 <= i < |visited| - 1 ==> cb(visited[i]))
    && (|visited| < |offs| ==> |visited| > 0 && !cb(visited[|visited| - 1]))
  }

  /** A scan's calls are determined by the elements and the callback. */
  lemma ScanVisitsUnique(offs: seq<nat>, cb: nat -> bool, v: seq<nat>, w: seq<nat>)
    requires ScanVisits(offs, cb, v) && ScanVisits(offs, cb, w)
    ensures v == w
  {
    forall i | 0 <= i < |v| && i < |w|
      ensures v[i] == w[i]
    {
      assert v[i] == offs[i] == w[i];
    }
  }

  /** A callback that always continues sees every element. */
  lemma ScanVisitsAllTrue(offs: seq<nat>, cb: nat -> bool, visited: seq<nat>)
    requires forall i :: 0 <= i < |offs| ==> cb(offs[i])
    requires ScanVisits(offs, cb, visited)
    ensures visited == offs
  {
    forall i | 0 <= i < |visited|
      ensures visited[i] == offs[i]
    {
    }
  }

  /** The `while (count--)` loop shared by the scans: hands the cursor to
      the callback, stops after a false answer, else steps by `stride`. */
  method StridedScan(base: nat, stride: nat, count: nat, cb: nat -> bool) returns (visited: seq<nat>)
    ensures ScanVisits(Strided(base, stride, count), cb, visited)
  {
    ghost var offs := Strided(base, stride, count);
    visited := [];
    var cursor: nat := base;
    var left: nat := count;
    while left > 0
      invariant left <= count && |visited| == count - left
      invariant left > 0 ==> cursor == offs[|visited|]
      invariant visited == offs[..|visited|]
      invariant forall i :: 0 <= i < |visited| ==> cb(visited[i])
    {
      ghost var k := |visited|;
      left := left - 1;
      visited := visited + [cursor];
      assert visited == offs[..k + 1];
      if !cb(cursor) {
        break;
      }
      if left > 0 {
        StridedStep(base, stride, count, k);
      }
      cursor := cursor + stride;
    }
  }

  /** elf_sections_scan: the callback on each section header, in order. */
  method SectionsScan(data: seq<byte>, cb: nat -> bool) returns (visited: seq<nat>)
    requires |data| >= EHDR_SIZE
    ensures ScanVisits(SectionOffsets(data), cb, visited)
  {
    var h := DecodeEhdr(data);
    visited := StridedScan(h.shoff, h.shEntSize, h.shnum, cb);
  }

  /** elf_symbols_scan: nothing for a section that is not a symbol table;
      otherwise the callback on each symbol entry, in order. */
  method SymbolsScan(data: seq<byte>, shdr: nat, cb: nat -> bool) returns (visited: seq<nat>)
    requires ShdrInBounds(data, shdr)
    ensures !IsSymbolTable(LeU32(data, shdr + SH_TYPE)) ==> visited == []
    ensures IsSymbolTable(LeU32(data, shdr + SH_TYPE)) ==> ScanVisits(SymbolOffsets(data, shdr), cb, visited)
  {
    var sh := DecodeShdr(data, shdr);
    if !IsSymbolTable(sh.stype) {
      return [];
    }
    visited := StridedScan(sh.offset, SYM_SIZE, sh.size / SYM_SIZE, cb);
  }

  /** elf_progheader_scan, as its header documents it: false when the file
      has no program header; otherwise true, with the callback on each entry. */
  method ProgHeaderScan(data: seq<byte>, cb: nat -> bool) returns (present: bool, visited: seq<nat>)
    requires |data| >= EHDR_SIZE
    ensures present <==> LeU16(data, E_PHNUM) != 0
    ensures !present ==> visited == []
    ensures present ==> ScanVisits(ProgHeaderOffsets(data), cb, visited)
  {
    var h := DecodeEhdr(data);
    if h.phnum == 0 {
      return false, [];
    }
    present := true;
    visited := StridedScan(h.phoff, h.phEntSize, h.phnum, cb);
  }

  // ---------------------------------------------------------------------
  // Name to section index
  // ---------------------------------------------------------------------

  /** hsearch_r with ENTER: a key already present keeps its entry. */
  function Enter(tab: map<seq<byte>, nat>, key: seq<byte>, shdr: nat): (r: map<seq<byte>, nat>)
    ensures r.Keys == tab.Keys + {key}
    ensures forall k :: k in tab ==> r[k] == tab[k]
    ensures key !in tab ==> r[key] == shdr
  {
    if key in tab then tab else tab[key := shdr]
  }

  /** hash_builder: enters the section under its name and asks the scan to go on. */
  function HashBuilder(data: seq<byte>, names: Option<nat>, tab: map<seq<byte>, nat>, shdr: nat)
    : (r: (map<seq<byte>, nat>, bool))
    requires names.Some? && SectionNameReadable(data, names, shdr)
    ensures r.1
    ensures r.0 == Enter(tab, SectionName(data, names, shdr).value, shdr)
  {
    (Enter(tab, SectionName(data, names, shdr).value, shdr), true)
  }

  /** The (name, header) pairs hash_builder enters, in the order
      elf_sections_scan hands it the section headers. */
  function NamedSections(data: seq<byte>): (entries: seq<(seq<byte>, nat)>)
    requires Loadable(data)
    ensures |entries| == |SectionOffsets(data)|
    ensures forall i :: 0 <= i < |entries| ==>
              && Some(entries[i].0) == SectionName(data, NamesHeader(data), SectionOffsets(data)[i])
              && entries[i].1 == SectionOffsets(data)[i]
  {
    var offs := SectionOffsets(data);
    seq(|offs|, i requires 0 <= i < |offs| => (SectionName(data, NamesHeader(data), offs[i]).value, offs[i]))
  }

  /** The table left by entering `entries` in order into an empty table. */
  function IndexOf(entries: seq<(seq<byte>, nat)>): map<seq<byte>, nat>
  {
    if entries == [] then map[]
    else
      var last := entries[|entries| - 1];
      Enter(IndexOf(entries[..|entries| - 1]), last.0, last.1)
  }

  /** Entering one more pair. */
  lemma IndexStep(entries: seq<(seq<byte>, nat)>, i: nat)
    requires i < |entries|
    ensures IndexOf(entries[..i + 1]) == Enter(IndexOf(entries[..i]), entries[i].0, entries[i].1)
  {
    assert entries[..i + 1][..i] == entries[..i];
  }

  /** entries[i] is the first entry whose name is `name`. */
  ghost predicate FirstNamed(entries: seq<(seq<byte>, nat)>, name: seq<byte>, i: int)
  {
    && 0 <= i < |entries|
    && entries[i].0 == name
    && forall j :: 0 <= j < i ==> entries[j].0 != name
  }

  /** The index holds exactly the names entered, each bound to the earliest
      entry that carries it. */
  lemma {:induction false} IndexKeepsFirst(entries: seq<(seq<byte>, nat)>, name: seq<byte>)
    ensures name in IndexOf(entries) <==> exists i :: 0 <= i < |entries| && entries[i].0 == name
    ensures name in IndexOf(entries) ==>
              exists i :: FirstNamed(entries, name, i) && IndexOf(entries)[name] == entries[i].1
  {
    if entries != [] {
      var init := entries[..|entries| - 1];
      var last := entries[|entries| - 1];
      IndexKeepsFirst(init, name);
      var before := IndexOf(init);
      if name in before {
        var i :| FirstNamed(init, name, i) && before[name] == init[i].1;
        assert entries[i] == init[i];
        assert FirstNamed(entries, name, i);
      } else if last.0 == name {
        assert forall j :: 0 <= j < |init| ==> entries[j] == init[j];
        assert FirstNamed(entries, name, |entries| - 1);
      } else {
        forall i | 0 <= i < |entries|
          ensures entries[i].0 != name
        {
          if i < |init| {
            assert entries[i] == init[i];
          }
        }
      }
    }
  }

  /** The buffer is one elf_map_file can parse once the magic has passed:
      a full header, a string table whenever there are sections (hash_builder
      would otherwise enter a NULL key), and every section name inside the buffer. */
  predicate Loadable(data: seq<byte>)
  {
    && |data| >= EHDR_SIZE
    && (|SectionOffsets(data)| > 0 ==> NamesHeader(data).Some?)
    && forall i :: 0 <= i < |SectionOffsets(data)| ==>
         SectionNameReadable(data, NamesHeader(data), SectionOffsets(data)[i])
  }

  // ---------------------------------------------------------------------
  // The mapped object
  // ---------------------------------------------------------------------

  /** struct elf_struct: the mapping, the located section-name table and
      the name to section table built at load time. */
  class ElfFile {
    const data: seq<byte>
    var names: Option<nat>
    var namtab: map<seq<byte>, nat>

    ghost predicate Valid()
      reads this
    {
      && CheckMagic(data)
      && Loadable(data)
      && names == NamesHeader(data)
      && namtab == IndexOf(NamedSections(data))
    }

    constructor (data: seq<byte>)
      ensures this.data == data && names == None && namtab == map[]
    {
      this.data := data;
      names := None;
      namtab := map[];
    }

    /** elf_map_file, from the file's bytes on: NULL when the magic check
        fails; otherwise an object whose names table is located and whose
        index holds every section under its name. */
    static method MapFile(data: seq<byte>) returns (elf: ElfFile?)
      requires CheckMagic(data) ==> Loadable(data)
      ensures elf == null <==> !CheckMagic(data)
      ensures elf != null ==> fresh(elf) && elf.data == data && elf.Valid()
    {
      if !CheckMagic(data) {
        return null;
      }
      elf := new ElfFile(data);
      elf.names := NamesHeader(data);
      // hash_builder asks the scan to go on at every section header, so
      // the scan callback is the constant true
      assert forall k :: 0 <= k < |SectionOffsets(data)| ==>
        HashBuilder(data, elf.names, elf.namtab, SectionOffsets(data)[k]).1;
      var goOn := (shdr: nat) => true;
      var visited := SectionsScan(data, goOn);
      ScanVisitsAllTrue(SectionOffsets(data), goOn, visited);
      elf.BuildIndex(visited);
    }

    /** The elf_sections_scan(hash_builder) pass: every visited header, in
        order, entered into the name table. */
    method BuildIndex(visited: seq<nat>)
      requires Loadable(data) && names == NamesHeader(data) && visited == SectionOffsets(data)
      modifies this
      ensures names == old(names) && namtab == IndexOf(NamedSections(data))
    {
      namtab := map[];
      var i: nat := 0;
      while i < |visited|
        invariant i <= |visited|
        invariant names == old(names)
        invariant namtab == IndexOf(NamedSections(data)[..i])
      {
        IndexStep(NamedSections(data), i);
        namtab := HashBuilder(data, names, namtab, visited[i]).0;
        i := i + 1;
      }
      assert NamedSections(data)[..|visited|] == NamedSections(data);
    }

    /** elf_section_get: NULL when no section has that name; otherwise the
        earliest section, in scan order, that has it. */
    function SectionGet(name: seq<byte>): (r: Option<nat>)
      reads this
      requires Valid()
      ensures r.None? <==>
                forall i :: 0 <= i < |NamedSections(data)| ==> NamedSections(data)[i].0 != name
      ensures r.Some? ==>
                exists i :: FirstNamed(NamedSections(data), name, i) && r.value == NamedSections(data)[i].1
    {
      IndexKeepsFirst(NamedSections(data), name);
      if name in namtab then Some(namtab[name]) else None
    }

    /** elf_get_content: the mapping itself, which for a loaded object starts
        with the ELF magic. */
    function GetContent(): (bytes: seq<byte>)
      reads this
      requires Valid()
      ensures bytes == data
      ensures |bytes| >= EHDR_SIZE && bytes[..4] == [0x7f, 0x45, 0x4c, 0x46]
    {
      data
    }
  }

  /** elf_release_file, given what munmap and close returned (0 or -1):
      false for NULL, else true exactly when both calls succeeded. */
  function ReleaseFile(elf: ElfFile?, munmapResult: int, closeResult: int): (ok: bool)
    requires munmapResult in {0, -1} && closeResult in {0, -1}
    ensures ok <==> elf != null && munmapResult == 0 && closeResult == 0
  {
    elf != null && munmapResult + closeResult >= 0
  }
}
