/** Fixed layouts of the ELF32 file header, section header, symbol entry and
    program header (TIS/System V ELF specification v1.2, Book I, chapters 1
    and 2), read from a byte buffer in little-endian order (ELFDATA2LSB),
    together with the reserved constants and the st_info packing macros
    that the reader uses. */
module ElfSpecification {

  import opened Bytes

  const U16_LIMIT: nat := 0x1_0000
  const U32_LIMIT: nat := 0x1_0000_0000

  // ---------------------------------------------------------------------
  // Words in little-endian order
  // ---------------------------------------------------------------------

  /** The Elf32_Half at `off`. */
  function LeU16(data: seq<byte>, off: nat): (v: nat)
    requires off + 2 <= |data|
    ensures v < U16_LIMIT
  {
    data[off] as nat + 0x100 * data[off + 1] as nat
  }

  /** The Elf32_Word (also Elf32_Addr, Elf32_Off) at `off`. */
  function LeU32(data: seq<byte>, off: nat): (v: nat)
    requires off + 4 <= |data|
    ensures v < U32_LIMIT
  {
    LeU16(data, off) + 0x1_0000 * LeU16(data, off + 2)
  }

  /** The two bytes that store a half word. */
  function EncU16(v: nat): (s: seq<byte>)
    requires v < U16_LIMIT
    ensures |s| == 2 && LeU16(s, 0) == v
  {
    [(v % 0x100) as byte, (v / 0x100) as byte]
  }

  /** The four bytes that store a word. */
  function EncU32(v: nat): (s: seq<byte>)
    requires v < U32_LIMIT
    ensures |s| == 4 && LeU32(s, 0) == v
  {
    var s := EncU16(v % 0x1_0000) + EncU16(v / 0x1_0000);
    assert s[0..2] == EncU16(v % 0x1_0000) && s[2..4] == EncU16(v / 0x1_0000);
    s
  }

  /** Peeling the last word off an image stored at `off`: the word is read
      back at its offset and the rest of the image is still in place. */
  lemma PeelU32(data: seq<byte>, off: nat, p: seq<byte>, v: nat)
    requires v < U32_LIMIT && off + |p| + 4 <= |data|
    requires data[off..off + |p| + 4] == p + EncU32(v)
    ensures LeU32(data, off + |p|) == v
    ensures data[off..off + |p|] == p
  {
    var e := EncU32(v);
    assert data[off + |p|] == e[0] && data[off + |p| + 1] == e[1];
    assert data[off + |p| + 2] == e[2] && data[off + |p| + 3] == e[3];
    assert data[off..off + |p|] == data[off..off + |p| + 4][..|p|];
  }

  lemma PeelU16(data: seq<byte>, off: nat, p: seq<byte>, v: nat)
    requires v < U16_LIMIT && off + |p| + 2 <= |data|
    requires data[off..off + |p| + 2] == p + EncU16(v)
    ensures LeU16(data, off + |p|) == v
    ensures data[off..off + |p|] == p
  {
    var e := EncU16(v);
    assert data[off + |p|] == e[0] && data[off + |p| + 1] == e[1];
    assert data[off..off + |p|] == data[off..off + |p| + 2][..|p|];
  }

  lemma PeelByte(data: seq<byte>, off: nat, p: seq<byte>, v: byte)
    requires off + |p| + 1 <= |data|
    requires data[off..off + |p| + 1] == p + [v]
    ensures data[off + |p|] == v
    ensures data[off..off + |p|] == p
  {
    assert data[off + |p|] == (p + [v])[|p|];
    assert data[off..off + |p|] == data[off..off + |p| + 1][..|p|];
  }

  // ---------------------------------------------------------------------
  // File header (Elf32_Ehdr)
  // ---------------------------------------------------------------------

  const EI_NIDENT: nat := 16

  // e_ident indexes of the magic number
  const EI_MAG0: nat := 0
  const EI_MAG1: nat := 1
  const EI_MAG2: nat := 2
  const EI_MAG3: nat := 3

  // e_ident values for EI_MAG0..EI_MAG3: 0x7f, 'E', 'L', 'F'
  const ELFMAG0: byte := 0x7f
  const ELFMAG1: byte := 0x45
  const ELFMAG2: byte := 0x4c
  const ELFMAG3: byte := 0x46

  // e_ident value of EI_DATA for the byte order this model reads
  const EI_DATA: nat := 5
  const ELFDATA2LSB: byte := 1

  // byte offsets of the Elf32_Ehdr fields
  const E_IDENT: nat := 0
  const E_TYPE: nat := 16
  const E_MACHINE: nat := 18
  const E_VERSION: nat := 20
  const E_ENTRY: nat := 24
  const E_PHOFF: nat := 28
  const E_SHOFF: nat := 32
  const E_FLAGS: nat := 36
  const E_EHSIZE: nat := 40
  const E_PHENTSIZE: nat := 42
  const E_PHNUM: nat := 44
  const E_SHENTSIZE: nat := 46
  const E_SHNUM: nat := 48
  const E_SHSTRNDX: nat := 50
  const EHDR_SIZE: nat := 52

  datatype Ehdr = Ehdr(
    ident: seq<byte>,
    etype: nat,
    machine: nat,
    version: nat,
    entry: nat,
    phoff: nat,
    shoff: nat,
    flags: nat,
    ehsize: nat,
    phEntSize: nat,
    phnum: nat,
    shEntSize: nat,
    shnum: nat,
    shstrndx: nat)
  {
    /** Every field fits the C type that declares it. */
    predicate WellSized()
    {
      && |ident| == EI_NIDENT
      && etype < U16_LIMIT && machine < U16_LIMIT && version < U32_LIMIT
      && entry < U32_LIMIT && phoff < U32_LIMIT && shoff < U32_LIMIT
      && flags < U32_LIMIT && ehsize < U16_LIMIT && phEntSize < U16_LIMIT
      && phnum < U16_LIMIT && shEntSize < U16_LIMIT && shnum < U16_LIMIT
      && shstrndx < U16_LIMIT
    }
  }

  /** The file header viewed at byte 0 of the buffer. */
  function DecodeEhdr(data: seq<byte>): (h: Ehdr)
    requires |data| >= EHDR_SIZE
    ensures h.WellSized()
  {
    Ehdr(data[E_IDENT..E_IDENT + EI_NIDENT],
         LeU16(data, E_TYPE), LeU16(data, E_MACHINE), LeU32(data, E_VERSION),
         LeU32(data, E_ENTRY), LeU32(data, E_PHOFF), LeU32(data, E_SHOFF),
         LeU32(data, E_FLAGS), LeU16(data, E_EHSIZE), LeU16(data, E_PHENTSIZE),
         LeU16(data, E_PHNUM), LeU16(data, E_SHENTSIZE), LeU16(data, E_SHNUM),
         LeU16(data, E_SHSTRNDX))
  }

  /** The bytes of an Elf32_Ehdr: its members in declaration order, without padding. */
  function EncodeEhdr(h: Ehdr): (img: seq<byte>)
    requires h.WellSized()
    ensures |img| == EHDR_SIZE
  {
    EhdrHead(h)
    + EncU16(h.ehsize) + EncU16(h.phEntSize) + EncU16(h.phnum)
    + EncU16(h.shEntSize) + EncU16(h.shnum) + EncU16(h.shstrndx)
  }

  /** The first 40 bytes of a header image: e_ident up to e_flags, so that
      e_ehsize starts at offset 40. */
  function EhdrHead(h: Ehdr): (img: seq<byte>)
    requires h.WellSized()
    ensures |img| == E_EHSIZE
  {
    h.ident + EncU16(h.etype) + EncU16(h.machine) + EncU32(h.version)
    + EncU32(h.entry) + EncU32(h.phoff) + EncU32(h.shoff) + EncU32(h.flags)
  }

  /** The field offsets of DecodeEhdr are those of the C struct: decoding a
      header image gives back the header. */
  lemma EhdrRoundTrip(h: Ehdr, data: seq<byte>)
    requires h.WellSized() && |data| >= EHDR_SIZE
    requires data[..EHDR_SIZE] == EncodeEhdr(h)
    ensures DecodeEhdr(data) == h
  {
    var p7 := EhdrHead(h);
    var p8 := p7 + EncU16(h.ehsize);
    var p9 := p8 + EncU16(h.phEntSize);
    var p10 := p9 + EncU16(h.phnum);
    var p11 := p10 + EncU16(h.shEntSize);
    var p12 := p11 + EncU16(h.shnum);
    PeelU16(data, 0, p12, h.shstrndx);
    PeelU16(data, 0, p11, h.shnum);
    PeelU16(data, 0, p10, h.shEntSize);
    PeelU16(data, 0, p9, h.phnum);
    PeelU16(data, 0, p8, h.phEntSize);
    PeelU16(data, 0, p7, h.ehsize);
    EhdrHeadRoundTrip(h, data);
  }

  /** The first seven fields read back from the head of a header image. */
  lemma EhdrHeadRoundTrip(h: Ehdr, data: seq<byte>)
    requires h.WellSized() && |data| >= E_EHSIZE
    requires data[..E_EHSIZE] == EhdrHead(h)
    ensures data[E_IDENT..E_IDENT + EI_NIDENT] == h.ident
    ensures LeU16(data, E_TYPE) == h.etype && LeU16(data, E_MACHINE) == h.machine
    ensures LeU32(data, E_VERSION) == h.version && LeU32(data, E_ENTRY) == h.entry
    ensures LeU32(data, E_PHOFF) == h.phoff && LeU32(data, E_SHOFF) == h.shoff
    ensures LeU32(data, E_FLAGS) == h.flags
  {
    var p0 := h.ident;
    var p1 := p0 + EncU16(h.etype);
    var p2 := p1 + EncU16(h.machine);
    var p3 := p2 + EncU32(h.version);
    var p4 := p3 + EncU32(h.entry);
    var p5 := p4 + EncU32(h.phoff);
    var p6 := p5 + EncU32(h.shoff);
    PeelU32(data, 0, p6, h.flags);
    PeelU32(data, 0, p5, h.shoff);
    PeelU32(data, 0, p4, h.phoff);
    PeelU32(data, 0, p3, h.entry);
    PeelU32(data, 0, p2, h.version);
    PeelU16(data, 0, p1, h.machine);
    PeelU16(data, 0, p0, h.etype);
    assert data[..EI_NIDENT] == p0;
  }

  // ---------------------------------------------------------------------
  // Section header (Elf32_Shdr)
  // ---------------------------------------------------------------------

  // reserved section header index
  const SHN_UNDEF: nat := 0

  // sh_type values
  const SHT_NULL: nat := 0
  const SHT_PROGBITS: nat := 1
  const SHT_SYMTAB: nat := 2
  const SHT_STRTAB: nat := 3
  const SHT_DYNSYM: nat := 11

  // byte offsets of the Elf32_Shdr fields
  const SH_NAME: nat := 0
  const SH_TYPE: nat := 4
  const SH_FLAGS: nat := 8
  const SH_ADDR: nat := 12
  const SH_OFFSET: nat := 16
  const SH_SIZE: nat := 20
  const SH_LINK: nat := 24
  const SH_INFO: nat := 28
  const SH_ADDRALIGN: nat := 32
  const SH_ENTSIZE: nat := 36
  const SHDR_SIZE: nat := 40

  datatype Shdr = Shdr(
    name: nat,
    stype: nat,
    flags: nat,
    addr: nat,
    offset: nat,
    size: nat,
    link: nat,
    info: nat,
    addrAlign: nat,
    entSize: nat)
  {
    predicate WellSized()
    {
      && name < U32_LIMIT && stype < U32_LIMIT && flags < U32_LIMIT
      && addr < U32_LIMIT && offset < U32_LIMIT && size < U32_LIMIT
      && link < U32_LIMIT && info < U32_LIMIT && addrAlign < U32_LIMIT
      && entSize < U32_LIMIT
    }
  }

  /** The section header viewed at byte `off`. */
  function DecodeShdr(data: seq<byte>, off: nat): (h: Shdr)
    requires off + SHDR_SIZE <= |data|
    ensures h.WellSized()
  {
    Shdr(LeU32(data, off + SH_NAME), LeU32(data, off + SH_TYPE),
         LeU32(data, off + SH_FLAGS), LeU32(data, off + SH_ADDR),
         LeU32(data, off + SH_OFFSET), LeU32(data, off + SH_SIZE),
         LeU32(data, off + SH_LINK), LeU32(data, off + SH_INFO),
         LeU32(data, off + SH_ADDRALIGN), LeU32(data, off + SH_ENTSIZE))
  }

  /** The bytes of an Elf32_Shdr: ten words in declaration order. */
  function EncodeShdr(h: Shdr): (img: seq<byte>)
    requires h.WellSized()
    ensures |img| == SHDR_SIZE
  {
    EncU32(h.name) + EncU32(h.stype) + EncU32(h.flags) + EncU32(h.addr)
    + EncU32(h.offset) + EncU32(h.size) + EncU32(h.link) + EncU32(h.info)
    + EncU32(h.addrAlign) + EncU32(h.entSize)
  }

  /** A section header image stored at `off` decodes to that header. */
  lemma ShdrRoundTrip(h: Shdr, data: seq<byte>, off: nat)
    requires h.WellSized() && off + SHDR_SIZE <= |data|
    requires data[off..off + SHDR_SIZE] == EncodeShdr(h)
    ensures DecodeShdr(data, off) == h
  {
    var p0 := EncU32(h.name);
    var p1 := p0 + EncU32(h.stype);
    var p2 := p1 + EncU32(h.flags);
    var p3 := p2 + EncU32(h.addr);
    var p4 := p3 + EncU32(h.offset);
    var p5 := p4 + EncU32(h.size);
    var p6 := p5 + EncU32(h.link);
    var p7 := p6 + EncU32(h.info);
    var p8 := p7 + EncU32(h.addrAlign);
    PeelU32(data, off, p8, h.entSize);
    PeelU32(data, off, p7, h.addrAlign);
    PeelU32(data, off, p6, h.info);
    PeelU32(data, off, p5, h.link);
    PeelU32(data, off, p4, h.size);
    PeelU32(data, off, p3, h.offset);
    PeelU32(data, off, p2, h.addr);
    PeelU32(data, off, p1, h.flags);
    PeelU32(data, off, p0, h.stype);
    PeelU32(data, off, [], h.name);
  }

  // ---------------------------------------------------------------------
  // Symbol entry (Elf32_Sym)
  // ---------------------------------------------------------------------

  // byte offsets of the Elf32_Sym fields
  const ST_NAME: nat := 0
  const ST_VALUE: nat := 4
  const ST_SIZE: nat := 8
  const ST_INFO: nat := 12
  const ST_OTHER: nat := 13
  const ST_SHNDX: nat := 14
  /** sizeof(Elf32_Sym): the stride of a symbol table. */
  const SYM_SIZE: nat := 16

  datatype Sym = Sym(name: nat, value: nat, size: nat, info: byte, other: byte, shndx: nat)
  {
    predicate WellSized()
    {
      name < U32_LIMIT && value < U32_LIMIT && size < U32_LIMIT && shndx < U16_LIMIT
    }
  }

  /** The symbol entry viewed at byte `off`. */
  function DecodeSym(data: seq<byte>, off: nat): (y: Sym)
    requires off + SYM_SIZE <= |data|
    ensures y.WellSized()
  {
    Sym(LeU32(data, off + ST_NAME), LeU32(data, off + ST_VALUE),
        LeU32(data, off + ST_SIZE), data[off + ST_INFO], data[off + ST_OTHER],
        LeU16(data, off + ST_SHNDX))
  }

  /** The bytes of an Elf32_Sym: three words, two bytes and a half word. */
  function EncodeSym(y: Sym): (img: seq<byte>)
    requires y.WellSized()
    ensures |img| == SYM_SIZE
  {
    EncU32(y.name) + EncU32(y.value) + EncU32(y.size) + [y.info] + [y.other] + EncU16(y.shndx)
  }

  /** A symbol image stored at `off` decodes to that symbol. */
  lemma SymRoundTrip(y: Sym, data: seq<byte>, off: nat)
    requires y.WellSized() && off + SYM_SIZE <= |data|
    requires data[off..off + SYM_SIZE] == EncodeSym(y)
    ensures DecodeSym(data, off) == y
  {
    var p0 := EncU32(y.name);
    var p1 := p0 + EncU32(y.value);
    var p2 := p1 + EncU32(y.size);
    var p3 := p2 + [y.info];
    var p4 := p3 + [y.other];
    PeelU16(data, off, p4, y.shndx);
    PeelByte(data, off, p3, y.other);
    PeelByte(data, off, p2, y.info);
    PeelU32(data, off, p1, y.size);
    PeelU32(data, off, p0, y.value);
    PeelU32(data, off, [], y.name);
  }

  // st_info manipulation macros, on the unsigned char that st_info is

  /** ELF32_ST_BIND(i) = i >> 4: the high nibble. */
  function StBind(i: byte): (b: byte)
    ensures b < 16
  {
    i / 16
  }

  /** ELF32_ST_TYPE(i) = i & 0xf: the low nibble. */
  function StType(i: byte): (t: byte)
    ensures t < 16
  {
    i % 16
  }

  /** ELF32_ST_INFO(b, t) = (b << 4) + (t & 0xf), stored into an unsigned char,
      which keeps the low eight bits. */
  function StInfo(b: byte, t: byte): (i: byte)
    ensures b < 16 ==> StBind(i) == b
    ensures StType(i) == t % 16
  {
    ((b as int * 16 + t as int % 16) % 0x100) as byte
  }

  /** Every st_info byte is packed from its own binding and type. */
  lemma StInfoOfParts(i: byte)
    ensures StInfo(StBind(i), StType(i)) == i
  {
  }

  // ---------------------------------------------------------------------
  // Program header (Elf32_Phdr)
  // ---------------------------------------------------------------------

  // byte offsets of the Elf32_Phdr fields
  const P_TYPE: nat := 0
  const P_OFFSET: nat := 4
  const P_VADDR: nat := 8
  const P_PADDR: nat := 12
  const P_FILESZ: nat := 16
  const P_MEMSZ: nat := 20
  const P_FLAGS: nat := 24
  const P_ALIGN: nat := 28
  const PHDR_SIZE: nat := 32

  datatype Phdr = Phdr(
    ptype: nat,
    offset: nat,
    vaddr: nat,
    paddr: nat,
    fileSize: nat,
    memSize: nat,
    flags: nat,
    align: nat)
  {
    predicate WellSized()
    {
      && ptype < U32_LIMIT && offset < U32_LIMIT && vaddr < U32_LIMIT
      && paddr < U32_LIMIT && fileSize < U32_LIMIT && memSize < U32_LIMIT
      && flags < U32_LIMIT && align < U32_LIMIT
    }
  }

  /** The program header entry viewed at byte `off`. */
  function DecodePhdr(data: seq<byte>, off: nat): (p: Phdr)
    requires off + PHDR_SIZE <= |data|
    ensures p.WellSized()
  {
    Phdr(LeU32(data, off + P_TYPE), LeU32(data, off + P_OFFSET),
         LeU32(data, off + P_VADDR), LeU32(data, off + P_PADDR),
         LeU32(data, off + P_FILESZ), LeU32(data, off + P_MEMSZ),
         LeU32(data, off + P_FLAGS), LeU32(data, off + P_ALIGN))
  }

  /** The bytes of an Elf32_Phdr: eight words in declaration order. */
  function EncodePhdr(p: Phdr): (img: seq<byte>)
    requires p.WellSized()
    ensures |img| == PHDR_SIZE
  {
    EncU32(p.ptype) + EncU32(p.offset) + EncU32(p.vaddr) + EncU32(p.paddr)
    + EncU32(p.fileSize) + EncU32(p.memSize) + EncU32(p.flags) + EncU32(p.align)
  }

  /** A program header image stored at `off` decodes to that entry. */
  lemma PhdrRoundTrip(p: Phdr, data: seq<byte>, off: nat)
    requires p.WellSized() && off + PHDR_SIZE <= |data|
    requires data[off..off + PHDR_SIZE] == EncodePhdr(p)
    ensures DecodePhdr(data, off) == p
  {
    var p0 := EncU32(p.ptype);
    var p1 := p0 + EncU32(p.offset);
    var p2 := p1 + EncU32(p.vaddr);
    var p3 := p2 + EncU32(p.paddr);
    var p4 := p3 + EncU32(p.fileSize);
    var p5 := p4 + EncU32(p.memSize);
    var p6 := p5 + EncU32(p.flags);
    PeelU32(data, off, p6, p.align);
    PeelU32(data, off, p5, p.flags);
    PeelU32(data, off, p4, p.memSize);
    PeelU32(data, off, p3, p.fileSize);
    PeelU32(data, off, p2, p.paddr);
    PeelU32(data, off, p1, p.vaddr);
    PeelU32(data, off, p0, p.offset);
    PeelU32(data, off, [], p.ptype);
  }
}
