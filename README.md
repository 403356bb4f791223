# BoatLooder core in Dafny

This project models two parts of BoatLooder, a firmware uploader for the Lego NXT brick.

- **ElfSword** is a read-only reader of ELF32 files. It maps a file and checks its magic number. It locates the section-name string table and builds a name-to-section hash table. It then answers queries:
  - section lookup by name;
  - section and symbol names;
  - section content;
  - callback scans over the section headers, a symbol table, and the program headers.
- The **NxtAccess** frame writer `nxtusb_send` byte-stuffs a payload. Every ESC (0x1b) or EOT (0x04) is preceded by an ESC, and the frame ends with an EOT. The frame goes out through a 5-byte staging buffer, which is flushed to the USB bulk endpoint whenever it fills. `nxtusb_geterr` maps an error code to its message.

Files:

- `wrappers.dfy`: `Option`, which stands for a C pointer that may be NULL.
- `bytes.dfy`: the `byte` type (an unsigned char) that both subsystems share.
- `elf_specification.dfy` (module `ElfSpecification`):
  - the little-endian field readers and writers;
  - the constants of `elf_specification.h`;
  - the four record layouts `Elf32_Ehdr`, `Elf32_Shdr`, `Elf32_Sym` and `Elf32_Phdr`, each as a datatype with a decoder, an encoder and a round-trip lemma;
  - the `ELF32_ST_*` macros.
- `elf.dfy` (module `Elf`):
  - the mapped file is an immutable `seq<byte>`;
  - every `Elf32_Shdr *`, `Elf32_Sym *` or `Elf32_Phdr *` the C code uses is the byte offset of that header in the buffer;
  - a C callback is a function from offsets to `bool`;
  - a scan returns the offsets it handed to the callback;
  - `class ElfFile` is `struct elf_struct`, with the located string table `names` and the name index `namtab`.
- `nxtusb.dfy` (module `NxtUsb`):
  - the pure frame `Stuff`, and its decoder `Unstuff`;
  - `class Nxt`, the `struct nxtusb` staging buffer as an `array<byte>` of length 5. A ghost log `sent` records every chunk handed to `send_raw`;
  - the error table.

Modelling choices:

- **Byte order.** Multi-byte fields are read in ELFDATA2LSB (little-endian) order. The C code reads them in host order, so the model agrees with it only on a little-endian host; nothing in the source restricts the host.
- **Pointer arithmetic.** It is modelled on unbounded naturals. The one place where the C arithmetic is 32-bit is `e_sheentsize * sh_link` in `elf_symbol_name`: a `uint16_t` times a `uint32_t` is computed as `unsigned int`. The model takes that product modulo 2^32.
- **The name index.** `hsearch_r` with `ENTER` leaves an existing key untouched. When two sections share a name, the first one in header order therefore keeps it, and `elf_section_get` returns that first section. A table that replaced existing keys would return the last one instead.
- **Unnamed sections.** `hash_builder` enters whatever `elf_section_name` returns, and that is NULL when the file has no section-name table, which `hsearch_r` cannot accept. The model therefore requires a section-name table whenever the file has sections (`Elf.Loadable`), and does not skip anything.

## Model

| member | source | states |
|---|---|---|
| ElfSpecification.LeU16 | src/ElfSword/elf_specification.h:34 | an Elf32_Half read from the buffer is below 2^16 |
| ElfSpecification.LeU32 | src/ElfSword/elf_specification.h:33-37 | an Elf32_Word/Addr/Off read from the buffer is below 2^32 |
| ElfSpecification.EncU16 | src/ElfSword/elf_specification.h:34 | a half word takes two bytes and reads back as itself |
| ElfSpecification.EncU32 | src/ElfSword/elf_specification.h:33-37 | a word takes four bytes and reads back as itself |
| ElfSpecification.DecodeEhdr | src/ElfSword/elf_specification.h:43-59 | the header read from the first 52 bytes has a 16-byte e_ident and every field within its C width |
| ElfSpecification.EncodeEhdr | src/ElfSword/elf_specification.h:43-59 | an Elf32_Ehdr image is 52 bytes |
| ElfSpecification.EhdrHead | src/ElfSword/elf_specification.h:45-52 | the image of e_ident up to e_flags is the first 40 bytes, so e_ehsize starts at offset 40 |
| ElfSpecification.EhdrHeadRoundTrip | src/ElfSword/elf_specification.h:45-52 | e_ident and the six fields after it read back from the head of a header image |
| ElfSpecification.EhdrRoundTrip | src/ElfSword/elf_specification.h:43-59 | reading a header image gives back the header, so the field offsets are those of the struct in declaration order |
| ElfSpecification.DecodeShdr | src/ElfSword/elf_specification.h:148-160 | a section header read at any in-bounds offset has every field within 32 bits |
| ElfSpecification.EncodeShdr | src/ElfSword/elf_specification.h:148-160 | an Elf32_Shdr image is 40 bytes |
| ElfSpecification.ShdrRoundTrip | src/ElfSword/elf_specification.h:148-160 | reading a section header image at any offset gives back the header |
| ElfSpecification.DecodeSym | src/ElfSword/elf_specification.h:206-214 | a symbol entry read at any in-bounds offset has each field within its C width |
| ElfSpecification.EncodeSym | src/ElfSword/elf_specification.h:206-214 | an Elf32_Sym image is 16 bytes |
| ElfSpecification.SymRoundTrip | src/ElfSword/elf_specification.h:206-214 | reading a symbol image at any offset gives back the symbol |
| ElfSpecification.DecodePhdr | src/ElfSword/elf_specification.h:251-264 | a program header read at any in-bounds offset has every field within 32 bits |
| ElfSpecification.EncodePhdr | src/ElfSword/elf_specification.h:251-264 | an Elf32_Phdr image is 32 bytes |
| ElfSpecification.PhdrRoundTrip | src/ElfSword/elf_specification.h:251-264 | reading a program header image at any offset gives back the header |
| ElfSpecification.StBind | src/ElfSword/elf_specification.h:217 | the binding of st_info is a 4-bit value |
| ElfSpecification.StType | src/ElfSword/elf_specification.h:218 | the type of st_info is a 4-bit value |
| ElfSpecification.StInfo | src/ElfSword/elf_specification.h:219 | packing a binding below 16 and a type gives back that binding and the type's low 4 bits |
| ElfSpecification.StInfoOfParts | src/ElfSword/elf_specification.h:216-219 | every st_info byte is the packing of its own binding and type |
| Elf.CheckMagic | src/ElfSword/elf.c:124-134 | true exactly when the buffer has at least 4 bytes and they are 0x7f 'E' 'L' 'F' |
| Elf.CheckMagicOfHeader | src/ElfSword/elf.c:129-133 | a file that starts with a header image passes the check exactly when that header's e_ident starts with the magic |
| Elf.SectionOffsets | src/ElfSword/elf.c:112-121 | the section headers are e_shnum entries, the k-th at e_shoff + k * e_sheentsize |
| Elf.ProgHeaderOffsets | src/ElfSword/elf.h:163-174 | the program headers are e_phnum entries, the k-th at e_phoff + k * e_phentsize |
| Elf.SymbolOffsets | src/ElfSword/elf.c:96-101 | a symbol table holds sh_size / 16 entries, the k-th at sh_offset + 16 * k |
| Elf.CString | src/ElfSword/elf.c:79-80 | the name returned is the run of non-NUL bytes at the position, followed by a NUL inside the buffer |
| Elf.CStringUnique | src/ElfSword/elf.c:79-80 | a position holds at most one C string, so the name read is determined by the bytes |
| Elf.NamesHeader | src/ElfSword/elf.c:193-200 | no string table exactly when e_shstrndx is SHN_UNDEF; otherwise the header at e_shoff + e_shstrndx * e_sheentsize |
| Elf.SectionName | src/ElfSword/elf.c:74-84 | NULL exactly when there is no string table; otherwise the C string at strtab.sh_offset + shdr.sh_name |
| Elf.LinkedHeader | src/ElfSword/elf.c:60-63 | the linked string table sits at e_shoff + (e_sheentsize * sh_link) mod 2^32 |
| Elf.SymbolName | src/ElfSword/elf.c:50-65 | NULL exactly when the section is not SHT_SYMTAB/SHT_DYNSYM or st_name is 0; otherwise the C string at the linked table's sh_offset + st_name |
| Elf.SectionContent | src/ElfSword/elf.c:67-72 | the content starts at sh_offset and is sh_size bytes long |
| Elf.SectionContentOfHeader | src/ElfSword/elf.c:67-72 | for a section header image stored at the offset, the content is the extent (sh_offset, sh_size) that header records |
| Elf.ScanVisitsUnique | src/ElfSword/elf.h:115-126 | the callbacks a scan makes are determined by the headers and the callback |
| Elf.ScanVisitsAllTrue | src/ElfSword/elf.h:115-126 | a callback that always returns true is called on every header |
| Elf.StridedScan | src/ElfSword/elf.c:117-121 | the loop calls back on the strided offsets in order and stops right after the first false answer |
| Elf.SectionsScan | src/ElfSword/elf.c:105-122 | the callback sees the section headers in order, up to and including the first false answer |
| Elf.SymbolsScan | src/ElfSword/elf.c:86-103 | no callback for a section that is not a symbol table; otherwise the symbol entries in order, up to the first false answer |
| Elf.ProgHeaderScan | src/ElfSword/elf.h:163-174 | false exactly when e_phnum is 0, with no callback; otherwise true, with the program headers in order up to the first false answer |
| Elf.Enter | src/ElfSword/elf.c:160 | ENTER adds the key if it is absent and never replaces an existing entry |
| Elf.HashBuilder | src/ElfSword/elf.c:151-163 | enters the section under its name and always asks the scan to go on |
| Elf.NamedSections | src/ElfSword/elf.c:152-162 | hash_builder enters one pair per section header, the i-th being the i-th header's name and the header itself |
| Elf.IndexStep | src/ElfSword/elf.c:160 | entering one more pair is one ENTER on the table built so far |
| Elf.IndexKeepsFirst | src/ElfSword/elf.c:202-206 | a name is in the index exactly when some section has it, and it maps to the first such section |
| Elf.ElfFile.constructor | src/ElfSword/elf.c:175-177 | a fresh elf_struct over the given bytes with no table and an empty index |
| Elf.ElfFile.BuildIndex | src/ElfSword/elf.c:202-206 | after the scan, the name table is the one built by entering every section header, in order, into an empty table |
| Elf.ElfFile.MapFile | src/ElfSword/elf.c:165-218 | NULL exactly when the magic check fails; otherwise a fresh object over the bytes with its name table located and its index holding every section |
| Elf.ElfFile.SectionGet | src/ElfSword/elf.c:220-231 | NULL exactly when no section has the name; otherwise the first section header, in header order, that has it |
| Elf.ElfFile.GetContent | src/ElfSword/elf.h:48-53 | the mapping itself, which starts with the ELF magic |
| Elf.ReleaseFile | src/ElfSword/elf.c:136-149 | false for NULL; otherwise true exactly when both munmap and close returned 0 |
| NxtUsb.Escape | src/NxtAccess/nxtusb.c:77-83 | a payload byte goes out as itself, preceded by ESC exactly when it is ESC or EOT |
| NxtUsb.StuffBodySnoc | src/NxtAccess/nxtusb.c:76-84 | escaping a payload one byte at a time is escaping the whole payload |
| NxtUsb.StuffBodyLength | src/NxtAccess/nxtusb.c:76-84 | the escaped payload has one byte per payload byte plus one per ESC or EOT in it |
| NxtUsb.StuffLength | src/NxtAccess/nxtusb.c:76-86 | the frame has length len + (number of ESC and EOT bytes in the payload) + 1 |
| NxtUsb.UnstuffEscape | src/NxtAccess/nxtusb.c:78-82 | the wire form of a single byte decodes back to that byte, whatever follows it |
| NxtUsb.StuffRoundTrip | src/NxtAccess/nxtusb.c:78-85 | dropping each ESC, taking the following byte literally and stopping at the first unescaped EOT recovers the payload, whatever follows the frame |
| NxtUsb.FlattenSnoc | src/NxtAccess/nxtusb.c:45-50 | joining a log with one more chunk appends that chunk's bytes |
| NxtUsb.FlattenFullLength | src/NxtAccess/nxtusb.c:59-61 | full chunks join to 5 bytes per chunk |
| NxtUsb.FinishLog | src/NxtAccess/nxtusb.c:85-86 | after full chunks that join to the frame's start, a last chunk of 1 to 5 bytes ending in EOT makes the log hold exactly that frame |
| NxtUsb.TransferCount | src/NxtAccess/nxtusb.c:76-86 | a frame sent this way uses its length divided by 5, rounded up, calls to send_raw |
| NxtUsb.Code | src/NxtAccess/nxtusb.h:6-11 | the four error kinds have the codes 0 to 3, each an index into the message table |
| NxtUsb.GetErr | src/NxtAccess/nxtusb.c:33-43 | each of the four errors reads as its message from the table |
| NxtUsb.GetErrInjective | src/NxtAccess/nxtusb.c:33-38 | different errors have different messages |
| NxtUsb.Nxt.constructor | src/NxtAccess/nxtusb.c:98 | the staging buffer is a fresh array of 5 bytes and nothing has been sent |
| NxtUsb.Nxt.SendRaw | src/NxtAccess/nxtusb.c:45-50 | the first n staged bytes are appended to the log as one chunk |
| NxtUsb.Nxt.Chunk | src/NxtAccess/nxtusb.c:52-63 | when the fill is a nonzero multiple of 5, the buffer is sent and the fill reset to 0; otherwise nothing changes; either way the fill is below 5 after the call |
| NxtUsb.Nxt.Put | src/NxtAccess/nxtusb.c:79-83 | one staged byte: the write stays in bounds, and the buffer either grows by that byte or goes out as a full chunk |
| NxtUsb.Nxt.Stage | src/NxtAccess/nxtusb.c:79-83 | one staged byte keeps the sent chunks all full, and the chunks plus the staged bytes grow by exactly that byte |
| NxtUsb.Nxt.Emit | src/NxtAccess/nxtusb.c:77-83 | one loop turn: the sent chunks stay full, and the sent plus staged bytes grow by the wire form of the payload byte |
| NxtUsb.Nxt.Finish | src/NxtAccess/nxtusb.c:85-86 | the EOT closes the staged frame and the buffer goes out as the last chunk, completing the frame in the log |
| NxtUsb.Nxt.Send | src/NxtAccess/nxtusb.c:65-88 | returns success; the chunks sent join to exactly Stuff(payload); every chunk but the last holds 5 bytes; the last holds 1 to 5 bytes and ends with EOT; earlier log entries are untouched |

## Left out

- OS calls: `open`, `fstat`, `mmap`, `munmap` and `close` (src/ElfSword/elf.c:176-187, 141-142) are input and output. The model starts from the file's bytes, and `ReleaseFile` takes the two return codes as parameters. The memory release (`hdestroy_r`, `free`) has no counterpart in the model.
- The hash table's capacity: `hcreate_r` is sized by `e_sheentsize` (elf.c:195, 205), not by the number of sections. Once more distinct names are entered than fit, `ENTER` fails and the surrounding `assert` aborts. The model's index is an unbounded map.
- Side effects inside `assert` (elf.c:160, 205): with `NDEBUG` defined, `hcreate_r` and `hsearch_r` are not called at all. The model follows the build without `NDEBUG`.
- Elf.ElfFile.MapFile: the fail2 path calls `close` twice on the same descriptor (elf.c:210-214), and a failed `mmap` (an empty file, say) is not checked before `check_magic` reads through it. The model has no descriptors, and it treats a buffer of fewer than 4 bytes as failing the magic check.
- Elf.ElfFile.MapFile: requires a full header, a section-name table whenever there are sections, and every section name ending inside the buffer. The C code reads out of bounds or crashes on such files instead of reporting an error.
- Elf.SectionName, Elf.SymbolName, Elf.SectionContent, Elf.CString: require the headers and strings they read to lie inside the buffer. The C code does no bounds checks at all.
- Elf.ElfFile.GetContent and Elf.ProgHeaderScan are declared in src/ElfSword/elf.h (lines 53 and 174), but src/ElfSword/elf.c does not define `elf_get_content` or `elf_progheader_scan`; elf.h comes from a different revision, declaring `Elf` and `SecScan` where elf.c uses `elf_t` and `sec_scan_t`. Both are modelled after the header's documentation, with the same loop as the other scans.
- The callback's `udata` and `elf` arguments: a scan callback is a pure function of the header offset, so callback side effects on user data are not modelled. The index construction, the one such side effect in the core, is modelled directly as a loop over the visited headers.
- ElfSpecification.StInfo: returns a byte, `((b << 4) + (t & 0xf)) mod 256`, as when the result is stored into `st_info`. The C macro itself yields an `int`, which differs for a binding `b >= 16`; the model does not give that wider value.
- The constant tables of `elf_specification.h` that no core function uses (`e_type`, `e_machine`, `SHF_*`, `STB_*`/`STT_*`, `PT_*`, the dynamic section) are not transcribed.
- NxtUsb.Nxt.Send: requires the payload to be shorter than 2^32 bytes. The loop counter `i` is a `uint32_t` compared against a `size_t` length, so a longer payload wraps the counter and never ends.
- NxtUsb.Nxt.Chunk: `nxtusb_send` passes the address of its `uint32_t j` where `chunk` expects a `size_t *`. The model treats the fill as the value of `j`, and does not model the wider read and write through that pointer.
- libusb: `nxtusb_new` and `nxtusb_free` and the real transfer inside `send_raw` (src/NxtAccess/nxtusb.c:45-50, 90-144) belong to a library outside the model. `send_raw` only appends to the ghost log, its transfer status is not modelled, and `nxtusb_new` is reduced to allocating the staging buffer. `*libusb_err` is never written by `nxtusb_send`, so it is not a parameter.
- `src/main.c` is demonstration glue and is not part of this model.
