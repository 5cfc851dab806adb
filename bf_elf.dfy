/**
 * The executable image of compiler_write_elf (brainfuck/compiler.c): an
 * ELF-64 file header, one program header, then the code.
 *
 * The two headers are records with the field names and widths of
 * Elf64_Ehdr and Elf64_Phdr (System V gABI, chapter 4 "ELF Header" and
 * chapter 5 "Program Header"); fields compiler_write_elf does not set are
 * zero, as in a C designated initializer. Each header is written out field
 * by field, least significant byte first, as fwrite does on an x86-64 host.
 * Opening and writing the file is not part of the model.
 */
module BfElf {
  import opened BfBytes

  /** sizeof(Elf64_Ehdr) and sizeof(Elf64_Phdr). */
  const EHDR_SIZE: nat := 64
  const PHDR_SIZE: nat := 56
  /** The load address of the image. */
  const BASE: nat := 0x400000
  /** 2^64: uint64_t fields hold their value modulo this. */
  const U64: nat := 0x1_0000_0000_0000_0000

  /** e_ident values and the other constants compiler_write_elf uses (from <elf.h>). */
  const ELFCLASS64: Byte := 2
  const ELFDATA2LSB: Byte := 1
  const EV_CURRENT: nat := 1
  const ELFOSABI_SYSV: Byte := 0
  const ET_EXEC: nat := 2
  const EM_X86_64: nat := 62
  const PT_LOAD: nat := 1
  const PF_X: nat := 1
  const PF_R: nat := 4

  datatype Ehdr = Ehdr(
    ident: seq<Byte>, etype: nat, machine: nat, version: nat,
    entry: nat, phoff: nat, shoff: nat, flags: nat,
    ehsize: nat, phentsize: nat, phnum: nat, shentsize: nat, shnum: nat, shstrndx: nat)

  datatype Phdr = Phdr(
    ptype: nat, flags: nat, offset: nat, vaddr: nat,
    paddr: nat, filesz: nat, memsz: nat, align: nat)

  /** The entry point: the load address plus both headers, where the code starts. */
  function Entry(): nat { BASE + EHDR_SIZE + PHDR_SIZE }

  /**
   * The file header compiler_write_elf fills in: an x86-64 executable whose
   * one program header follows the file header, and whose entry point is
   * the load address plus both headers.
   */
  function FileHeader(): (h: Ehdr)
    ensures |h.ident| == 16 && h.ident[..4] == [0x7F, 'E' as Byte, 'L' as Byte, 'F' as Byte]
    ensures h.etype == ET_EXEC && h.machine == EM_X86_64
    ensures h.phoff == h.ehsize == EHDR_SIZE && h.phentsize == PHDR_SIZE && h.phnum == 1
    ensures h.entry == BASE + h.phoff + h.phnum * h.phentsize
  {
    Ehdr(
      [0x7F, 'E' as Byte, 'L' as Byte, 'F' as Byte, ELFCLASS64, ELFDATA2LSB, EV_CURRENT as Byte, ELFOSABI_SYSV,
       0, 0, 0, 0, 0, 0, 0, 0],
      ET_EXEC, EM_X86_64, EV_CURRENT,
      Entry(), EHDR_SIZE, 0, 0,
      EHDR_SIZE, PHDR_SIZE, 1, 0, 0, 0)
  }

  /**
   * The single program header: a readable, executable PT_LOAD segment
   * holding the code, which starts in the file right after the headers and
   * is loaded at the entry point.
   */
  function ProgramHeader(codeLen: nat): (p: Phdr)
    ensures p.ptype == PT_LOAD && p.flags == PF_X + PF_R
    ensures p.offset == FileHeader().phoff + FileHeader().phnum * FileHeader().phentsize
    ensures p.vaddr == FileHeader().entry && p.filesz == p.memsz == codeLen
  {
    Phdr(PT_LOAD, PF_X + PF_R, EHDR_SIZE + PHDR_SIZE, Entry(), 0, codeLen, codeLen, 0)
  }

  /** The widths of the Elf64_Ehdr fields after e_ident, e_type to e_shstrndx. */
  const EHDR_WIDTHS: seq<nat> := [2, 2, 4, 8, 8, 8, 4, 2, 2, 2, 2, 2, 2]
  /** The widths of the Elf64_Phdr fields, p_type to p_align. */
  const PHDR_WIDTHS: seq<nat> := [4, 4, 8, 8, 8, 8, 8, 8]

  /** The file header fields after e_ident, in declaration order. */
  function EhdrValues(h: Ehdr): seq<nat>
  {
    [h.etype, h.machine, h.version, h.entry, h.phoff, h.shoff, h.flags,
     h.ehsize, h.phentsize, h.phnum, h.shentsize, h.shnum, h.shstrndx]
  }

  /** The program header fields, in declaration order. */
  function PhdrValues(p: Phdr): seq<nat>
  {
    [p.ptype, p.flags, p.offset, p.vaddr, p.paddr, p.filesz, p.memsz, p.align]
  }

  /** Fields laid out one after another, each least significant byte first in its width. */
  function Pack(widths: seq<nat>, values: seq<nat>): (r: seq<Byte>)
    requires |widths| == |values|
    ensures |r| == Total(widths)
  {
    if widths == [] then [] else LittleEndian(widths[0], values[0]) + Pack(widths[1..], values[1..])
  }

  /** The widths added up: the size of a record. */
  function Total(widths: seq<nat>): nat
  {
    if widths == [] then 0 else widths[0] + Total(widths[1..])
  }

  /** A record's fields as a reader takes them from the front of `bytes`, one width at a time. */
  function Unpack(widths: seq<nat>, bytes: seq<Byte>): (r: seq<nat>)
    requires Total(widths) <= |bytes|
    ensures |r| == |widths|
  {
    if widths == [] then []
    else [FromLittleEndian(bytes[..widths[0]])] + Unpack(widths[1..], bytes[widths[0]..])
  }

  /** Every field value fits in its width. */
  predicate Fits(widths: seq<nat>, values: seq<nat>)
    requires |widths| == |values|
  {
    forall i :: 0 <= i < |widths| ==> values[i] < Pow256(widths[i])
  }

  /**
   * Reading a packed record back gives its fields, whatever follows it,
   * when each field fits its width.
   */
  lemma {:induction false} UnpackPack(widths: seq<nat>, values: seq<nat>, rest: seq<Byte>)
    requires |widths| == |values| && Fits(widths, values)
    ensures Unpack(widths, Pack(widths, values) + rest) == values
  {
    if widths != [] {
      var head, tail := LittleEndian(widths[0], values[0]), Pack(widths[1..], values[1..]);
      var bytes := head + tail + rest;
      assert Pack(widths, values) + rest == bytes;
      assert bytes[..widths[0]] == head;
      assert bytes[widths[0]..] == tail + rest;
      LittleEndianRoundTrip(widths[0], values[0]);
      assert Fits(widths[1..], values[1..]) by {
        forall i | 0 <= i < |widths| - 1
          ensures values[1..][i] < Pow256(widths[1..][i])
        {
          assert values[1..][i] == values[i + 1] && widths[1..][i] == widths[i + 1];
        }
      }
      UnpackPack(widths[1..], values[1..], rest);
    }
  }

  /** Records whose fields have the same bytes pack to the same bytes. */
  lemma {:induction false} PackSameBytes(widths: seq<nat>, values: seq<nat>, others: seq<nat>)
    requires |widths| == |values| == |others|
    requires forall i :: 0 <= i < |widths| ==> LittleEndian(widths[i], values[i]) == LittleEndian(widths[i], others[i])
    ensures Pack(widths, values) == Pack(widths, others)
  {
    if widths != [] {
      forall i | 0 <= i < |widths| - 1
        ensures LittleEndian(widths[1..][i], values[1..][i]) == LittleEndian(widths[1..][i], others[1..][i])
      {
        assert widths[1..][i] == widths[i + 1];
      }
      PackSameBytes(widths[1..], values[1..], others[1..]);
    }
  }

  /** The total widths of both headers. */
  lemma HeaderWidths()
    ensures 16 + Total(EHDR_WIDTHS) == EHDR_SIZE && Total(PHDR_WIDTHS) == PHDR_SIZE
  {
  }

  /** An Elf64_Ehdr as it lies in memory: 16 ident bytes, then the fields at their widths. */
  function EhdrBytes(h: Ehdr): (r: seq<Byte>)
    requires |h.ident| == 16
    ensures |r| == EHDR_SIZE
  {
    HeaderWidths();
    h.ident + Pack(EHDR_WIDTHS, EhdrValues(h))
  }

  /** An Elf64_Phdr as it lies in memory. */
  function PhdrBytes(p: Phdr): (r: seq<Byte>)
    ensures |r| == PHDR_SIZE
  {
    HeaderWidths();
    Pack(PHDR_WIDTHS, PhdrValues(p))
  }

  /** What follows two prefixes. */
  lemma AfterBoth(x: seq<Byte>, y: seq<Byte>, z: seq<Byte>)
    ensures (x + (y + z))[|x| + |y|..] == z
  {
    assert (x + (y + z))[|x|..] == y + z;
  }

  /** What compiler_write_elf writes: the file header, the program header, then the code. */
  function ElfImage(code: seq<Byte>): (r: seq<Byte>)
    ensures |r| == EHDR_SIZE + PHDR_SIZE + |code|
    ensures r[EHDR_SIZE + PHDR_SIZE..] == code
  {
    var e, p := EhdrBytes(FileHeader()), PhdrBytes(ProgramHeader(|code|));
    AfterBoth(e, p, code);
    e + (p + code)
  }

  /** After the 16 ident bytes come the packed file header fields, then the rest. */
  lemma EhdrParts(h: Ehdr, rest: seq<Byte>)
    requires |h.ident| == 16
    ensures (EhdrBytes(h) + rest)[..16] == h.ident
    ensures (EhdrBytes(h) + rest)[16..] == Pack(EHDR_WIDTHS, EhdrValues(h)) + rest
  {
    assert EhdrBytes(h) + rest == h.ident + (Pack(EHDR_WIDTHS, EhdrValues(h)) + rest);
  }

  /** After the file header come the packed program header fields, then the rest. */
  lemma PhdrParts(e: seq<Byte>, p: Phdr, code: seq<Byte>)
    requires |e| == EHDR_SIZE
    ensures (e + PhdrBytes(p) + code)[EHDR_SIZE..] == Pack(PHDR_WIDTHS, PhdrValues(p)) + code
  {
    assert e + PhdrBytes(p) + code == e + (PhdrBytes(p) + code);
  }

  /** Reading a file header back from its bytes gives its fields, when each fits its width. */
  lemma EhdrReadsBack(h: Ehdr, rest: seq<Byte>)
    requires |h.ident| == 16 && Fits(EHDR_WIDTHS, EhdrValues(h))
    ensures (EhdrBytes(h) + rest)[..16] == h.ident
    ensures Unpack(EHDR_WIDTHS, (EhdrBytes(h) + rest)[16..]) == EhdrValues(h)
  {
    EhdrParts(h, rest);
    UnpackPack(EHDR_WIDTHS, EhdrValues(h), rest);
  }

  /** Every file header field compiler_write_elf sets fits its width. */
  lemma FileHeaderFits()
    ensures Fits(EHDR_WIDTHS, EhdrValues(FileHeader()))
  {
  }

  /**
   * A loader reading the image gets back the file header compiler_write_elf
   * filled in: the ELF magic and class, data and OS ABI bytes, then every
   * field, each of which fits its width.
   */
  lemma FileHeaderReadsBack(code: seq<Byte>)
    ensures ElfImage(code)[..16] == FileHeader().ident
    ensures Unpack(EHDR_WIDTHS, ElfImage(code)[16..]) == EhdrValues(FileHeader())
  {
    FileHeaderFits();
    EhdrReadsBack(FileHeader(), PhdrBytes(ProgramHeader(|code|)) + code);
  }

  /**
   * A loader reading the image gets back the program header, with the code
   * length in p_filesz and p_memsz taken modulo 2^64 as a uint64_t holds it.
   */
  lemma ProgramHeaderReadsBack(code: seq<Byte>)
    ensures Unpack(PHDR_WIDTHS, ElfImage(code)[EHDR_SIZE..]) == PhdrValues(ProgramHeader(|code| % U64))
  {
    var p, q := ProgramHeader(|code|), ProgramHeader(|code| % U64);
    assert Pow256(8) == U64;
    assert Fits(PHDR_WIDTHS, PhdrValues(q));
    assert PhdrBytes(p) == PhdrBytes(q) by {
      forall i | 0 <= i < |PHDR_WIDTHS|
        ensures LittleEndian(PHDR_WIDTHS[i], PhdrValues(p)[i]) == LittleEndian(PHDR_WIDTHS[i], PhdrValues(q)[i])
      {
        LittleEndianWrap(8, |code|);
      }
      PackSameBytes(PHDR_WIDTHS, PhdrValues(p), PhdrValues(q));
    }
    PhdrParts(EhdrBytes(FileHeader()), q, code);
    UnpackPack(PHDR_WIDTHS, PhdrValues(q), code);
  }
}
