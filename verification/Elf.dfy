/** ELF files: the headers of include/relis/elf.h as bytes, and how the loaders read them. */
module Elf {
  import opened Bytes

  const ELF_MAGIC: nat := 0x464C457F
  const PT_LOAD: nat := 1

  // A field of n bytes.
  function Field(data: seq<bv8>, off: nat, n: nat): nat
    requires off + n <= |data|
  {
    LittleEndian(Numbers(data[off..off + n]))
  }

  // ---- what the loaders read

  // The part of a program header that they use.
  datatype Phdr = Phdr(ptype: nat, offset: nat, vaddr: nat, filesz: nat, memsz: nat)

  function Magic(data: seq<bv8>): nat
    requires |data| >= 64
  {
    Field(data, 0, 4)
  }

  function EntryPoint(data: seq<bv8>): nat
    requires |data| >= 64
  {
    Field(data, 24, 8)
  }

  // The file header and its program headers lie inside the data.
  predicate HasHeaders(data: seq<bv8>) {
    |data| >= 64 && Field(data, 32, 8) + 56 * Field(data, 56, 2) <= |data|
  }

  function Header(data: seq<bv8>, i: nat): Phdr
    requires HasHeaders(data) && i < Field(data, 56, 2)
  {
    HeaderAt(data, Field(data, 32, 8) + 56 * i)
  }

  function HeaderAt(data: seq<bv8>, at: nat): Phdr
    requires at + 56 <= |data|
  {
    Phdr(Field(data, at, 4), Field(data, at + 8, 8), Field(data, at + 16, 8),
         Field(data, at + 32, 8), Field(data, at + 40, 8))
  }

  function Headers(data: seq<bv8>): seq<Phdr>
    requires HasHeaders(data)
  {
    seq(Field(data, 56, 2), i requires 0 <= i < Field(data, 56, 2) => Header(data, i))
  }

  // ---- the structs, field by field

  // A number as k bytes in memory.
  function Le(n: nat, k: nat): (s: seq<bv8>)
    ensures |s| == k
  {
    Octets(Digits(n, k))
  }

  // The fields of a packed struct: values and widths.
  datatype Fields = End | Then(value: nat, width: nat, rest: Fields)

  function Laid(fields: Fields): seq<bv8> {
    match fields case End => [] case Then(value, width, rest) => Le(value, width) + Laid(rest)
  }

  datatype Ehdr = Ehdr(magic: nat, ident: nat, etype: nat, machine: nat, version: nat, entry: nat, phoff: nat,
                       shoff: nat, flags: nat, ehsize: nat, phentsize: nat, phnum: nat, shentsize: nat, shnum: nat,
                       shstrndx: nat)

  // elf64_hdr_t; the twelve bytes e_class to e_pad are one number.
  function EhdrFields(e: Ehdr): Fields {
    Then(e.magic, 4, Then(e.ident, 12, Then(e.etype, 2, Then(e.machine, 2, Then(e.version, 4, EhdrMiddle(e))))))
  }

  function EhdrMiddle(e: Ehdr): Fields {
    Then(e.entry, 8, Then(e.phoff, 8, Then(e.shoff, 8, Then(e.flags, 4, Then(e.ehsize, 2, EhdrEnd(e))))))
  }

  function EhdrEnd(e: Ehdr): Fields {
    Then(e.phentsize, 2, Then(e.phnum, 2, Then(e.shentsize, 2, Then(e.shnum, 2, Then(e.shstrndx, 2, End)))))
  }

  datatype FullPhdr = FullPhdr(ptype: nat, flags: nat, offset: nat, vaddr: nat, paddr: nat, filesz: nat, memsz: nat,
                               align: nat)

  // elf64_phdr_t.
  function PhdrFields(p: FullPhdr): Fields {
    Then(p.ptype, 4, Then(p.flags, 4, Then(p.offset, 8, Then(p.vaddr, 8, PhdrEnd(p)))))
  }

  function PhdrEnd(p: FullPhdr): Fields {
    Then(p.paddr, 8, Then(p.filesz, 8, Then(p.memsz, 8, Then(p.align, 8, End))))
  }

  function Used(p: FullPhdr): Phdr { Phdr(p.ptype, p.offset, p.vaddr, p.filesz, p.memsz) }

  // Every value fits its width.
  predicate Fit(fields: Fields) { fields.End? || (fields.value < Limit(fields.width) && Fit(fields.rest)) }

  // The struct lies at `at`.
  predicate LiesAt(data: seq<bv8>, at: nat, fields: Fields) {
    Fit(fields) && at + |Laid(fields)| <= |data| && data[at..at + |Laid(fields)|] == Laid(fields)
  }

  // ---- reading is the inverse of laying out

  lemma LeBack(n: nat, k: nat)
    requires n < Limit(k)
    ensures LittleEndian(Numbers(Le(n, k))) == n
  {
    NumbersBack(Digits(n, k));
    DigitsBack(n, k);
  }

  // The first field is where the struct is, and the others follow it.
  lemma FirstField(data: seq<bv8>, at: nat, fields: Fields) returns (next: nat)
    requires LiesAt(data, at, fields) && fields.Then?
    ensures next == at + fields.width && next <= |data| && Field(data, at, fields.width) == fields.value
    ensures LiesAt(data, next, fields.rest)
  {
    next := at + fields.width;
    FirstBytes(data, at, fields.value, fields.width, Laid(fields.rest));
  }

  lemma FirstBytes(data: seq<bv8>, at: nat, n: nat, k: nat, b: seq<bv8>)
    requires n < Limit(k) && at + |Le(n, k) + b| <= |data| && data[at..at + |Le(n, k) + b|] == Le(n, k) + b
    ensures Field(data, at, k) == n && data[at + k..at + k + |b|] == b
  {
    SplitSlice(data, at, Le(n, k), b);
    LeBack(n, k);
  }

  lemma SplitSlice(data: seq<bv8>, at: nat, a: seq<bv8>, b: seq<bv8>)
    requires at + |a + b| <= |data| && data[at..at + |a + b|] == a + b
    ensures data[at..at + |a|] == a && data[at + |a|..at + |a| + |b|] == b
  {
    var whole := data[at..at + |a + b|];
    assert whole[..|a|] == a && whole[|a|..] == b;
    assert data[at..at + |a|] == whole[..|a|] && data[at + |a|..at + |a| + |b|] == whole[|a|..];
  }

  // The magic number is the four bytes 0x7F, 'E', 'L', 'F'.
  lemma MagicBytes(data: seq<bv8>)
    requires |data| >= 64
    ensures Magic(data) == ELF_MAGIC <==> Numbers(data[0..4]) == [0x7F, 0x45, 0x4C, 0x46]
  {
    var s := Numbers(data[0..4]);
    FourBytes(s[0], s[1], s[2], s[3]);
    assert s == [s[0], s[1], s[2], s[3]];
    MagicDigits(s[0] as int, s[1] as int, s[2] as int, s[3] as int);
  }

  lemma FourBytes(a: Byte, b: Byte, c: Byte, d: Byte)
    ensures LittleEndian([a, b, c, d]) ==
      (a as int) + 0x100 * (b as int) + 0x1_0000 * (c as int) + 0x100_0000 * (d as int)
  {
    Prepend(d, []);
    Prepend(c, [d]);
    Prepend(b, [c, d]);
    Prepend(a, [b, c, d]);
    assert [d] + [] == [d] && [c] + [d] == [c, d] && [b] + [c, d] == [b, c, d] && [a] + [b, c, d] == [a, b, c, d];
  }

  lemma MagicDigits(a: nat, b: nat, c: nat, d: nat)
    requires a < 256 && b < 256 && c < 256 && d < 256
    ensures a + 0x100 * b + 0x1_0000 * c + 0x100_0000 * d == ELF_MAGIC <==>
      a == 0x7F && b == 0x45 && c == 0x4C && d == 0x46
  {
  }

  // The loaders read back the file header that was laid out.
  lemma EhdrRoundTrip(e: Ehdr, data: seq<bv8>)
    requires |data| >= 64 && LiesAt(data, 0, EhdrFields(e))
    ensures Magic(data) == e.magic && EntryPoint(data) == e.entry
    ensures Field(data, 32, 8) == e.phoff && Field(data, 56, 2) == e.phnum
  {
    var at := FirstField(data, 0, EhdrFields(e));
    at := FirstField(data, at, EhdrFields(e).rest);
    at := FirstField(data, at, EhdrFields(e).rest.rest);
    at := FirstField(data, at, EhdrFields(e).rest.rest.rest);
    at := FirstField(data, at, EhdrFields(e).rest.rest.rest.rest);
    EhdrRest(e, data, at);
  }

  lemma EhdrRest(e: Ehdr, data: seq<bv8>, from: nat)
    requires LiesAt(data, from, EhdrMiddle(e)) && from + 40 <= |data|
    ensures Field(data, from, 8) == e.entry && Field(data, from + 8, 8) == e.phoff
    ensures Field(data, from + 32, 2) == e.phnum
  {
    var at := FirstField(data, from, EhdrMiddle(e));
    at := FirstField(data, at, EhdrMiddle(e).rest);
    at := FirstField(data, at, EhdrMiddle(e).rest.rest);
    at := FirstField(data, at, EhdrMiddle(e).rest.rest.rest);
    at := FirstField(data, at, EhdrMiddle(e).rest.rest.rest.rest);
    at := FirstField(data, at, EhdrEnd(e));
    at := FirstField(data, at, EhdrEnd(e).rest);
  }

  // And a program header, wherever it lies.
  lemma PhdrRoundTrip(p: FullPhdr, data: seq<bv8>, from: nat)
    requires from + 56 <= |data| && LiesAt(data, from, PhdrFields(p))
    ensures HeaderAt(data, from) == Used(p)
  {
    var at := FirstField(data, from, PhdrFields(p));
    at := FirstField(data, at, PhdrFields(p).rest);
    at := FirstField(data, at, PhdrFields(p).rest.rest);
    at := FirstField(data, at, PhdrFields(p).rest.rest.rest);
    at := FirstField(data, at, PhdrEnd(p));
    at := FirstField(data, at, PhdrEnd(p).rest);
    at := FirstField(data, at, PhdrEnd(p).rest.rest);
  }

  // The program headers lie one after the other at `at`.
  predicate LaidOut(data: seq<bv8>, at: nat, hs: seq<FullPhdr>) {
    at + 56 * |hs| <= |data| && forall i :: 0 <= i < |hs| ==> LiesAt(data, at + 56 * i, PhdrFields(hs[i]))
  }

  // From a file that is laid out as the structs say, the loaders read exactly its headers.
  lemma HeadersRoundTrip(e: Ehdr, hs: seq<FullPhdr>, data: seq<bv8>)
    requires |data| >= 64 && LiesAt(data, 0, EhdrFields(e)) && e.phnum == |hs| && LaidOut(data, e.phoff, hs)
    ensures Magic(data) == e.magic && EntryPoint(data) == e.entry
    ensures HasHeaders(data) && |Headers(data)| == |hs|
    ensures forall i :: 0 <= i < |hs| ==> Headers(data)[i] == Used(hs[i])
  {
    EhdrRoundTrip(e, data);
    forall i | 0 <= i < |hs|
      ensures Header(data, i) == Used(hs[i])
    {
      PhdrRoundTrip(hs[i], data, e.phoff + 56 * i);
    }
  }
}
