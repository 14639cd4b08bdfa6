/**
 The ELF64 little-endian image as the resolver sees it: the file header, the
 section-header scan that records where the static and dynamic symbol and
 string tables sit, and the handle that scan produces.

 Layouts follow chapter 4 "Object Files" of the System V ABI (ELF Header,
 Sections, Symbol Table). Every read is bounds-checked against the image and
 fails with a `ParseError` where the original dereferences the mapping
 without a check.
 */
module Elf {
  import opened Results
  import opened Bytes

  // ELF64 file header: size and field offsets.
  const EHDR_SIZE: nat := 64
  const E_TYPE: nat := 16       // Elf64_Half
  const E_MACHINE: nat := 18    // Elf64_Half
  const E_SHOFF: nat := 40      // Elf64_Off
  const E_SHNUM: nat := 60      // Elf64_Half
  const E_SHSTRNDX: nat := 62   // Elf64_Half

  // ELF64 section header: size (the stride of the header array) and field offsets.
  const SHDR_SIZE: nat := 64
  const SH_NAME: nat := 0       // Elf64_Word
  const SH_OFFSET: nat := 24    // Elf64_Off
  const SH_SIZE: nat := 32      // Elf64_Xword
  const SH_ENTSIZE: nat := 56   // Elf64_Xword

  // ELF64 symbol: size (the stride of a symbol array) and field offsets.
  const SYM_SIZE: nat := 24
  const ST_NAME: nat := 0       // Elf64_Word
  const ST_VALUE: nat := 8      // Elf64_Addr

  // e_type and e_machine values used by the resolver.
  const ET_EXEC: nat := 2
  const ET_DYN: nat := 3
  const EM_ARM: nat := 40

  // The four section names the scan looks for, as bytes.
  const SYMTAB_NAME: seq<byte> := [0x2e, 0x73, 0x79, 0x6d, 0x74, 0x61, 0x62]  // ".symtab"
  const STRTAB_NAME: seq<byte> := [0x2e, 0x73, 0x74, 0x72, 0x74, 0x61, 0x62]  // ".strtab"
  const DYNSYM_NAME: seq<byte> := [0x2e, 0x64, 0x79, 0x6e, 0x73, 0x79, 0x6d]  // ".dynsym"
  const DYNSTR_NAME: seq<byte> := [0x2e, 0x64, 0x79, 0x6e, 0x73, 0x74, 0x72]  // ".dynstr"

  /** The header fields the resolver reads. */
  datatype Header = Header(
    eType: nat,
    eMachine: nat,
    eShoff: nat,
    eShnum: nat,
    eShstrndx: nat)

  /** Where an image stops making sense to the parser. */
  datatype ParseError =
    | HeaderTruncated                  // image shorter than an ELF64 header
    | SectionHeaderOutside(index: nat) // a field of section header `index` lies past the end of the image
    | NameUnterminated(index: nat)     // the image ends while the name of section `index` still agrees with a table name
    | ZeroEntrySize(index: nat)        // a symbol table section with sh_entsize 0 (a division by zero)

  /** A symbol table: its offset in the image and the entry count as stored in a C `int`. */
  datatype SymView = SymView(offset: nat, entries: int)

  /** What one section header contributes to the handle. */
  datatype Section =
    | Other
    | SymTab(view: SymView)
    | StrTab(offset: nat)
    | DynSym(view: SymView)
    | DynStr(offset: nat)

  /** The four slots of the handle, named by their role. */
  datatype Kind = StaticSymbols | StaticStrings | DynamicSymbols | DynamicStrings

  /**
   The parsed image. An absent table is `None`, which is what the all-zero
   handle of the original (null pointer, zero entries) means.
   */
  datatype Handle = Handle(
    ehdr: Header,
    strtab: Option<nat>,
    symtab: Option<SymView>,
    dynstr: Option<nat>,
    dynsym: Option<SymView>)

  /** The C conversion of an unsigned quotient to a 32-bit `int` (modulo 2^32, as GCC defines it). */
  function Int32Of(q: nat): (r: int)
    ensures -0x8000_0000 <= r < 0x8000_0000
    ensures (r - q) % 0x1_0000_0000 == 0
  {
    var w := q % 0x1_0000_0000;
    if w < 0x8000_0000 then w else w - 0x1_0000_0000
  }

  /** A quotient that fits in an `int` is stored unchanged; a stored positive count never exceeds the quotient. */
  lemma Int32OfSmall(q: nat)
    ensures q < 0x8000_0000 ==> Int32Of(q) == q
    ensures Int32Of(q) <= q
  {
  }

  /** The number of whole entries of `entsize` bytes in a section of `size` bytes. */
  function EntryCount(size: nat, entsize: nat): (n: nat)
    requires entsize > 0
    ensures n * entsize <= size < (n + 1) * entsize
  {
    size / entsize
  }

  /** The header fields, read from the first 64 bytes of the image. */
  function ReadHeader(img: seq<byte>): (r: Result<Header, ParseError>)
    ensures r.Err? <==> |img| < EHDR_SIZE
    ensures r.Ok? ==>
      && ReadLE(img, E_TYPE, 2) == Some(r.value.eType)
      && ReadLE(img, E_MACHINE, 2) == Some(r.value.eMachine)
      && ReadLE(img, E_SHOFF, 8) == Some(r.value.eShoff)
      && ReadLE(img, E_SHNUM, 2) == Some(r.value.eShnum)
      && ReadLE(img, E_SHSTRNDX, 2) == Some(r.value.eShstrndx)
  {
    if |img| < EHDR_SIZE then Err(HeaderTruncated)
    else
      Ok(Header(
        ReadLE(img, E_TYPE, 2).value,
        ReadLE(img, E_MACHINE, 2).value,
        ReadLE(img, E_SHOFF, 8).value,
        ReadLE(img, E_SHNUM, 2).value,
        ReadLE(img, E_SHSTRNDX, 2).value))
  }

  /** Header fields that fit their on-disk widths. */
  predicate HeaderFits(h: Header) {
    && h.eType < Pow256(2)
    && h.eMachine < Pow256(2)
    && h.eShoff < Pow256(8)
    && h.eShnum < Pow256(2)
    && h.eShstrndx < Pow256(2)
  }

  /** The 64 header bytes for `h`, every field the resolver does not read set to zero. */
  function EncodeHeader(h: Header): (bs: seq<byte>)
    requires HeaderFits(h)
    ensures |bs| == EHDR_SIZE
  {
    seq(EHDR_SIZE, i requires 0 <= i < EHDR_SIZE => HeaderByte(h, i))
  }

  /** Byte `i` of the encoded header: a byte of the field that covers offset `i`, or 0. */
  function HeaderByte(h: Header, i: nat): byte
    requires HeaderFits(h)
  {
    if E_TYPE <= i < E_TYPE + 2 then EncodeLE(h.eType, 2)[i - E_TYPE]
    else if E_MACHINE <= i < E_MACHINE + 2 then EncodeLE(h.eMachine, 2)[i - E_MACHINE]
    else if E_SHOFF <= i < E_SHOFF + 8 then EncodeLE(h.eShoff, 8)[i - E_SHOFF]
    else if E_SHNUM <= i < E_SHNUM + 2 then EncodeLE(h.eShnum, 2)[i - E_SHNUM]
    else if E_SHSTRNDX <= i < E_SHSTRNDX + 2 then EncodeLE(h.eShstrndx, 2)[i - E_SHSTRNDX]
    else 0
  }

  /** Reading the header of an image that starts with an encoded header gives that header back. */
  lemma HeaderRoundTrip(h: Header, rest: seq<byte>)
    requires HeaderFits(h)
    ensures ReadHeader(EncodeHeader(h) + rest) == Ok(h)
  {
    var img := EncodeHeader(h) + rest;
    assert forall i | 0 <= i < EHDR_SIZE :: img[i] == HeaderByte(h, i);
    assert img[E_TYPE..E_TYPE + 2] == EncodeLE(h.eType, 2);
    assert img[E_MACHINE..E_MACHINE + 2] == EncodeLE(h.eMachine, 2);
    assert img[E_SHOFF..E_SHOFF + 8] == EncodeLE(h.eShoff, 8);
    assert img[E_SHNUM..E_SHNUM + 2] == EncodeLE(h.eShnum, 2);
    assert img[E_SHSTRNDX..E_SHSTRNDX + 2] == EncodeLE(h.eShstrndx, 2);
    FieldRoundTrip(img, E_TYPE, h.eType, 2);
    FieldRoundTrip(img, E_MACHINE, h.eMachine, 2);
    FieldRoundTrip(img, E_SHOFF, h.eShoff, 8);
    FieldRoundTrip(img, E_SHNUM, h.eShnum, 2);
    FieldRoundTrip(img, E_SHSTRNDX, h.eShstrndx, 2);
  }

  /** The offset of section header `k`: the header array is indexed by sizeof(Elf64_Shdr). */
  function ShdrAt(shoff: nat, k: nat): nat {
    shoff + SHDR_SIZE * k
  }

  /** Where the name of section `k` starts: its sh_name read, as an offset into the section-name table. */
  function NameOffset(img: seq<byte>, shoff: nat, names: nat, k: nat): (r: Result<nat, ParseError>)
    ensures r.Ok? <==> ShdrAt(shoff, k) + SH_NAME + 4 <= |img|
    ensures r.Ok? ==> names <= r.value && ReadLE(img, ShdrAt(shoff, k) + SH_NAME, 4) == Some(r.value - names)
    ensures r.Err? ==> r.error == SectionHeaderOutside(k)
  {
    var shName :- ReadLE(img, ShdrAt(shoff, k) + SH_NAME, 4).ToResult(SectionHeaderOutside(k));
    Ok(names + shName)
  }

  /** The name that puts a section in the given slot. */
  function KindName(k: Kind): seq<byte> {
    match k
    case StaticSymbols => SYMTAB_NAME
    case StaticStrings => STRTAB_NAME
    case DynamicSymbols => DYNSYM_NAME
    case DynamicStrings => DYNSTR_NAME
  }

  /** The four names are C strings and pairwise different. */
  lemma KindNamesDistinct()
    ensures forall k :: NulFree(KindName(k))
    ensures forall k1, k2 | KindName(k1) == KindName(k2) :: k1 == k2
  {
    assert SYMTAB_NAME[2] != STRTAB_NAME[2] && DYNSYM_NAME[5] != DYNSTR_NAME[5];
    assert SYMTAB_NAME[1] != DYNSYM_NAME[1] && SYMTAB_NAME[1] != DYNSTR_NAME[1];
    assert STRTAB_NAME[1] != DYNSYM_NAME[1] && STRTAB_NAME[1] != DYNSTR_NAME[1];
  }

  /**
   The slot selected by the name at offset `at`, decided by comparing it with
   ".symtab", ".strtab", ".dynsym" and ".dynstr" in that order, each
   comparison as lazy as `strcmp`. A comparison the image ends before
   deciding is an error for section `k`.
   */
  function ClassifyName(img: seq<byte>, at: nat, k: nat): (r: Result<Option<Kind>, ParseError>)
    ensures r.Err? ==> r.error == NameUnterminated(k)
  {
    var isSymtab :- StrEq(img, at, SYMTAB_NAME).ToResult(NameUnterminated(k));
    if isSymtab then Ok(Some(StaticSymbols))
    else
      var isStrtab :- StrEq(img, at, STRTAB_NAME).ToResult(NameUnterminated(k));
      if isStrtab then Ok(Some(StaticStrings))
      else
        var isDynsym :- StrEq(img, at, DYNSYM_NAME).ToResult(NameUnterminated(k));
        if isDynsym then Ok(Some(DynamicSymbols))
        else
          var isDynstr :- StrEq(img, at, DYNSTR_NAME).ToResult(NameUnterminated(k));
          if isDynstr then Ok(Some(DynamicStrings)) else Ok(None)
  }

  /** The slot a complete section name selects: only an exact match of one of the four names selects one. */
  function NameKind(name: seq<byte>): (r: Option<Kind>)
    ensures forall k :: r == Some(k) <==> name == KindName(k)
  {
    KindNamesDistinct();
    if name == SYMTAB_NAME then Some(StaticSymbols)
    else if name == STRTAB_NAME then Some(StaticStrings)
    else if name == DYNSYM_NAME then Some(DynamicSymbols)
    else if name == DYNSTR_NAME then Some(DynamicStrings)
    else None
  }

  /**
   The lazy comparisons decide the slot exactly as the complete name does;
   they fail only for a name that is not NUL-terminated inside the image,
   and such a name never selects a slot.
   */
  lemma ClassifyNameMeaning(img: seq<byte>, at: nat, k: nat)
    ensures CStringAt(img, at).Some? ==> ClassifyName(img, at, k) == Ok(NameKind(CStringAt(img, at).value))
    ensures CStringAt(img, at).None? ==> ClassifyName(img, at, k) in {Ok(None), Err(NameUnterminated(k))}
  {
    KindNamesDistinct();
    var c := CStringAt(img, at);
    StrEqMeaning(img, at, SYMTAB_NAME);
    StrEqMeaning(img, at, STRTAB_NAME);
    StrEqMeaning(img, at, DYNSYM_NAME);
    StrEqMeaning(img, at, DYNSTR_NAME);
    if c.Some? {
      var name := c.value;
      assert StrEq(img, at, SYMTAB_NAME) == Some(name == SYMTAB_NAME);
      assert StrEq(img, at, STRTAB_NAME) == Some(name == STRTAB_NAME);
      assert StrEq(img, at, DYNSYM_NAME) == Some(name == DYNSYM_NAME);
      assert StrEq(img, at, DYNSTR_NAME) == Some(name == DYNSTR_NAME);
    } else {
      assert StrEq(img, at, SYMTAB_NAME) != Some(true);
      assert StrEq(img, at, STRTAB_NAME) != Some(true);
      assert StrEq(img, at, DYNSYM_NAME) != Some(true);
      assert StrEq(img, at, DYNSTR_NAME) != Some(true);
    }
  }

  /**
   The classification fails exactly when one of the four comparisons is left
   undecided: the image ends while the name still agrees with that table
   name. A name that differs from all four before the end is `Other`.
   */
  lemma ClassifyNameFails(img: seq<byte>, at: nat, k: nat)
    ensures ClassifyName(img, at, k).Err? <==>
      || StrEq(img, at, SYMTAB_NAME).None?
      || StrEq(img, at, STRTAB_NAME).None?
      || StrEq(img, at, DYNSYM_NAME).None?
      || StrEq(img, at, DYNSTR_NAME).None?
  {
    var symtab, strtab := StrEq(img, at, SYMTAB_NAME), StrEq(img, at, STRTAB_NAME);
    var dynsym, dynstr := StrEq(img, at, DYNSYM_NAME), StrEq(img, at, DYNSTR_NAME);
    KindNamesDistinct();
    StrEqMeaning(img, at, SYMTAB_NAME);
    StrEqMeaning(img, at, STRTAB_NAME);
    StrEqMeaning(img, at, DYNSYM_NAME);
    StrEqMeaning(img, at, DYNSTR_NAME);
    if CStringAt(img, at).Some? {
      // a terminated name decides every comparison
      assert symtab.Some? && strtab.Some? && dynsym.Some? && dynstr.Some?;
    } else {
      // an unterminated name equals none of the four
      assert symtab != Some(true) && strtab != Some(true) && dynsym != Some(true) && dynstr != Some(true);
    }
  }

  /** The slot a section fills, if any. */
  function KindOf(s: Section): Option<Kind> {
    match s
    case Other => None
    case SymTab(_) => Some(StaticSymbols)
    case StrTab(_) => Some(StaticStrings)
    case DynSym(_) => Some(DynamicSymbols)
    case DynStr(_) => Some(DynamicStrings)
  }

  /** A symbol table view read from section header `k`; the count divides sh_size by sh_entsize. */
  function ReadSymView(img: seq<byte>, shoff: nat, k: nat): (r: Result<SymView, ParseError>)
    ensures r.Ok? ==>
      && ReadLE(img, ShdrAt(shoff, k) + SH_OFFSET, 8) == Some(r.value.offset)
      && exists size, entsize ::
        && ReadLE(img, ShdrAt(shoff, k) + SH_SIZE, 8) == Some(size)
        && ReadLE(img, ShdrAt(shoff, k) + SH_ENTSIZE, 8) == Some(entsize)
        && entsize > 0
        && r.value.entries == Int32Of(EntryCount(size, entsize))
    ensures r == Err(ZeroEntrySize(k)) <==>
      ReadLE(img, ShdrAt(shoff, k) + SH_ENTSIZE, 8) == Some(0) && ReadLE(img, ShdrAt(shoff, k) + SH_SIZE, 8).Some?
    ensures r.Ok? <==>
      ShdrAt(shoff, k) + SHDR_SIZE <= |img| && ReadLE(img, ShdrAt(shoff, k) + SH_ENTSIZE, 8) != Some(0)
    ensures r.Err? ==> r.error in {SectionHeaderOutside(k), ZeroEntrySize(k)}
  {
    var base := ShdrAt(shoff, k);
    var offset :- ReadLE(img, base + SH_OFFSET, 8).ToResult(SectionHeaderOutside(k));
    var size :- ReadLE(img, base + SH_SIZE, 8).ToResult(SectionHeaderOutside(k));
    var entsize :- ReadLE(img, base + SH_ENTSIZE, 8).ToResult(SectionHeaderOutside(k));
    if entsize == 0 then Err(ZeroEntrySize(k))
    else Ok(SymView(offset, Int32Of(EntryCount(size, entsize))))
  }

  /**
   Classifies section header `k` by its name: the four table names yield a
   table of their kind, every other name yields `Other`. Fields are
   read only for the sections that need them, as in the original.
   */
  function ReadSection(img: seq<byte>, shoff: nat, names: nat, k: nat): (r: Result<Section, ParseError>)
    ensures r.Err? ==> !r.error.HeaderTruncated? && r.error.index == k
  {
    var at :- NameOffset(img, shoff, names, k);
    var kind :- ClassifyName(img, at, k);
    match kind
    case None => Ok(Other)
    case Some(kind) => ReadTable(img, shoff, k, kind)
  }

  /**
   A section read from header `k` has the kind its name selects (`Other`
   for every name but the four); a string table records sh_offset and a
   symbol table its view.
   */
  lemma ReadSectionKind(img: seq<byte>, shoff: nat, names: nat, k: nat)
    requires ReadSection(img, shoff, names, k).Ok?
    ensures var s := ReadSection(img, shoff, names, k).value;
      && NameOffset(img, shoff, names, k).Ok?
      && ClassifyName(img, NameOffset(img, shoff, names, k).value, k) == Ok(KindOf(s))
      && ((s.StrTab? || s.DynStr?) ==> ReadLE(img, ShdrAt(shoff, k) + SH_OFFSET, 8) == Some(s.offset))
      && ((s.SymTab? || s.DynSym?) ==> ReadSymView(img, shoff, k) == Ok(s.view))
  {
    var at := NameOffset(img, shoff, names, k).value;
    var kind := ClassifyName(img, at, k).value;
    match kind
    case None =>
      assert ReadSection(img, shoff, names, k) == Ok(Other);
    case Some(kd) =>
      assert ReadSection(img, shoff, names, k) == ReadTable(img, shoff, k, kd);
  }

  /**
   Only the four names fill a slot: a section read from header `k` whose
   name is NUL-terminated has the kind that name selects, and a section that
   fills a slot is named exactly as that slot.
   */
  lemma SectionKindByName(img: seq<byte>, shoff: nat, names: nat, k: nat)
    requires ReadSection(img, shoff, names, k).Ok?
    ensures NameOffset(img, shoff, names, k).Ok?
    ensures var s := ReadSection(img, shoff, names, k).value;
      var name := CStringAt(img, NameOffset(img, shoff, names, k).value);
      && (name.Some? ==> KindOf(s) == NameKind(name.value))
      && (KindOf(s).Some? ==> name == Some(KindName(KindOf(s).value)))
  {
    ReadSectionKind(img, shoff, names, k);
    var at := NameOffset(img, shoff, names, k).value;
    ClassifyNameMeaning(img, at, k);
  }

  /**
   A section header is read without error when its fields lie in the image,
   its name is NUL-terminated inside the image, and, for a symbol table,
   sh_entsize is not 0.
   */
  lemma ReadSectionSucceeds(img: seq<byte>, shoff: nat, names: nat, k: nat)
    requires ShdrAt(shoff, k) + SHDR_SIZE <= |img|
    requires CStringAt(img, NameOffset(img, shoff, names, k).value).Some?
    requires NameKind(CStringAt(img, NameOffset(img, shoff, names, k).value).value) in {Some(StaticSymbols), Some(DynamicSymbols)}
      ==> ReadLE(img, ShdrAt(shoff, k) + SH_ENTSIZE, 8) != Some(0)
    ensures ReadSection(img, shoff, names, k).Ok?
  {
    var at := NameOffset(img, shoff, names, k).value;
    ClassifyNameMeaning(img, at, k);
    var kind := NameKind(CStringAt(img, at).value);
    assert ClassifyName(img, at, k) == Ok(kind);
    if kind.Some? {
      assert ReadSection(img, shoff, names, k) == ReadTable(img, shoff, k, kind.value);
    }
  }

  /**
   Exactly when a section header is read without error: its sh_name can be
   read, its name classifies, and a table it names can be read.
   */
  lemma ReadSectionOutcome(img: seq<byte>, shoff: nat, names: nat, k: nat)
    ensures ReadSection(img, shoff, names, k).Ok? <==>
      && NameOffset(img, shoff, names, k).Ok?
      && ClassifyName(img, NameOffset(img, shoff, names, k).value, k).Ok?
      && var kind := ClassifyName(img, NameOffset(img, shoff, names, k).value, k).value;
         kind.Some? ==> ReadTable(img, shoff, k, kind.value).Ok?
  {
  }

  /** The table of the given kind described by section header `k`. */
  function ReadTable(img: seq<byte>, shoff: nat, k: nat, kind: Kind): (r: Result<Section, ParseError>)
    ensures r.Ok? ==> KindOf(r.value) == Some(kind)
    ensures kind in {StaticStrings, DynamicStrings} ==>
      && (r.Ok? <==> ReadLE(img, ShdrAt(shoff, k) + SH_OFFSET, 8).Some?)
      && (r.Ok? ==> Some(r.value.offset) == ReadLE(img, ShdrAt(shoff, k) + SH_OFFSET, 8))
    ensures kind in {StaticSymbols, DynamicSymbols} ==>
      && (r.Ok? <==> ReadSymView(img, shoff, k).Ok?)
      && (r.Ok? ==> Ok(r.value.view) == ReadSymView(img, shoff, k))
    ensures r.Err? ==> r.error in {SectionHeaderOutside(k), ZeroEntrySize(k)}
  {
    match kind
    case StaticSymbols =>
      var v :- ReadSymView(img, shoff, k);
      Ok(SymTab(v))
    case DynamicSymbols =>
      var v :- ReadSymView(img, shoff, k);
      Ok(DynSym(v))
    case StaticStrings =>
      var off :- ReadLE(img, ShdrAt(shoff, k) + SH_OFFSET, 8).ToResult(SectionHeaderOutside(k));
      Ok(StrTab(off))
    case DynamicStrings =>
      var off :- ReadLE(img, ShdrAt(shoff, k) + SH_OFFSET, 8).ToResult(SectionHeaderOutside(k));
      Ok(DynStr(off))
  }

  /** Section header `k` read and classified, for every `k` below `n`. */
  function SectionResults(img: seq<byte>, shoff: nat, names: nat, n: nat): (rs: seq<Result<Section, ParseError>>)
    ensures |rs| == n && forall k | 0 <= k < n :: rs[k] == ReadSection(img, shoff, names, k)
  {
    seq(n, (k: int) requires 0 <= k => ReadSection(img, shoff, names, k))
  }

  /**
   Sections `0 .. n-1`, read in index order; fails with the error of the
   first section that cannot be read, since the original would stop there.
   */
  function ReadSections(img: seq<byte>, shoff: nat, names: nat, n: nat): (r: Result<seq<Section>, ParseError>)
    ensures r.Ok? ==>
      && |r.value| == n
      && forall k | 0 <= k < n :: ReadSection(img, shoff, names, k) == Ok(r.value[k])
  {
    Collect(SectionResults(img, shoff, names, n))
  }

  /**
   The scan reads every section header when each of them can be read, and
   otherwise fails with the error of the first one that cannot.
   */
  lemma ReadSectionsFirstError(img: seq<byte>, shoff: nat, names: nat, n: nat)
    ensures (forall k | 0 <= k < n :: ReadSection(img, shoff, names, k).Ok?) ==> ReadSections(img, shoff, names, n).Ok?
    ensures forall k | 0 <= k < n && ReadSection(img, shoff, names, k).Err?
                       && (forall i | 0 <= i < k :: ReadSection(img, shoff, names, i).Ok?) ::
      ReadSections(img, shoff, names, n) == Err(ReadSection(img, shoff, names, k).error)
  {
    CollectFirstError(SectionResults(img, shoff, names, n));
  }

  /** The content of one slot of the handle, as the section that filled it. */
  function Slot(h: Handle, k: Kind): Option<Section> {
    match k
    case StaticSymbols => if h.symtab.Some? then Some(SymTab(h.symtab.value)) else None
    case StaticStrings => if h.strtab.Some? then Some(StrTab(h.strtab.value)) else None
    case DynamicSymbols => if h.dynsym.Some? then Some(DynSym(h.dynsym.value)) else None
    case DynamicStrings => if h.dynstr.Some? then Some(DynStr(h.dynstr.value)) else None
  }

  /** Two handles with the same header and the same four slots are the same handle. */
  lemma SlotsDetermineHandle(h1: Handle, h2: Handle)
    requires h1.ehdr == h2.ehdr
    requires forall k :: Slot(h1, k) == Slot(h2, k)
    ensures h1 == h2
  {
    assert Slot(h1, StaticSymbols) == Slot(h2, StaticSymbols);
    assert Slot(h1, StaticStrings) == Slot(h2, StaticStrings);
    assert Slot(h1, DynamicSymbols) == Slot(h2, DynamicSymbols);
    assert Slot(h1, DynamicStrings) == Slot(h2, DynamicStrings);
  }

  /** Records one section: it overwrites its own slot and leaves the header and every other slot unchanged. */
  function Apply(h: Handle, s: Section): (r: Handle)
    ensures r.ehdr == h.ehdr
    ensures forall k :: Slot(r, k) == (if KindOf(s) == Some(k) then Some(s) else Slot(h, k))
  {
    match s
    case Other => h
    case SymTab(v) => h.(symtab := Some(v))
    case StrTab(off) => h.(strtab := Some(off))
    case DynSym(v) => h.(dynsym := Some(v))
    case DynStr(off) => h.(dynstr := Some(off))
  }

  /** Records the sections in index order. */
  function Fold(h: Handle, secs: seq<Section>): (r: Handle)
    ensures r.ehdr == h.ehdr
    decreases |secs|
  {
    if |secs| == 0 then h
    else Apply(Fold(h, secs[..|secs| - 1]), secs[|secs| - 1])
  }

  /** No section of kind `k` among `secs[lo..hi]`. */
  ghost predicate NoneOfKind(secs: seq<Section>, k: Kind, lo: int, hi: int)
    requires 0 <= lo && hi <= |secs|
  {
    forall i | lo <= i < hi :: KindOf(secs[i]) != Some(k)
  }

  /**
   The last section of each kind wins: a slot holds the last section of its
   kind in index order, and keeps its initial content if there is none.
   */
  lemma {:induction false} FoldLastWins(h: Handle, secs: seq<Section>, k: Kind)
    ensures NoneOfKind(secs, k, 0, |secs|) ==> Slot(Fold(h, secs), k) == Slot(h, k)
    ensures forall j | 0 <= j < |secs| && KindOf(secs[j]) == Some(k) && NoneOfKind(secs, k, j + 1, |secs|) ::
      Slot(Fold(h, secs), k) == Some(secs[j])
    decreases |secs|
  {
    if |secs| > 0 {
      var init := secs[..|secs| - 1];
      var last := secs[|secs| - 1];
      FoldLastWins(h, init, k);
      if KindOf(last) != Some(k) {
        if NoneOfKind(secs, k, 0, |secs|) {
          assert NoneOfKind(init, k, 0, |init|) by {
            forall i | 0 <= i < |init| ensures KindOf(init[i]) != Some(k) {
              assert init[i] == secs[i];
            }
          }
        }
        forall j | 0 <= j < |secs| && KindOf(secs[j]) == Some(k) && NoneOfKind(secs, k, j + 1, |secs|)
          ensures Slot(Fold(h, secs), k) == Some(secs[j])
        {
          assert j < |init|;
          assert init[j] == secs[j];
          assert NoneOfKind(init, k, j + 1, |init|) by {
            forall i | j + 1 <= i < |init| ensures KindOf(init[i]) != Some(k) {
              assert init[i] == secs[i];
            }
          }
        }
      }
    }
  }

  /** The handle before any section is recorded: all four tables absent. */
  function EmptyHandle(hdr: Header): (h: Handle)
    ensures forall k :: Slot(h, k) == None
  {
    Handle(hdr, None, None, None, None)
  }

  /** The offset of the section-name string table, read from header e_shstrndx (not checked against e_shnum). */
  function NamesOffset(img: seq<byte>, hdr: Header): (r: Result<nat, ParseError>)
    ensures r.Ok? <==> ShdrAt(hdr.eShoff, hdr.eShstrndx) + SH_OFFSET + 8 <= |img|
    ensures r.Ok? ==> ReadLE(img, ShdrAt(hdr.eShoff, hdr.eShstrndx) + SH_OFFSET, 8) == Some(r.value)
    ensures r.Err? ==> r.error == SectionHeaderOutside(hdr.eShstrndx)
  {
    ReadLE(img, ShdrAt(hdr.eShoff, hdr.eShstrndx) + SH_OFFSET, 8).ToResult(SectionHeaderOutside(hdr.eShstrndx))
  }

  /**
   Parses an image: the header, then the offset of the section-name table,
   then every section header in index order.
   */
  function Parse(img: seq<byte>): (r: Result<Handle, ParseError>)
    ensures r.Ok? ==> ReadHeader(img) == Ok(r.value.ehdr) && NamesOffset(img, r.value.ehdr).Ok?
    ensures ReadHeader(img).Err? ==> r == Err(HeaderTruncated)
  {
    var hdr :- ReadHeader(img);
    var names :- NamesOffset(img, hdr);
    var secs :- ReadSections(img, hdr.eShoff, names, hdr.eShnum);
    Ok(Fold(EmptyHandle(hdr), secs))
  }

  /**
   When an image parses: the header, the section-name table's offset and
   every section header must be read in that order, and the first read that
   fails gives the error. With all of them readable the parse succeeds.
   */
  lemma ParseOutcome(img: seq<byte>)
    ensures ReadHeader(img).Err? ==> Parse(img) == Err(HeaderTruncated)
    ensures ReadHeader(img).Ok? ==>
      var hdr := ReadHeader(img).value;
      && (NamesOffset(img, hdr).Err? ==> Parse(img) == Err(NamesOffset(img, hdr).error))
      && (NamesOffset(img, hdr).Ok? ==>
            var names := NamesOffset(img, hdr).value;
            && ((forall k | 0 <= k < hdr.eShnum :: ReadSection(img, hdr.eShoff, names, k).Ok?) ==> Parse(img).Ok?)
            && (forall k | 0 <= k < hdr.eShnum && ReadSection(img, hdr.eShoff, names, k).Err?
                           && (forall i | 0 <= i < k :: ReadSection(img, hdr.eShoff, names, i).Ok?) ::
                  Parse(img) == Err(ReadSection(img, hdr.eShoff, names, k).error)))
  {
    if ReadHeader(img).Ok? {
      var hdr := ReadHeader(img).value;
      if NamesOffset(img, hdr).Ok? {
        ReadSectionsFirstError(img, hdr.eShoff, NamesOffset(img, hdr).value, hdr.eShnum);
      }
    }
  }

  /**
   The sections of a successfully parsed image, in index order: one per
   section header, each the classification of that header, and the handle is
   what recording them in order gives.
   */
  ghost function ParsedSections(img: seq<byte>): (secs: seq<Section>)
    requires Parse(img).Ok?
    ensures var hdr := Parse(img).value.ehdr;
      && |secs| == hdr.eShnum
      && (forall j | 0 <= j < |secs| :: ReadSection(img, hdr.eShoff, NamesOffset(img, hdr).value, j) == Ok(secs[j]))
      && Parse(img).value == Fold(EmptyHandle(hdr), secs)
  {
    var hdr := ReadHeader(img).value;
    ReadSections(img, hdr.eShoff, NamesOffset(img, hdr).value, hdr.eShnum).value
  }

  /**
   Of a parsed image, each slot of the handle holds the last section header
   (in index order) of its kind, and is absent when no header has that name.
   */
  lemma ParseLastWins(img: seq<byte>, k: Kind)
    requires Parse(img).Ok?
    ensures var secs := ParsedSections(img);
      && (NoneOfKind(secs, k, 0, |secs|) ==> Slot(Parse(img).value, k) == None)
      && (forall j | 0 <= j < |secs| && KindOf(secs[j]) == Some(k) && NoneOfKind(secs, k, j + 1, |secs|) ::
            Slot(Parse(img).value, k) == Some(secs[j]))
  {
    var secs := ParsedSections(img);
    FoldLastWins(EmptyHandle(Parse(img).value.ehdr), secs, k);
  }
}
