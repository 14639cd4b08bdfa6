# ELF symbol resolver of ezinject, in Dafny

This project models the ELF symbol resolver of ezinject (`elfparse.c`). It is
the part of the injected library that finds function addresses inside an ELF
image mapped into the target process. The memory-mapped file is an immutable
byte sequence (`seq<byte>`, where `byte` is an integer newtype from 0 to 255), so every operation is a pure function:

- `Elf.ReadHeader` reads the ELF64 header fields the resolver uses. These are
  e_type, e_machine, e_shoff, e_shnum and e_shstrndx.
- `Elf.Parse` walks the section-header table. It looks up each section's name
  in the section-name string table. It records where `.symtab`, `.strtab`,
  `.dynsym` and `.dynstr` sit in a `Handle`. For the two symbol tables it also
  records the entry count `sh_size / sh_entsize`, stored as a C `int`.
- `Resolver.FindFunction` is an exact linear search of one symbol table.
- `Resolver.GetFuncAddr` searches the static table first and the dynamic table
  second. On ARM it clears the Thumb bit.
- `Resolver.NeedsReloc` says whether the image needs base relocation.

The layouts follow chapter 4 "Object Files" of the System V ABI: the sections
"ELF Header", "Sections", "String Table" and "Symbol Table". The model covers
ELF64 in little-endian byte order only. The Thumb convention follows "ELF for
the Arm Architecture", section "Symbol Values": bit 0 of a function symbol's
value marks Thumb code.

The model keeps the original's result convention. A lookup gives a plain
address, and 0 means "not found". Because 0 is also a legal `st_value`, a static
match whose value is 0 counts as a miss, and the search goes on to `.dynsym`.
On ARM a found value of 1 becomes 0 after the fixup, so it also reads as "not
found".

Where the model is stricter than the original:

- The original dereferences the mapping at any offset without a check
  (`elfparse.c:61-74`, `elfparse.c:110`). Every read in the model is
  bounds-checked. Where the original would read past the end of the image, the
  model returns an error: `Elf.ParseError` during the scan, and
  `Resolver.LookupError` during a lookup.
- Reads stay lazy, as in the original. The scan reads a section's offset only
  for the four table names, and its size and entry size only for the two symbol
  tables. The search stops at the first match. A table offset is stored without
  a check, just as the original stores a pointer.
- Name comparisons read exactly as far as `strcmp` does (`Bytes.StrEq`). They
  stop at the first differing byte or at a common NUL. So a name that runs to
  the end of the image without a NUL is an error exactly when it agrees with
  the other string up to that end (`Bytes.StrEq`, `Elf.ClassifyNameFails`,
  `Resolver.EntryMatches`). Section names are compared with ".symtab",
  ".strtab", ".dynsym" and ".dynstr" in that order, as in the original.
- If `sh_entsize` is 0, the original divides by zero. `Elf.EntryCount` requires
  `entsize > 0`, and the scan returns `ZeroEntrySize` for such a section.
- A symbol table can be present while its string table is absent. Searching it
  dereferences a null string table in the original. The model returns
  `NoStringTable`.

Some faithful details that may surprise a reader:

- The section-header array is indexed with `sizeof(Elf64_Shdr)` = 64, whatever
  `e_shentsize` says. The symbol array is indexed with `sizeof(Elf64_Sym)` = 24,
  whatever `sh_entsize` says.
- `e_shstrndx` is not checked against `e_shnum`. Its header is read even when
  there are no sections.
- The entry count is converted to a 32-bit `int` by wrapping modulo 2^32, which
  is how GCC defines the conversion (`Elf.Int32Of`). A count that is not
  positive means nothing is searched.
- The e_ident magic is not checked.

## Model

| member | source | states |
|---|---|---|
| Bytes.ReadLE | elfparse.c:69-70 | a fixed-width field is read exactly when it lies wholly in the image, and its value fits the field's width |
| Bytes.ReadLEEncodes | elfparse.c:69-70 | a field read from the image is the little-endian value whose encoding is exactly the bytes it occupies |
| Bytes.DecodeEncode | elfparse.c:69-70 | decoding a little-endian encoding gives back the value |
| Bytes.EncodeDecode | elfparse.c:69-70 | a field's bytes are determined by its value and width |
| Bytes.FieldRoundTrip | elfparse.c:69-70 | a field holding the encoding of v reads back as v |
| Bytes.CStringAt | elfparse.c:74-75 | the name at an offset is the NUL-free run of bytes up to the first NUL; it is missing exactly when no NUL occurs before the end of the image |
| Bytes.CStringRoundTrip | elfparse.c:74-75 | a NUL-free name followed by a NUL reads back as itself, so the comparison sees exactly the stored name |
| Bytes.StrEq | elfparse.c:75 | a comparison is left undecided exactly when the image ends while every byte read so far is non-NUL and agrees with the other string |
| Bytes.StrEqMeaning | elfparse.c:75 | the lazy `strcmp` comparison with a NUL-free string says "equal" exactly when the NUL-terminated name there is that string, and leaves the image only for an unterminated name |
| Elf.ReadHeader | elfparse.c:61-70 | the header fails exactly when the image is shorter than 64 bytes; otherwise each field is the one at its ELF64 offset and width |
| Elf.HeaderRoundTrip | elfparse.c:61-70 | reading the header of an image that starts with an encoded header gives that header back |
| Elf.Int32Of | elfparse.c:78 | the count stored in the C `int` is in the 32-bit range and congruent to the quotient modulo 2^32 |
| Elf.Int32OfSmall | elfparse.c:78 | a quotient below 2^31 is stored unchanged, and a stored count never exceeds the quotient |
| Elf.EntryCount | elfparse.c:78 | the count is the number of whole entries: count * sh_entsize <= sh_size < (count + 1) * sh_entsize |
| Elf.ReadSymView | elfparse.c:77-78 | a symbol-table record holds the section's sh_offset and the int-converted sh_size / sh_entsize; it is read exactly when the section header lies in the image and sh_entsize is not 0, and sh_entsize 0 is reported as its own error |
| Elf.NameOffset | elfparse.c:74 | a section's name offset exists exactly when its sh_name field lies in the image, and is the section-name table's offset plus sh_name |
| Elf.ClassifyName | elfparse.c:75-92 | the only failure of the four comparisons is NameUnterminated for this section |
| Elf.NameKind | elfparse.c:75-92 | a name selects a table slot if and only if it is exactly one of ".symtab", ".strtab", ".dynsym" or ".dynstr" |
| Elf.ClassifyNameMeaning | elfparse.c:74-92 | the four lazy comparisons select the same slot as the complete name does; an unterminated name never selects a slot |
| Elf.ClassifyNameFails | elfparse.c:75-92 | the classification fails exactly when one of the four comparisons is undecided, so a name that differs from all four before the image ends is Other without error |
| Elf.ReadSection | elfparse.c:73-96 | a failing section read reports the index of that section |
| Elf.ReadSectionSucceeds | elfparse.c:73-96 | a sufficient condition in the image's own terms: a section is read without error when its header lies in the image, its name is NUL-terminated in the image and, for a symbol table, sh_entsize is not 0 |
| Elf.ReadSectionOutcome | elfparse.c:73-96 | a section is read without error exactly when its sh_name can be read, its name classifies, and a table it names can be read |
| Elf.ReadSectionKind | elfparse.c:73-96 | a section's kind is the one its name's classification gives; string tables record sh_offset, symbol tables record their view |
| Elf.SectionKindByName | elfparse.c:73-96 | a terminated name gives the section the kind the name selects, and a section that fills a slot carries exactly that slot's name |
| Elf.ReadTable | elfparse.c:76-96 | a table read for a kind yields a record of that kind; a string table succeeds exactly when sh_offset can be read and records it, and a symbol table succeeds exactly when its view can be read and records it |
| Results.Collect | elfparse.c:71-72 | a successful in-order pass yields one value per step, each the value of that step |
| Results.CollectFirstError | elfparse.c:71-72 | the pass succeeds when every step does, and otherwise gives the error of the first failing step |
| Elf.ReadSections | elfparse.c:71-97 | a successful scan has one section per header, each the classification of the header with that index |
| Elf.ReadSectionsFirstError | elfparse.c:71-97 | the scan succeeds when every header can be read, and otherwise fails with the error of the first header that cannot |
| Elf.Apply | elfparse.c:75-96 | recording a section overwrites only its own slot; the header and the other three slots are unchanged, and Other changes nothing |
| Elf.SlotsDetermineHandle | elfparse.c:21-29 | the header and the four table slots determine the handle |
| Elf.Fold | elfparse.c:71-97 | the scan never changes the header fields |
| Elf.FoldLastWins | elfparse.c:71-97 | after the scan each slot holds the last section of its kind in index order, and keeps its initial content when there is none |
| Elf.EmptyHandle | elfparse.c:38 | before the scan all four tables are absent |
| Elf.NamesOffset | elfparse.c:70 | the section-name table's offset is read from header e_shstrndx exactly when that field lies in the image |
| Elf.Parse | elfparse.c:59-97 | a parsed handle carries the header read from the image; a short image fails with HeaderTruncated |
| Elf.ParseOutcome | elfparse.c:59-97 | an image parses exactly when the header, the section-name table's offset and every section header can be read; otherwise the error is the first failing read's, in that order |
| Elf.ParsedSections | elfparse.c:69-97 | a parsed image has one classified section per header, and its handle is what recording them in order gives |
| Elf.ParseLastWins | elfparse.c:71-97 | in a parsed image each table slot is absent when no section has its name, and otherwise holds the last such section |
| Resolver.NeedsReloc | elfparse.c:100-104 | relocation is not needed exactly for ET_EXEC, so ET_DYN needs it |
| Resolver.NeedsRelocOfImage | elfparse.c:100-104 | relocation is needed exactly when the e_type bytes do not encode ET_EXEC, so ET_DYN and every other type need it |
| Resolver.SearchCountFitsSection | elfparse.c:78 | the search never visits more entries than fit in the section: count * sh_entsize <= sh_size |
| Resolver.EntryMatches | elfparse.c:110-111 | a comparison fails only for that symbol or for a missing string table; the symbol's st_name out of the image and an absent string table are each reported exactly when they occur, and NameOutside exactly when the comparison with the requested name is left undecided |
| Resolver.EntryMatchesName | elfparse.c:110-111 | for a NUL-free requested name, a symbol matches exactly when its full name is that name, and a comparison can fail only where the symbol's full name cannot be read |
| Resolver.FindFrom | elfparse.c:108-114 | every value the search returns fits in 64 bits |
| Resolver.FindFromFirstMatch | elfparse.c:108-114 | the search from an index gives 0 when no later name matches, gives the value of the first matching symbol, and gives the error of the first failing comparison before any match |
| Resolver.FindFunction | elfparse.c:106-115 | the value of the first symbol in index order whose name compares equal to the requested name, ignoring later ones; 0 when none matches; an absent table, or a count that is not positive, behaves as an empty one |
| Resolver.SearchCount | elfparse.c:108 | the loop visits the stored count of entries when it is positive, and none when it is not positive or the table is absent |
| Resolver.DecodeSymbols | elfparse.c:108-112 | a table decodes in full exactly when every entry's name and value can be read, and the decoded entries are those names and values |
| Resolver.FirstIndex | elfparse.c:108-114 | the index of the first symbol with the name, absent exactly when no symbol has it |
| Resolver.FindFunctionMatchesDecoded | elfparse.c:106-115 | on a table that decodes in full, the search for a NUL-free name equals the first-match lookup over the decoded symbols |
| Resolver.ZeroValuedMatchIsMiss | elfparse.c:111-114 | a first match whose value is 0 makes the search return 0, the not-found value |
| Resolver.ThumbFixup | elfparse.c:129-132 | on ARM the result is even and keeps every bit above bit 0; on every other machine the value is unchanged |
| Resolver.GetFuncAddr | elfparse.c:117-133 | on ARM every result is even; results fit in 64 bits; an error in the static search is the result |
| Resolver.StaticPriority | elfparse.c:120-122 | a nonzero static result, fixed up, is the answer, and the dynamic table has no influence on it |
| Resolver.DynamicFallback | elfparse.c:123-126 | when the static search yields 0 (no match or a zero-valued match), the result is the dynamic search's, fixed up when nonzero |
| Resolver.NotFound | elfparse.c:120-128 | when neither table yields a nonzero value the result is 0; an image with neither symbol table resolves nothing |
| Resolver.ResolveIn | elfparse.c:117-132 | over tables in priority order, the first nonzero lookup, fixed up, is the result; 0 when every lookup is 0 |
| Resolver.GetFuncAddrMatchesDecoded | elfparse.c:117-133 | on an image whose two tables decode in full, resolution of a NUL-free name is the priority lookup over [static, dynamic] |

## Left out

- `crt.c` (the load-time constructor): it only sequences System V IPC calls (`shmget`, `shmat`, `semget`, `shmdt`, `semop`) and calls external payload functions. Its record layout lives in a header that is not part of this model. There is no computation in it to state.
- `elfparse_createhandle` and `elfparse_destroyhandle` (`open`, `lseek`, `mmap`, `munmap`, `close`, `strdup`, `malloc`, `free`): these are file I/O and memory management. The mapped file is a parameter (`img`), and the handle is a value with no resources to release.
- `DBG`/`WARN` logging: it has no effect on results.
- Pointers: table locations are offsets into the image and addresses are naturals. Adding the load base is left to the caller.
- ELF32 and big-endian images: one class and one byte order are fixed (ELF64, little-endian).
- Elf.Parse: reads past the end of the image are errors, while the original reads them without a check and its behaviour is undefined. A section with `sh_entsize` 0 is an error instead of a division by zero.
- Resolver.FindFunction: reads past the end of the image, and a missing string table for a non-empty symbol table, are errors instead of undefined behaviour.
- Resolver.ThumbFixup: the fixup is stated arithmetically (bit 0 cleared, `r / 2 == v / 2`) and not as a 64-bit mask on a bit-vector.
