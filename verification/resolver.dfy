/**
 Symbol lookup over a parsed handle: the exact linear search of one symbol
 table, the static-then-dynamic resolution with the Thumb fixup for ARM, and
 the relocation query.

 A lookup result is a plain address with 0 meaning "not found", as in the
 original; 0 is also a legal `st_value`, so a match whose value is 0 reads
 as a miss. Addresses are link-time values: applying the image's load base
 is the caller's business. A requested `name` is compared as `strcmp`
 compares it: up to its first NUL, or to its end.
 */
module Resolver {
  import opened Results
  import opened Bytes
  import opened Elf

  /** Where a lookup would leave the image (the original reads there unchecked). */
  datatype LookupError =
    | SymbolOutside(index: nat)  // a field of symbol `index` lies past the end of the image
    | NoStringTable              // a symbol name is needed but the table's string table is absent (a null dereference)
    | NameOutside(index: nat)    // the image ends while the name of symbol `index` still agrees with the requested one

  /** Whether addresses from this image are offsets that need the load base added: every type but ET_EXEC. */
  function NeedsReloc(h: Handle): (r: bool)
    ensures !r <==> h.ehdr.eType == ET_EXEC
    ensures h.ehdr.eType == ET_DYN ==> r
  {
    h.ehdr.eType != ET_EXEC
  }

  /** The relocation query reads the e_type bytes of the image: false exactly when they encode ET_EXEC. */
  lemma NeedsRelocOfImage(img: seq<byte>)
    requires Parse(img).Ok?
    ensures NeedsReloc(Parse(img).value) <==> img[E_TYPE..E_TYPE + 2] != [2, 0]
    ensures Parse(img).value.ehdr.eType == ET_DYN ==> NeedsReloc(Parse(img).value)
  {
    var hdr := Parse(img).value.ehdr;
    assert ReadHeader(img) == Ok(hdr);
    var t := hdr.eType;
    assert ReadLE(img, E_TYPE, 2) == Some(t);
    ReadLEEncodes(img, E_TYPE, 2);
    var bytes := img[E_TYPE..E_TYPE + 2];
    assert EncodeLE(t, 2) == bytes;
    if bytes == [2, 0] {
      DecodeEncode(t, 2);
      assert DecodeLE([2, 0]) == 2;
    } else {
      assert EncodeLE(ET_EXEC, 2) == [2, 0];
    }
  }

  /** How many entries the search visits: the stored C `int` count, or none when it is not positive or the table is absent. */
  function SearchCount(t: Option<SymView>): (r: nat)
    ensures t.Some? && t.value.entries > 0 ==> r == t.value.entries
    ensures t.None? || t.value.entries <= 0 ==> r == 0
  {
    match t
    case None => 0
    case Some(v) => if v.entries > 0 then v.entries else 0
  }

  /** The offset of the table's entries (irrelevant when it is absent, since none are visited). */
  function TableOffset(t: Option<SymView>): nat {
    match t
    case None => 0
    case Some(v) => v.offset
  }

  /** The search never visits more entries than fit in the section: count * sh_entsize <= sh_size. */
  lemma SearchCountFitsSection(offset: nat, size: nat, entsize: nat)
    requires entsize > 0
    ensures SearchCount(Some(SymView(offset, Int32Of(EntryCount(size, entsize))))) * entsize <= size
  {
    var q := EntryCount(size, entsize);
    var c := SearchCount(Some(SymView(offset, Int32Of(q))));
    Int32OfSmall(q);
    assert c <= q;
  }

  /** The offset of symbol `i`: the array is indexed by sizeof(Elf64_Sym), whatever sh_entsize says. */
  function SymAt(symOff: nat, i: nat): nat {
    symOff + SYM_SIZE * i
  }

  /** The name of symbol `i`: its st_name read, then the string at that offset of the string table. */
  function EntryName(img: seq<byte>, strtab: Option<nat>, symOff: nat, i: nat): Result<seq<byte>, LookupError> {
    var stName :- ReadLE(img, SymAt(symOff, i) + ST_NAME, 4).ToResult(SymbolOutside(i));
    if strtab.None? then Err(NoStringTable)
    else CStringAt(img, strtab.value + stName).ToResult(NameOutside(i))
  }

  /**
   Whether symbol `i` is named `name`: its st_name read, then a comparison
   as lazy as `strcmp` of the string there with `name`.
   */
  function EntryMatches(img: seq<byte>, strtab: Option<nat>, symOff: nat, i: nat, name: seq<byte>): (r: Result<bool, LookupError>)
    ensures r.Err? ==> r.error in {SymbolOutside(i), NoStringTable, NameOutside(i)}
    ensures r == Err(SymbolOutside(i)) <==> SymAt(symOff, i) + ST_NAME + 4 > |img|
    ensures r == Err(NoStringTable) <==> strtab.None? && SymAt(symOff, i) + ST_NAME + 4 <= |img|
    ensures r == Err(NameOutside(i)) <==>
      && ReadLE(img, SymAt(symOff, i) + ST_NAME, 4).Some?
      && strtab.Some?
      && StrEq(img, strtab.value + ReadLE(img, SymAt(symOff, i) + ST_NAME, 4).value, name).None?
  {
    var stName :- ReadLE(img, SymAt(symOff, i) + ST_NAME, 4).ToResult(SymbolOutside(i));
    if strtab.None? then Err(NoStringTable)
    else StrEq(img, strtab.value + stName, name).ToResult(NameOutside(i))
  }

  /**
   For a NUL-free `name`, symbol `i` matches exactly when its full name is
   `name`, and the comparison fails only where that name cannot be read.
   */
  lemma EntryMatchesName(img: seq<byte>, strtab: Option<nat>, symOff: nat, i: nat, name: seq<byte>)
    requires NulFree(name)
    ensures EntryName(img, strtab, symOff, i).Ok? ==>
      EntryMatches(img, strtab, symOff, i, name) == Ok(EntryName(img, strtab, symOff, i).value == name)
    ensures EntryMatches(img, strtab, symOff, i, name) == Ok(true) <==> EntryName(img, strtab, symOff, i) == Ok(name)
    ensures EntryMatches(img, strtab, symOff, i, name).Err? ==> EntryName(img, strtab, symOff, i).Err?
  {
    var stName := ReadLE(img, SymAt(symOff, i) + ST_NAME, 4);
    if stName.Some? && strtab.Some? {
      StrEqMeaning(img, strtab.value + stName.value, name);
    }
  }

  /** The st_value of symbol `i`. */
  function EntryValue(img: seq<byte>, symOff: nat, i: nat): Result<nat, LookupError> {
    ReadLE(img, SymAt(symOff, i) + ST_VALUE, 8).ToResult(SymbolOutside(i))
  }

  /** Symbols `lo .. hi-1` are all compared with `name` without error, and none matches. */
  ghost predicate MissesIn(img: seq<byte>, strtab: Option<nat>, symOff: nat, name: seq<byte>, lo: nat, hi: nat) {
    forall i | lo <= i < hi :: EntryMatches(img, strtab, symOff, i, name) == Ok(false)
  }

  /** The search from symbol `i` on. */
  function FindFrom(img: seq<byte>, strtab: Option<nat>, symOff: nat, n: nat, name: seq<byte>, i: nat)
    : (r: Result<nat, LookupError>)
    ensures r.Ok? ==> r.value < Pow256(8)
    decreases n - i
  {
    if i >= n then Ok(0)
    else
      var matches :- EntryMatches(img, strtab, symOff, i, name);
      if matches then EntryValue(img, symOff, i)
      else FindFrom(img, strtab, symOff, n, name, i + 1)
  }

  /**
   The search from symbol `i` gives 0 when no name up to `n` matches, the
   value of the first matching symbol, and the error of the first comparison
   that fails before any match.
   */
  lemma {:induction false} FindFromFirstMatch(img: seq<byte>, strtab: Option<nat>, symOff: nat, n: nat, name: seq<byte>, i: nat)
    ensures MissesIn(img, strtab, symOff, name, i, n) ==> FindFrom(img, strtab, symOff, n, name, i) == Ok(0)
    ensures forall j | i <= j < n && MissesIn(img, strtab, symOff, name, i, j)
                       && EntryMatches(img, strtab, symOff, j, name) == Ok(true) ::
      FindFrom(img, strtab, symOff, n, name, i) == EntryValue(img, symOff, j)
    ensures forall j | i <= j < n && MissesIn(img, strtab, symOff, name, i, j)
                       && EntryMatches(img, strtab, symOff, j, name).Err? ::
      FindFrom(img, strtab, symOff, n, name, i) == Err(EntryMatches(img, strtab, symOff, j, name).error)
    decreases n - i
  {
    if i < n {
      var here := EntryMatches(img, strtab, symOff, i, name);
      var r := FindFrom(img, strtab, symOff, n, name, i);
      if here.Err? {
        assert r == Err(here.error);
        assert !MissesIn(img, strtab, symOff, name, i, n);
        forall j | i < j && MissesIn(img, strtab, symOff, name, i, j) ensures false {
        }
      } else if here.value {
        assert r == EntryValue(img, symOff, i);
        assert !MissesIn(img, strtab, symOff, name, i, n);
        forall j | i < j && MissesIn(img, strtab, symOff, name, i, j) ensures false {
        }
      } else {
        FindFromFirstMatch(img, strtab, symOff, n, name, i + 1);
        assert r == FindFrom(img, strtab, symOff, n, name, i + 1);
        forall j | i <= j && MissesIn(img, strtab, symOff, name, i, j)
          ensures j == i || MissesIn(img, strtab, symOff, name, i + 1, j)
        {
        }
        forall j | i <= j < n && MissesIn(img, strtab, symOff, name, i, j)
                   && EntryMatches(img, strtab, symOff, j, name) == Ok(true)
          ensures r == EntryValue(img, symOff, j)
        {
          assert j != i;
        }
        forall j | i <= j < n && MissesIn(img, strtab, symOff, name, i, j)
                   && EntryMatches(img, strtab, symOff, j, name).Err?
          ensures r == Err(EntryMatches(img, strtab, symOff, j, name).error)
        {
          assert j != i;
        }
      }
    }
  }

  /**
   The linear search of one symbol table: the st_value of the first symbol,
   in index order, whose name compares equal to `name`; 0 when no symbol
   does; an error at the first comparison that fails before that.
   An absent table is searched as an empty one.
   */
  function FindFunction(img: seq<byte>, strtab: Option<nat>, symtab: Option<SymView>, name: seq<byte>)
    : (r: Result<nat, LookupError>)
    ensures symtab.None? ==> r == Ok(0)
    ensures symtab.Some? && symtab.value.entries <= 0 ==> r == Ok(0)
    ensures MissesIn(img, strtab, TableOffset(symtab), name, 0, SearchCount(symtab)) ==> r == Ok(0)
    ensures forall j | 0 <= j < SearchCount(symtab) && MissesIn(img, strtab, TableOffset(symtab), name, 0, j)
                       && EntryMatches(img, strtab, TableOffset(symtab), j, name) == Ok(true) ::
      r == EntryValue(img, TableOffset(symtab), j)
    ensures forall j | 0 <= j < SearchCount(symtab) && MissesIn(img, strtab, TableOffset(symtab), name, 0, j)
                       && EntryMatches(img, strtab, TableOffset(symtab), j, name).Err? ::
      r == Err(EntryMatches(img, strtab, TableOffset(symtab), j, name).error)
    ensures r.Ok? ==> r.value < Pow256(8)
  {
    FindFromFirstMatch(img, strtab, TableOffset(symtab), SearchCount(symtab), name, 0);
    FindFrom(img, strtab, TableOffset(symtab), SearchCount(symtab), name, 0)
  }

  /** A decoded symbol: its name and st_value. */
  datatype Sym = Sym(name: seq<byte>, value: nat)

  /** Symbols `0 .. n-1` of a table, decoded in full; an error when any of them cannot be read. */
  function DecodeSymbols(img: seq<byte>, strtab: Option<nat>, symOff: nat, n: nat): (r: Result<seq<Sym>, LookupError>)
    ensures r.Ok? ==>
      && |r.value| == n
      && forall i | 0 <= i < n ::
        && EntryName(img, strtab, symOff, i) == Ok(r.value[i].name)
        && EntryValue(img, symOff, i) == Ok(r.value[i].value)
    ensures (forall i | 0 <= i < n :: EntryName(img, strtab, symOff, i).Ok? && EntryValue(img, symOff, i).Ok?)
      ==> r.Ok?
    decreases n
  {
    if n == 0 then Ok([])
    else
      var prev :- DecodeSymbols(img, strtab, symOff, n - 1);
      var name :- EntryName(img, strtab, symOff, n - 1);
      var value :- EntryValue(img, symOff, n - 1);
      Ok(prev + [Sym(name, value)])
  }

  /** The index of the first symbol named `name`, if any. */
  function FirstIndex(syms: seq<Sym>, name: seq<byte>): (r: Option<nat>)
    ensures r.None? <==> forall i | 0 <= i < |syms| :: syms[i].name != name
    ensures r.Some? ==>
      && r.value < |syms|
      && syms[r.value].name == name
      && forall i | 0 <= i < r.value :: syms[i].name != name
    decreases |syms|
  {
    if |syms| == 0 then None
    else if syms[0].name == name then Some(0)
    else
      match FirstIndex(syms[1..], name)
      case None => None
      case Some(j) => Some(j + 1)
  }

  /** Lookup in a decoded table: the value of the first symbol named `name`, or 0. */
  function Lookup(syms: seq<Sym>, name: seq<byte>): nat {
    match FirstIndex(syms, name)
    case Some(j) => syms[j].value
    case None => 0
  }

  /** On a table that decodes in full, the search for a C-string name agrees with lookup in the decoded symbols. */
  lemma FindFunctionMatchesDecoded(img: seq<byte>, strtab: Option<nat>, symtab: Option<SymView>, name: seq<byte>, syms: seq<Sym>)
    requires NulFree(name)
    requires DecodeSymbols(img, strtab, TableOffset(symtab), SearchCount(symtab)) == Ok(syms)
    ensures FindFunction(img, strtab, symtab, name) == Ok(Lookup(syms, name))
  {
    var off, n := TableOffset(symtab), SearchCount(symtab);
    forall i | 0 <= i < n
      ensures EntryMatches(img, strtab, off, i, name) == Ok(syms[i].name == name)
    {
      EntryMatchesName(img, strtab, off, i, name);
    }
    match FirstIndex(syms, name)
    case Some(j) =>
      assert MissesIn(img, strtab, off, name, 0, j);
      assert EntryMatches(img, strtab, off, j, name) == Ok(true);
      assert EntryValue(img, off, j) == Ok(syms[j].value);
    case None =>
      assert MissesIn(img, strtab, off, name, 0, n);
  }

  /** A symbol matched first whose value is 0 is a miss: the search returns 0, the "not found" value. */
  lemma ZeroValuedMatchIsMiss(img: seq<byte>, strtab: Option<nat>, symtab: Option<SymView>, name: seq<byte>, j: nat)
    requires j < SearchCount(symtab)
    requires MissesIn(img, strtab, TableOffset(symtab), name, 0, j)
    requires EntryMatches(img, strtab, TableOffset(symtab), j, name) == Ok(true)
    requires EntryValue(img, TableOffset(symtab), j) == Ok(0)
    ensures FindFunction(img, strtab, symtab, name) == Ok(0)
  {
  }

  /**
   The Thumb fixup (the original's `& ~1`): on ARM, bit 0 of a function
   address marks Thumb code and is cleared, keeping every other bit (the
   halves agree); on every other machine the address is unchanged.
   */
  function ThumbFixup(machine: nat, v: nat): (r: nat)
    ensures machine == EM_ARM ==> r % 2 == 0 && r / 2 == v / 2
    ensures machine != EM_ARM ==> r == v
  {
    if machine == EM_ARM then v - v % 2 else v
  }

  /**
   Resolves a function name: the static table first; only when it yields 0
   (no match, or a match with value 0) is the dynamic table searched. A
   nonzero result gets the Thumb fixup; 0 means not found.
   */
  function GetFuncAddr(img: seq<byte>, h: Handle, name: seq<byte>): (r: Result<nat, LookupError>)
    ensures r.Ok? && h.ehdr.eMachine == EM_ARM ==> r.value % 2 == 0
    ensures r.Ok? ==> r.value < Pow256(8)
    ensures FindFunction(img, h.strtab, h.symtab, name).Err? ==> r == Err(FindFunction(img, h.strtab, h.symtab, name).error)
  {
    var fromStatic :- FindFunction(img, h.strtab, h.symtab, name);
    if fromStatic != 0 then Ok(ThumbFixup(h.ehdr.eMachine, fromStatic))
    else
      var fromDynamic :- FindFunction(img, h.dynstr, h.dynsym, name);
      if fromDynamic != 0 then Ok(ThumbFixup(h.ehdr.eMachine, fromDynamic))
      else Ok(0)
  }

  /**
   Static priority: a nonzero static result, fixed up, is the answer, and the
   dynamic table plays no part (whatever it holds, even if unreadable).
   */
  lemma StaticPriority(img: seq<byte>, h: Handle, name: seq<byte>)
    requires FindFunction(img, h.strtab, h.symtab, name).Ok?
    requires FindFunction(img, h.strtab, h.symtab, name).value != 0
    ensures var s := FindFunction(img, h.strtab, h.symtab, name).value;
      && GetFuncAddr(img, h, name) == Ok(ThumbFixup(h.ehdr.eMachine, s))
      && forall dynstr: Option<nat>, dynsym: Option<SymView> ::
           GetFuncAddr(img, h.(dynstr := dynstr, dynsym := dynsym), name) == GetFuncAddr(img, h, name)
  {
  }

  /**
   Dynamic fallback: when the static search yields 0, the result is the
   dynamic search's, fixed up when nonzero.
   */
  lemma DynamicFallback(img: seq<byte>, h: Handle, name: seq<byte>)
    requires FindFunction(img, h.strtab, h.symtab, name) == Ok(0)
    ensures GetFuncAddr(img, h, name) ==
      match FindFunction(img, h.dynstr, h.dynsym, name)
      case Ok(d) => Ok(if d == 0 then 0 else ThumbFixup(h.ehdr.eMachine, d))
      case Err(e) => Err(e)
  {
  }

  /**
   Not found: when neither table yields a nonzero value the result is 0; in
   particular an image with neither symbol table resolves nothing.
   */
  lemma NotFound(img: seq<byte>, h: Handle, name: seq<byte>)
    ensures FindFunction(img, h.strtab, h.symtab, name) == Ok(0)
         && FindFunction(img, h.dynstr, h.dynsym, name) == Ok(0)
         ==> GetFuncAddr(img, h, name) == Ok(0)
    ensures h.symtab.None? && h.dynsym.None? ==> GetFuncAddr(img, h, name) == Ok(0)
  {
  }

  /**
   Resolution over decoded tables tried in priority order: the first table
   whose lookup is nonzero gives the answer, fixed up; 0 when none does.
   */
  function ResolveIn(machine: nat, tables: seq<seq<Sym>>, name: seq<byte>): (r: nat)
    ensures (forall t | 0 <= t < |tables| :: Lookup(tables[t], name) == 0) ==> r == 0
    ensures forall t | 0 <= t < |tables| && Lookup(tables[t], name) != 0
                       && (forall u | 0 <= u < t :: Lookup(tables[u], name) == 0) ::
      r == ThumbFixup(machine, Lookup(tables[t], name))
    decreases |tables|
  {
    if |tables| == 0 then 0
    else if Lookup(tables[0], name) != 0 then ThumbFixup(machine, Lookup(tables[0], name))
    else
      var r := ResolveIn(machine, tables[1..], name);
      assert forall t | 1 <= t < |tables| :: tables[t] == tables[1..][t - 1];
      r
  }

  /**
   On an image whose two symbol tables decode in full, resolution is the
   priority-ordered lookup over [static, dynamic] for any C-string name.
   */
  lemma GetFuncAddrMatchesDecoded(img: seq<byte>, h: Handle, name: seq<byte>, statics: seq<Sym>, dynamics: seq<Sym>)
    requires NulFree(name)
    requires DecodeSymbols(img, h.strtab, TableOffset(h.symtab), SearchCount(h.symtab)) == Ok(statics)
    requires DecodeSymbols(img, h.dynstr, TableOffset(h.dynsym), SearchCount(h.dynsym)) == Ok(dynamics)
    ensures GetFuncAddr(img, h, name) == Ok(ResolveIn(h.ehdr.eMachine, [statics, dynamics], name))
  {
    FindFunctionMatchesDecoded(img, h.strtab, h.symtab, name, statics);
    FindFunctionMatchesDecoded(img, h.dynstr, h.dynsym, name, dynamics);
    var tables := [statics, dynamics];
    assert tables[0] == statics && tables[1] == dynamics;
  }
}
