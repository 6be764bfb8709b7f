/**
 * `find_signature_bounds` of the elf-test runner: one scan over the symbol
 * table that remembers where `begin_signature` and `end_signature` are, and
 * yields the region only when both were seen and begin < end.
 */
module SignatureBounds {
  import opened Wrappers
  import opened ElfSymbols

  /** The memory region a compliance test writes its signature to. */
  datatype Region = Region(begin: u32, end: u32)

  /**
   * The outcome the scan must produce, stated over LastAddress: never a
   * region for an unparsable file, and never an empty or inverted one.
   */
  function Bounds(elf: ElfView): (r: Option<Region>)
    ensures elf.Malformed? ==> r.None?
    ensures r.Some? ==> r.value.begin < r.value.end
    ensures r.Some? ==> LastAddress(elf.symbols, BEGIN_SIGNATURE) == Some(r.value.begin)
    ensures r.Some? ==> LastAddress(elf.symbols, END_SIGNATURE) == Some(r.value.end)
  {
    match elf
    case Malformed => None
    case Parsed(syms) =>
      match (LastAddress(syms, BEGIN_SIGNATURE), LastAddress(syms, END_SIGNATURE))
      case (Some(b), Some(e)) => if b < e then Some(Region(b, e)) else None
      case _ => None
  }

  /** The scan itself, walking the symbols in table order. */
  method FindSignatureBounds(elf: ElfView) returns (bounds: Option<Region>)
    ensures bounds == Bounds(elf)
  {
    if elf.Malformed? {
      return None;
    }
    var symbols := elf.symbols;
    var beginAddr: Option<u32> := None;
    var endAddr: Option<u32> := None;
    for i := 0 to |symbols|
      invariant beginAddr == LastAddress(symbols[..i], BEGIN_SIGNATURE)
      invariant endAddr == LastAddress(symbols[..i], END_SIGNATURE)
    {
      var symbol := symbols[i];
      assert symbols[..i + 1] == symbols[..i] + [symbol];
      LastAddressAppend(symbols[..i], [symbol], BEGIN_SIGNATURE);
      LastAddressAppend(symbols[..i], [symbol], END_SIGNATURE);
      match symbol.name {
        case Decoded(name) =>
          if name == BEGIN_SIGNATURE {
            beginAddr := Some(Truncate(symbol.address));
          } else if name == END_SIGNATURE {
            endAddr := Some(Truncate(symbol.address));
          }
        case Undecodable =>
      }
    }
    assert symbols[..|symbols|] == symbols;
    match (beginAddr, endAddr) {
      case (Some(b), Some(e)) =>
        bounds := if b < e then Some(Region(b, e)) else None;
      case _ =>
        bounds := None;
    }
  }

  /**
   * The full contract of the scan, stated without LastAddress: a region is
   * returned exactly when the ELF parsed, each sentinel occurs, and the last
   * occurrences satisfy begin < end; it then holds exactly those addresses.
   */
  lemma BoundsCharacterized(elf: ElfView, b: u32, e: u32)
    ensures Bounds(elf) == Some(Region(b, e)) <==>
      && elf.Parsed?
      && (exists i | 0 <= i < |elf.symbols| :: IsLast(elf.symbols, i, BEGIN_SIGNATURE) && Truncate(elf.symbols[i].address) == b)
      && (exists j | 0 <= j < |elf.symbols| :: IsLast(elf.symbols, j, END_SIGNATURE) && Truncate(elf.symbols[j].address) == e)
      && b < e
  {
    if elf.Parsed? {
      var syms := elf.symbols;
      if i :| 0 <= i < |syms| && IsLast(syms, i, BEGIN_SIGNATURE) && Truncate(syms[i].address) == b {
        LastAddressIsLastEntry(syms, BEGIN_SIGNATURE, i);
      }
      if j :| 0 <= j < |syms| && IsLast(syms, j, END_SIGNATURE) && Truncate(syms[j].address) == e {
        LastAddressIsLastEntry(syms, END_SIGNATURE, j);
      }
    }
  }

  /** Entry i is called `name` and no later entry is. */
  predicate IsLast(syms: seq<Symbol>, i: nat, name: string)
    requires i < |syms|
  {
    Named(syms[i], name) && forall j | i < j < |syms| :: !Named(syms[j], name)
  }

  /** A region is never empty or inverted (Bounds' own contract, stated as a named property). */
  lemma BoundsOrdered(elf: ElfView)
    ensures Bounds(elf).Some? ==> Bounds(elf).value.begin < Bounds(elf).value.end
  {
  }

  /**
   * An ELF file that does not parse yields no region, whatever it contains
   * (Bounds' own contract, stated as a named property).
   */
  lemma MalformedHasNoBounds()
    ensures Bounds(Malformed) == None
  {
  }

  /** A symbol table lacking either sentinel yields no region. */
  lemma {:induction false} MissingSentinelHasNoBounds(syms: seq<Symbol>)
    requires (forall i | 0 <= i < |syms| :: !Named(syms[i], BEGIN_SIGNATURE))
          || (forall i | 0 <= i < |syms| :: !Named(syms[i], END_SIGNATURE))
    ensures Bounds(Parsed(syms)) == None
  {
    LastAddressAbsent(syms, BEGIN_SIGNATURE);
    LastAddressAbsent(syms, END_SIGNATURE);
  }

  /** Inserting (or, read backwards, removing) an entry with any other name changes nothing. */
  lemma IrrelevantEntryIgnored(syms: seq<Symbol>, k: nat, e: Symbol)
    requires k <= |syms|
    requires !Named(e, BEGIN_SIGNATURE) && !Named(e, END_SIGNATURE)
    ensures Bounds(Parsed(syms[..k] + [e] + syms[k..])) == Bounds(Parsed(syms))
  {
    IgnoredEntry(syms, k, e, BEGIN_SIGNATURE);
    IgnoredEntry(syms, k, e, END_SIGNATURE);
  }

  /** The region depends only on the sentinel entries, in their table order. */
  lemma OnlySentinelsMatter(syms: seq<Symbol>)
    ensures Bounds(Parsed(SentinelEntries(syms))) == Bounds(Parsed(syms))
  {
    SentinelEntriesSuffice(syms, BEGIN_SIGNATURE);
    SentinelEntriesSuffice(syms, END_SIGNATURE);
  }

  /** Addresses are compared after truncation to 32 bits; high bits never matter. */
  lemma BoundsIgnoreHighBits(s: seq<Symbol>, t: seq<Symbol>)
    requires SameUpToTruncation(s, t)
    ensures Bounds(Parsed(s)) == Bounds(Parsed(t))
  {
    LastAddressIgnoresHighBits(s, t, BEGIN_SIGNATURE);
    LastAddressIgnoresHighBits(s, t, END_SIGNATURE);
  }

  /**
   * A duplicated `begin_signature` whose later copy lies past the end gives no
   * region, although the first copy alone would have given one.
   */
  lemma DuplicateBeginLastWins()
    ensures
      var first := Symbol(Decoded(BEGIN_SIGNATURE), 0x10);
      var end := Symbol(Decoded(END_SIGNATURE), 0x40);
      var later := Symbol(Decoded(BEGIN_SIGNATURE), 0x50);
      && Bounds(Parsed([first, end])) == Some(Region(0x10, 0x40))
      && Bounds(Parsed([first, end, later])) == None
  {
    var first := Symbol(Decoded(BEGIN_SIGNATURE), 0x10);
    var end := Symbol(Decoded(END_SIGNATURE), 0x40);
    var later := Symbol(Decoded(BEGIN_SIGNATURE), 0x50);
    assert BEGIN_SIGNATURE[0] != END_SIGNATURE[0];
    LastAddressIsLastEntry([first, end], BEGIN_SIGNATURE, 0);
    LastAddressIsLastEntry([first, end], END_SIGNATURE, 1);
    LastAddressIsLastEntry([first, end, later], BEGIN_SIGNATURE, 2);
    LastAddressIsLastEntry([first, end, later], END_SIGNATURE, 1);
  }

  /** A begin address above 4 GiB is compared by its low 32 bits only. */
  lemma TruncatedBeforeComparing()
    ensures
      var begin := Symbol(Decoded(BEGIN_SIGNATURE), 0x1_0000_0010);
      var end := Symbol(Decoded(END_SIGNATURE), 0x20);
      Bounds(Parsed([begin, end])) == Some(Region(0x10, 0x20))
  {
    var begin := Symbol(Decoded(BEGIN_SIGNATURE), 0x1_0000_0010);
    var end := Symbol(Decoded(END_SIGNATURE), 0x20);
    assert BEGIN_SIGNATURE[0] != END_SIGNATURE[0];
    LastAddressIsLastEntry([begin, end], BEGIN_SIGNATURE, 0);
    LastAddressIsLastEntry([begin, end], END_SIGNATURE, 1);
  }
}
