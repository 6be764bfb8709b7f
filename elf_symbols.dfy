/**
 * The view of an ELF symbol table that the signature scan works on
 * (System V gABI, chapter 4, "Symbol Table"): entries in table order, each
 * with a name that may fail to decode and an unsigned 64-bit address.
 *
 * LastAddress is the reference meaning of the scan: the address of the LAST
 * entry with a given name, truncated to 32 bits.
 */
module ElfSymbols {
  import opened Wrappers

  const U32_MODULUS: int := 0x1_0000_0000
  const U64_MODULUS: int := 0x1_0000_0000_0000_0000

  type u32 = x: int | 0 <= x < U32_MODULUS
  type u64 = x: int | 0 <= x < U64_MODULUS

  /** Result of decoding a symbol's name from the string table. */
  datatype SymbolName = Decoded(text: string) | Undecodable

  datatype Symbol = Symbol(name: SymbolName, address: u64)

  /** Outcome of parsing the ELF file: a failure, or its symbols in table order. */
  datatype ElfView = Malformed | Parsed(symbols: seq<Symbol>)

  const BEGIN_SIGNATURE: string := "begin_signature"
  const END_SIGNATURE: string := "end_signature"

  predicate Named(s: Symbol, name: string) {
    s.name == Decoded(name)
  }

  /** Rust's `address as u32`: keeps the low 32 bits. */
  function Truncate(a: u64): (r: u32)
    ensures a < U32_MODULUS ==> r == a
    ensures (a - r) % U32_MODULUS == 0
  {
    a % U32_MODULUS
  }

  /**
   * The truncated address of the last entry called `name`, or None when no
   * entry has that name (entries whose name does not decode never match).
   */
  function LastAddress(syms: seq<Symbol>, name: string): (r: Option<u32>)
    ensures r.Some? ==>
      exists i | 0 <= i < |syms| ::
        && Named(syms[i], name)
        && r.value == Truncate(syms[i].address)
        && forall j | i < j < |syms| :: !Named(syms[j], name)
  {
    if |syms| == 0 then None
    else
      var last := syms[|syms| - 1];
      if Named(last, name) then Some(Truncate(last.address))
      else
        var r := LastAddress(syms[..|syms| - 1], name);
        assert forall i | 0 <= i < |syms| - 1 :: syms[..|syms| - 1][i] == syms[i];
        r
  }

  /** LastAddress finds nothing exactly when no entry carries the name. */
  lemma {:induction false} LastAddressAbsent(syms: seq<Symbol>, name: string)
    ensures LastAddress(syms, name).None? <==> forall i | 0 <= i < |syms| :: !Named(syms[i], name)
  {
    if |syms| > 0 && !Named(syms[|syms| - 1], name) {
      var init := syms[..|syms| - 1];
      LastAddressAbsent(init, name);
      assert forall i | 0 <= i < |init| :: init[i] == syms[i];
    }
  }

  /**
   * The entry that LastAddress reports is unique: any entry called `name`
   * after which no other entry has that name yields exactly LastAddress.
   */
  lemma {:induction false} LastAddressIsLastEntry(syms: seq<Symbol>, name: string, i: nat)
    requires i < |syms| && Named(syms[i], name)
    requires forall j | i < j < |syms| :: !Named(syms[j], name)
    ensures LastAddress(syms, name) == Some(Truncate(syms[i].address))
  {
    if i < |syms| - 1 {
      var init := syms[..|syms| - 1];
      assert init[i] == syms[i];
      forall j | i < j < |init| ensures !Named(init[j], name) {
        assert init[j] == syms[j];
      }
      LastAddressIsLastEntry(init, name, i);
    }
  }

  /** Scanning a concatenation: a hit in the later part overrides the earlier part. */
  lemma {:induction false} LastAddressAppend(s: seq<Symbol>, t: seq<Symbol>, name: string)
    ensures LastAddress(s + t, name)
         == if LastAddress(t, name).Some? then LastAddress(t, name) else LastAddress(s, name)
    decreases |t|
  {
    if |t| == 0 {
      assert s + t == s;
    } else {
      var st, init := s + t, t[..|t| - 1];
      assert st[|st| - 1] == t[|t| - 1];
      if !Named(t[|t| - 1], name) {
        assert st[..|st| - 1] == s + init;
        assert LastAddress(t, name) == LastAddress(init, name);
        LastAddressAppend(s, init, name);
      }
    }
  }

  /** An entry with a different (or undecodable) name can be inserted anywhere unnoticed. */
  lemma IgnoredEntry(syms: seq<Symbol>, k: nat, e: Symbol, name: string)
    requires k <= |syms| && !Named(e, name)
    ensures LastAddress(syms[..k] + [e] + syms[k..], name) == LastAddress(syms, name)
  {
    LastAddressAppend(syms[..k] + [e], syms[k..], name);
    LastAddressAppend(syms[..k], [e], name);
    LastAddressAppend(syms[..k], syms[k..], name);
    assert syms[..k] + syms[k..] == syms;
  }

  /** An entry the scan can react to: one called `begin_signature` or `end_signature`. */
  predicate IsSentinel(s: Symbol) {
    Named(s, BEGIN_SIGNATURE) || Named(s, END_SIGNATURE)
  }

  /**
   * The sentinel entries of the table. SentinelEntriesMultiplicity adds that
   * each is kept as often as it occurs, and SentinelEntriesAppend that the
   * table order is kept.
   */
  function SentinelEntries(syms: seq<Symbol>): (r: seq<Symbol>)
    ensures |r| <= |syms|
    ensures forall i | 0 <= i < |r| :: Named(r[i], BEGIN_SIGNATURE) || Named(r[i], END_SIGNATURE)
    ensures forall e | e in r :: e in syms
    ensures forall i | 0 <= i < |syms| ::
      (Named(syms[i], BEGIN_SIGNATURE) || Named(syms[i], END_SIGNATURE)) ==> syms[i] in r
  {
    if |syms| == 0 then []
    else
      var last := syms[|syms| - 1];
      var prefix := syms[..|syms| - 1];
      var init := SentinelEntries(prefix);
      assert syms == prefix + [last];
      assert forall i | 0 <= i < |prefix| :: prefix[i] == syms[i];
      assert forall e | e in prefix :: e in syms;
      if IsSentinel(last) then init + [last] else init
  }

  /** Every sentinel entry is kept as often as it occurs in the table, and nothing else is. */
  lemma {:induction false} SentinelEntriesMultiplicity(syms: seq<Symbol>, e: Symbol)
    ensures multiset(SentinelEntries(syms))[e] == if IsSentinel(e) then multiset(syms)[e] else 0
  {
    if |syms| > 0 {
      var prefix, last := syms[..|syms| - 1], syms[|syms| - 1];
      assert syms == prefix + [last];
      assert multiset(syms) == multiset(prefix) + multiset{last};
      SentinelEntriesMultiplicity(prefix, e);
    }
  }

  /**
   * Filtering distributes over concatenation: the sentinel entries of s come
   * before those of t, so the table order is kept.
   */
  lemma {:induction false} SentinelEntriesAppend(s: seq<Symbol>, t: seq<Symbol>)
    ensures SentinelEntries(s + t) == SentinelEntries(s) + SentinelEntries(t)
    decreases |t|
  {
    if |t| == 0 {
      assert s + t == s;
    } else {
      var st, init, last := s + t, t[..|t| - 1], t[|t| - 1];
      var tail := if IsSentinel(last) then [last] else [];
      assert st[|st| - 1] == last;
      assert st[..|st| - 1] == s + init;
      assert SentinelEntries(st) == SentinelEntries(s + init) + tail;
      assert SentinelEntries(t) == SentinelEntries(init) + tail;
      SentinelEntriesAppend(s, init);
    }
  }

  /** Dropping every other entry does not change the address found for either sentinel. */
  lemma {:induction false} SentinelEntriesSuffice(syms: seq<Symbol>, name: string)
    requires name == BEGIN_SIGNATURE || name == END_SIGNATURE
    ensures LastAddress(SentinelEntries(syms), name) == LastAddress(syms, name)
  {
    if |syms| > 0 {
      var last := syms[|syms| - 1];
      var init := syms[..|syms| - 1];
      assert syms == init + [last];
      SentinelEntriesSuffice(init, name);
      LastAddressAppend(init, [last], name);
      if Named(last, BEGIN_SIGNATURE) || Named(last, END_SIGNATURE) {
        LastAddressAppend(SentinelEntries(init), [last], name);
      }
    }
  }

  /** Only names and the low 32 bits of addresses matter. */
  predicate SameUpToTruncation(s: seq<Symbol>, t: seq<Symbol>) {
    && |s| == |t|
    && forall i | 0 <= i < |s| ::
         s[i].name == t[i].name && Truncate(s[i].address) == Truncate(t[i].address)
  }

  lemma {:induction false} LastAddressIgnoresHighBits(s: seq<Symbol>, t: seq<Symbol>, name: string)
    requires SameUpToTruncation(s, t)
    ensures LastAddress(s, name) == LastAddress(t, name)
  {
    if |s| > 0 {
      var n := |s| - 1;
      assert s[n].name == t[n].name && Truncate(s[n].address) == Truncate(t[n].address);
      assert SameUpToTruncation(s[..n], t[..n]) by {
        forall i | 0 <= i < n
          ensures s[..n][i].name == t[..n][i].name
          ensures Truncate(s[..n][i].address) == Truncate(t[..n][i].address)
        {
          assert s[..n][i] == s[i] && t[..n][i] == t[i];
        }
      }
      LastAddressIgnoresHighBits(s[..n], t[..n], name);
    }
  }
}
