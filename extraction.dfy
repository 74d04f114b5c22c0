/**
 * What `compareGeneFlybaseInfo` does with the groups its regular expressions
 * capture from a FlyBase gene report: the alias set (the gene symbol plus the
 * "Also Known As" list) and the isoform table keyed by isoform name. The
 * regular expressions themselves are not modelled; their captures are the
 * inputs here (`None` where a pattern did not match).
 */
module Extraction {
  import opened Wrappers
  import opened PyStr

  /** The captures of one `line-wrapper` block of the isoform table. */
  datatype IsoformBlock = IsoformBlock(
    name: Option<string>,       // the `trans_name` link text, None if that pattern missed
    flybaseId: Option<string>,  // the `trans_ID` transcript identifier
    refseqId: Option<string>)   // the NCBI `val=` accession

  /** One extracted isoform: the dict `{'name', 'flybase_id', 'refseq_id'}`. */
  datatype IsoformFacts = IsoformFacts(name: string, flybaseId: string, refseqId: string)

  /** The separator of the "Also Known As" field. */
  const AkaSeparator: string := ", "

  /** The alias contributed by the Symbol capture: its stripped text. */
  function SymbolAliases(symbol: Option<string>): set<string> {
    if symbol.Some? then {StripSpace(symbol.value)} else {}
  }

  /** The stripped pieces of a text split on `", "`. */
  function StrippedPieces(items: seq<string>): set<string> {
    set p | p in items :: StripSpace(p)
  }

  /** The aliases contributed by the "Also Known As" capture. */
  function AkaAliases(akas: Option<string>): set<string> {
    if akas.Some? then StrippedPieces(Split(akas.value, AkaSeparator)) else {}
  }

  /** The keys of `geneInfo['aliases']` once both captures have been processed. */
  function AliasSet(symbol: Option<string>, akas: Option<string>): set<string> {
    SymbolAliases(symbol) + AkaAliases(akas)
  }

  /** Fills the alias dict the way the source does: the symbol first, then each AKA piece in turn. */
  method ExtractAliases(symbol: Option<string>, akas: Option<string>) returns (aliases: set<string>)
    ensures aliases == AliasSet(symbol, akas)
    ensures symbol.Some? ==> StripSpace(symbol.value) in aliases
    ensures akas.Some? ==> forall p :: p in Split(akas.value, AkaSeparator) ==> StripSpace(p) in aliases
  {
    aliases := {};
    if symbol.Some? {
      var name := StripSpace(symbol.value);
      aliases := aliases + {name};
    }
    if akas.Some? {
      var items := Split(akas.value, AkaSeparator);
      for i := 0 to |items|
        invariant aliases == SymbolAliases(symbol) + StrippedPieces(items[..i])
      {
        assert items[..i + 1] == items[..i] + [items[i]];
        aliases := aliases + {StripSpace(items[i])};
      }
      assert items[..|items|] == items;
    }
  }

  /** Every alias is already stripped: it has no surrounding whitespace. */
  lemma AliasesAreStripped(symbol: Option<string>, akas: Option<string>)
    ensures forall a :: a in AliasSet(symbol, akas) ==> StripSpace(a) == a
  {
    forall a | a in AliasSet(symbol, akas) ensures StripSpace(a) == a {
      if a in SymbolAliases(symbol) {
        StripIdempotent(symbol.value, Whitespace);
      } else {
        var p :| p in Split(akas.value, AkaSeparator) && a == StripSpace(p);
        StripIdempotent(p, Whitespace);
      }
    }
  }

  /** An alias comes from the symbol or from a piece of the AKA text, and from nowhere else. */
  lemma AliasOrigin(symbol: Option<string>, akas: Option<string>, a: string)
    requires a in AliasSet(symbol, akas)
    ensures (symbol.Some? && a == StripSpace(symbol.value))
         || (akas.Some? && exists p :: p in Split(akas.value, AkaSeparator) && a == StripSpace(p))
  {
  }

  /** A matched but empty "Also Known As" field contributes the empty alias. */
  lemma EmptyAkaGivesEmptyAlias(symbol: Option<string>)
    ensures AliasSet(symbol, Some("")) == SymbolAliases(symbol) + {""}
  {
    assert Find("", AkaSeparator).None?;
    assert Split("", AkaSeparator) == [""];
    assert StripSpace("") == "";
    assert StrippedPieces([""]) == {""};
  }

  // ---------------------------------------------------------------- isoforms

  function StripOrEmpty(o: Option<string>): string {
    if o.Some? then StripSpace(o.value) else ""
  }

  /** The isoform dict one block yields, or None when the block has no name and is dropped. */
  function BlockFacts(b: IsoformBlock): (r: Option<IsoformFacts>)
    ensures r.Some? <==> b.name.Some?
    ensures r.Some? ==> r.value.name == StripSpace(b.name.value)
    ensures r.Some? && b.flybaseId.None? ==> r.value.flybaseId == ""
    ensures r.Some? && b.refseqId.None? ==> r.value.refseqId == ""
    ensures r.Some? && b.flybaseId.Some? ==> r.value.flybaseId == StripSpace(b.flybaseId.value)
    ensures r.Some? && b.refseqId.Some? ==> r.value.refseqId == StripSpace(b.refseqId.value)
  {
    if b.name.None? then None
    else Some(IsoformFacts(StripSpace(b.name.value), StripOrEmpty(b.flybaseId), StripOrEmpty(b.refseqId)))
  }

  /** `geneInfo['isoforms']` after the blocks have been processed in document order. */
  function IsoformMap(blocks: seq<IsoformBlock>): map<string, IsoformFacts> {
    if blocks == [] then map[]
    else
      var m := IsoformMap(blocks[..|blocks| - 1]);
      match BlockFacts(blocks[|blocks| - 1])
      case None => m
      case Some(f) => m[f.name := f]
  }

  /** Processing one more block: a named block sets (or overwrites) its entry, an unnamed one changes nothing. */
  lemma IsoformMapStep(blocks: seq<IsoformBlock>, i: nat)
    requires i < |blocks|
    ensures IsoformMap(blocks[..i + 1]) ==
      if blocks[i].name.Some? then IsoformMap(blocks[..i])[BlockFacts(blocks[i]).value.name := BlockFacts(blocks[i]).value]
      else IsoformMap(blocks[..i])
  {
    assert blocks[..i + 1][..i] == blocks[..i];
  }

  /** Fills the isoform dict block by block, as the loop over the table's `line-wrapper` pieces does. */
  method ExtractIsoforms(blocks: seq<IsoformBlock>) returns (isoforms: map<string, IsoformFacts>)
    ensures isoforms == IsoformMap(blocks)
  {
    isoforms := map[];
    for i := 0 to |blocks|
      invariant isoforms == IsoformMap(blocks[..i])
    {
      IsoformMapStep(blocks, i);
      var b := blocks[i];
      if b.name.Some? {
        // the dict starts with '' for both identifiers; a matching pattern overwrites them
        var flybaseId, refseqId := "", "";
        if b.flybaseId.Some? {
          flybaseId := StripSpace(b.flybaseId.value);
        }
        if b.refseqId.Some? {
          refseqId := StripSpace(b.refseqId.value);
        }
        var isoform := IsoformFacts(StripSpace(b.name.value), flybaseId, refseqId);
        assert BlockFacts(b).value == isoform;
        isoforms := isoforms[isoform.name := isoform];
      }
    }
    assert blocks[..|blocks|] == blocks;
  }

  /** Block `k` yields an isoform named `n`. */
  predicate NamedAt(blocks: seq<IsoformBlock>, k: int, n: string) {
    0 <= k < |blocks| && blocks[k].name.Some? && StripSpace(blocks[k].name.value) == n
  }

  /** Dropping the last block changes no earlier block's name. */
  lemma NamedAtInit(blocks: seq<IsoformBlock>, n: string)
    requires blocks != []
    ensures forall j :: 0 <= j < |blocks| - 1 ==> (NamedAt(blocks[..|blocks| - 1], j, n) <==> NamedAt(blocks, j, n))
  {
    var init := blocks[..|blocks| - 1];
    forall j | 0 <= j < |blocks| - 1
      ensures NamedAt(init, j, n) <==> NamedAt(blocks, j, n)
    {
      assert init[j] == blocks[j];
    }
  }

  /** The index of the last block that yields an isoform named `n`, or -1 if none does. */
  function LastNamed(blocks: seq<IsoformBlock>, n: string): (k: int)
    ensures -1 <= k < |blocks|
    ensures k >= 0 ==> NamedAt(blocks, k, n)
    ensures forall j :: k < j < |blocks| ==> !NamedAt(blocks, j, n)
  {
    if blocks == [] then -1
    else if NamedAt(blocks, |blocks| - 1, n) then |blocks| - 1
    else
      NamedAtInit(blocks, n);
      LastNamed(blocks[..|blocks| - 1], n)
  }

  /**
   * The isoform map holds a name exactly when some block yields it, and its
   * entry is the facts of the LAST such block: later blocks overwrite
   * earlier ones. Every entry is keyed by its own stripped name.
   */
  lemma {:induction false} IsoformMapLastWins(blocks: seq<IsoformBlock>, n: string)
    ensures n in IsoformMap(blocks) <==> LastNamed(blocks, n) >= 0
    ensures n in IsoformMap(blocks) ==>
      IsoformMap(blocks)[n] == BlockFacts(blocks[LastNamed(blocks, n)]).value && IsoformMap(blocks)[n].name == n
  {
    if blocks != [] {
      var init := blocks[..|blocks| - 1];
      IsoformMapLastWins(init, n);
      if !NamedAt(blocks, |blocks| - 1, n) {
        assert LastNamed(blocks, n) == LastNamed(init, n);
        if LastNamed(init, n) >= 0 {
          assert init[LastNamed(init, n)] == blocks[LastNamed(init, n)];
        }
      }
    }
  }

  /** A name is in the isoform map exactly when some block yields it. */
  lemma IsoformMapDomain(blocks: seq<IsoformBlock>, n: string)
    ensures n in IsoformMap(blocks) <==> exists k :: NamedAt(blocks, k, n)
  {
    IsoformMapLastWins(blocks, n);
    if exists k :: NamedAt(blocks, k, n) {
      var k :| NamedAt(blocks, k, n);
      assert LastNamed(blocks, n) >= k;
    }
  }
}
