/**
 * What the statements of one comparison do to the database rows of the gene
 * being compared: its aliases, its isoforms and its image path. This is the
 * effect MySQL gives the six statements (`INSERT IGNORE` skips a row whose
 * name the gene already has; `DELETE ... WHERE id IN` removes the rows whose
 * id is among the parameters; the UPDATEs rewrite the row with the given id),
 * stated over maps so that the outcome of a whole comparison can be proved.
 */
module Store {
  import opened PyStr
  import opened Extraction
  import opened Sql
  import opened Diff

  /** The rows of one gene, and the next auto-increment id of the two row tables. */
  datatype GeneRows = GeneRows(
    aliases: map<string, nat>,
    aliasNext: nat,
    isoforms: map<string, StoredIsoform>,
    isoformNext: nat,
    imagePath: string)

  /** Distinct names have distinct row ids (ids are primary keys). */
  predicate IdsInjective(ids: map<string, nat>) {
    forall a, b :: a in ids && b in ids && ids[a] == ids[b] ==> a == b
  }

  /** Every row id is below the table's next auto-increment id. */
  predicate IdsBelow(ids: map<string, nat>, next: nat) {
    forall a :: a in ids ==> ids[a] < next
  }

  // ---------------------------------------------------------------- the effect of one statement

  /** One `(name, gene id)` row of an `INSERT IGNORE INTO aliases`. */
  function AddAlias(t: GeneRows, geneId: nat, name: string, owner: string): GeneRows {
    if owner == Str(geneId) && name !in t.aliases then
      t.(aliases := t.aliases[name := t.aliasNext], aliasNext := t.aliasNext + 1)
    else t
  }

  function InsertAliasRows(t: GeneRows, geneId: nat, params: seq<string>): GeneRows
    decreases |params|
  {
    if |params| < 2 then t
    else AddAlias(InsertAliasRows(t, geneId, params[..|params| - 2]), geneId, params[|params| - 2], params[|params| - 1])
  }

  /** One `(name, gene id, flybase id, refseq id)` row of an `INSERT IGNORE INTO isoforms`. */
  function AddIsoform(t: GeneRows, geneId: nat, name: string, owner: string, flybaseId: string, refseqId: string): GeneRows {
    if owner == Str(geneId) && name !in t.isoforms then
      t.(isoforms := t.isoforms[name := StoredIsoform(t.isoformNext, name, flybaseId, refseqId)], isoformNext := t.isoformNext + 1)
    else t
  }

  function InsertIsoformRows(t: GeneRows, geneId: nat, params: seq<string>): GeneRows
    decreases |params|
  {
    if |params| < 4 then t
    else
      var k := |params| - 4;
      AddIsoform(InsertIsoformRows(t, geneId, params[..k]), geneId, params[k], params[k + 1], params[k + 2], params[k + 3])
  }

  function DeleteAliasRows(t: GeneRows, params: seq<string>): GeneRows {
    t.(aliases := map n | n in t.aliases && Str(t.aliases[n]) !in params :: t.aliases[n])
  }

  function DeleteIsoformRows(t: GeneRows, params: seq<string>): GeneRows {
    t.(isoforms := map n | n in t.isoforms && Str(t.isoforms[n].id) !in params :: t.isoforms[n])
  }

  function UpdateIsoformRow(t: GeneRows, flybaseId: string, refseqId: string, id: string): GeneRows {
    t.(isoforms := map n | n in t.isoforms ::
      if Str(t.isoforms[n].id) == id then t.isoforms[n].(flybaseId := flybaseId, refseqId := refseqId) else t.isoforms[n])
  }

  /**
   * The effect of one statement on the rows of gene `geneId`. A statement
   * whose placeholders do not match its parameters, or whose rows have the
   * wrong width, is refused by the driver and changes nothing.
   */
  function Exec(t: GeneRows, geneId: nat, q: Query): GeneRows {
    if !WellFormed(q) then t
    else
      match q.stmt
      case InsertAliases => if |q.params| % 2 == 0 then InsertAliasRows(t, geneId, q.params) else t
      case DeleteAliases => DeleteAliasRows(t, q.params)
      case UpdateIsoform => if |q.params| == 3 then UpdateIsoformRow(t, q.params[0], q.params[1], q.params[2]) else t
      case InsertIsoforms => if |q.params| % 4 == 0 then InsertIsoformRows(t, geneId, q.params) else t
      case DeleteIsoforms => DeleteIsoformRows(t, q.params)
      case UpdateImagePath =>
        if |q.params| == 2 && q.params[1] == Str(geneId) then t.(imagePath := q.params[0]) else t
  }

  /** The effect of a sequence of statements, in order. */
  function Run(t: GeneRows, geneId: nat, qs: seq<Query>): GeneRows
    decreases |qs|
  {
    if qs == [] then t else Exec(Run(t, geneId, qs[..|qs| - 1]), geneId, qs[|qs| - 1])
  }

  lemma {:induction false} RunAppend(t: GeneRows, geneId: nat, a: seq<Query>, b: seq<Query>)
    ensures Run(t, geneId, a + b) == Run(Run(t, geneId, a), geneId, b)
    decreases |b|
  {
    if b == [] {
      assert a + b == a;
    } else {
      assert (a + b)[..|a + b| - 1] == a + b[..|b| - 1];
      RunAppend(t, geneId, a, b[..|b| - 1]);
    }
  }

  // ---------------------------------------------------------------- inserts

  /**
   * `r` is `t` with a row added, under a fresh id, for each of `names` the
   * gene did not have. Every existing row is left as it was.
   */
  ghost predicate AliasesInserted(t: GeneRows, r: GeneRows, names: seq<string>) {
    (forall n :: n in r.aliases <==> n in t.aliases || n in names)
    && (forall n :: n in t.aliases ==> r.aliases[n] == t.aliases[n])
    && (forall n :: n in r.aliases && n !in t.aliases ==> r.aliases[n] >= t.aliasNext)
    && r.aliasNext >= t.aliasNext
    && r.isoforms == t.isoforms && r.isoformNext == t.isoformNext && r.imagePath == t.imagePath
  }

  /** Inserting `(name, gene id)` pairs adds the rows `AliasesInserted` describes. */
  lemma {:induction false} InsertAliasesEffect(t: GeneRows, geneId: nat, names: seq<string>)
    ensures AliasesInserted(t, InsertAliasRows(t, geneId, PairParams(names, geneId)), names)
  {
    if names != [] {
      var init := names[..|names| - 1];
      var last := names[|names| - 1];
      assert names == init + [last];
      InsertAliasStep(t, geneId, init, last);
      InsertAliasesEffect(t, geneId, init);
      AddAliasKeeps(t, InsertAliasRows(t, geneId, PairParams(init, geneId)), geneId, init, last);
    }
  }

  /** The pair of one more name adds that one row. */
  lemma InsertAliasStep(t: GeneRows, geneId: nat, init: seq<string>, last: string)
    ensures InsertAliasRows(t, geneId, PairParams(init + [last], geneId))
      == AddAlias(InsertAliasRows(t, geneId, PairParams(init, geneId)), geneId, last, Str(geneId))
  {
    PairParamsStep(init, last, geneId);
    var p0 := PairParams(init, geneId);
    var p := p0 + [last, Str(geneId)];
    assert p[..|p| - 2] == p0;
  }

  /** Adding the row of one more name keeps the description. */
  lemma AddAliasKeeps(t: GeneRows, r0: GeneRows, geneId: nat, init: seq<string>, last: string)
    requires AliasesInserted(t, r0, init)
    ensures AliasesInserted(t, AddAlias(r0, geneId, last, Str(geneId)), init + [last])
  {
  }

  /**
   * `r` is `t` with a row added for each of `names` the gene did not have:
   * a fresh id and the identifiers of its extracted dict. Every existing row
   * is left as it was.
   */
  ghost predicate IsoformsInserted(t: GeneRows, r: GeneRows, names: seq<string>, extracted: map<string, IsoformFacts>)
    requires forall n :: n in names ==> n in extracted
  {
    (forall n :: n in r.isoforms <==> n in t.isoforms || n in names)
    && (forall n :: n in t.isoforms ==> r.isoforms[n] == t.isoforms[n])
    && (forall n :: n in r.isoforms && n !in t.isoforms ==>
          r.isoforms[n].id >= t.isoformNext && r.isoforms[n].name == n
          && r.isoforms[n].flybaseId == extracted[n].flybaseId && r.isoforms[n].refseqId == extracted[n].refseqId)
    && r.isoformNext >= t.isoformNext
    && r.aliases == t.aliases && r.imagePath == t.imagePath
  }

  /** Inserting isoform quadruples adds the rows `IsoformsInserted` describes. */
  lemma {:induction false} InsertIsoformsEffect(t: GeneRows, geneId: nat, names: seq<string>, extracted: map<string, IsoformFacts>)
    requires forall n :: n in names ==> n in extracted
    ensures IsoformsInserted(t, InsertIsoformRows(t, geneId, QuadParams(names, extracted, geneId)), names, extracted)
  {
    if names != [] {
      var init := names[..|names| - 1];
      var last := names[|names| - 1];
      assert names == init + [last];
      InsertIsoformStep(t, geneId, init, last, extracted);
      InsertIsoformsEffect(t, geneId, init, extracted);
      var r0 := InsertIsoformRows(t, geneId, QuadParams(init, extracted, geneId));
      AddIsoformKeeps(t, r0, geneId, init, last, extracted);
    }
  }

  /** Adding the row of one more name keeps the description. */
  lemma AddIsoformKeeps(t: GeneRows, r0: GeneRows, geneId: nat, init: seq<string>, last: string, extracted: map<string, IsoformFacts>)
    requires forall n :: n in init ==> n in extracted
    requires last in extracted
    requires IsoformsInserted(t, r0, init, extracted)
    ensures IsoformsInserted(t, AddIsoform(r0, geneId, last, Str(geneId), extracted[last].flybaseId, extracted[last].refseqId),
      init + [last], extracted)
  {
  }

  /** The quadruple of one more name adds that one row. */
  lemma InsertIsoformStep(t: GeneRows, geneId: nat, init: seq<string>, last: string, extracted: map<string, IsoformFacts>)
    requires forall n :: n in init ==> n in extracted
    requires last in extracted
    ensures InsertIsoformRows(t, geneId, QuadParams(init + [last], extracted, geneId))
      == AddIsoform(InsertIsoformRows(t, geneId, QuadParams(init, extracted, geneId)), geneId,
           last, Str(geneId), extracted[last].flybaseId, extracted[last].refseqId)
  {
    QuadParamsStep(init, last, extracted, geneId);
    var p0 := QuadParams(init, extracted, geneId);
    var p := p0 + [last, Str(geneId), extracted[last].flybaseId, extracted[last].refseqId];
    assert p[..|p| - 4] == p0;
  }

  // ---------------------------------------------------------------- updates

  /** The isoform rows after the updates for the listed names have run. */
  function Refreshed(stored: map<string, StoredIsoform>, extracted: map<string, IsoformFacts>, done: seq<string>): map<string, StoredIsoform> {
    map n | n in stored ::
      if n in done && n in extracted && NeedsUpdate(extracted[n], stored[n])
      then stored[n].(flybaseId := extracted[n].flybaseId, refseqId := extracted[n].refseqId)
      else stored[n]
  }

  lemma ExecUpdate(t: GeneRows, geneId: nat, flybaseId: string, refseqId: string, id: nat)
    ensures Exec(t, geneId, IsoformUpdateQuery(flybaseId, refseqId, id)) == UpdateIsoformRow(t, flybaseId, refseqId, Str(id))
  {
    FixedQueriesWellFormed(flybaseId, refseqId, id, "", 0);
  }

  /** One update rewrites the row with its id, and only that row, since ids are distinct. */
  lemma UpdateStep(before: GeneRows, stored: map<string, StoredIsoform>, extracted: map<string, IsoformFacts>, init: seq<string>, last: string)
    requires IdsInjective(IdsOf(stored))
    requires before.isoforms == Refreshed(stored, extracted, init)
    requires last in stored && last !in init && last in extracted
    ensures UpdateIsoformRow(before, extracted[last].flybaseId, extracted[last].refseqId, Str(stored[last].id)).isoforms
      == Refreshed(stored, extracted, init + [last])
  {
    var a := UpdateIsoformRow(before, extracted[last].flybaseId, extracted[last].refseqId, Str(stored[last].id)).isoforms;
    var b := Refreshed(stored, extracted, init + [last]);
    assert a.Keys == stored.Keys == b.Keys;
    forall n | n in stored
      ensures a[n] == b[n]
    {
      UpdateStepAt(before, stored, extracted, init, last, n);
    }
  }

  /** The same, for the row of one isoform. */
  lemma UpdateStepAt(before: GeneRows, stored: map<string, StoredIsoform>, extracted: map<string, IsoformFacts>, init: seq<string>, last: string, n: string)
    requires IdsInjective(IdsOf(stored))
    requires before.isoforms == Refreshed(stored, extracted, init)
    requires last in stored && last !in init && last in extracted && n in stored
    ensures UpdateIsoformRow(before, extracted[last].flybaseId, extracted[last].refseqId, Str(stored[last].id)).isoforms[n]
      == Refreshed(stored, extracted, init + [last])[n]
  {
    assert n in init + [last] <==> n in init || n == last;
    if Str(before.isoforms[n].id) == Str(stored[last].id) {
      StrInjective(before.isoforms[n].id, stored[last].id);
      assert IdsOf(stored)[n] == IdsOf(stored)[last];
    }
  }

  /**
   * Running the updates of the second isoform loop rewrites the identifiers
   * of exactly the rows that needed it, and nothing else.
   */
  lemma {:induction false} UpdatesEffect(t: GeneRows, geneId: nat, order: seq<string>, extracted: map<string, IsoformFacts>, stored: map<string, StoredIsoform>)
    requires t.isoforms == stored
    requires IdsInjective(IdsOf(stored))
    requires Distinct(order) && forall n :: n in order ==> n in stored
    ensures var r := Run(t, geneId, UpdateQueries(order, extracted, stored));
      r.isoforms == Refreshed(stored, extracted, order)
      && r.aliases == t.aliases && r.aliasNext == t.aliasNext && r.isoformNext == t.isoformNext && r.imagePath == t.imagePath
  {
    if order == [] {
      assert Refreshed(stored, extracted, order) == stored;
    } else {
      var init := order[..|order| - 1];
      var last := order[|order| - 1];
      DistinctInit(order);
      UpdatesEffect(t, geneId, init, extracted, stored);
      RunUpdatesStep(t, geneId, init, last, extracted, stored);
      if last in extracted && NeedsUpdate(extracted[last], stored[last]) {
        UpdateStep(Run(t, geneId, UpdateQueries(init, extracted, stored)), stored, extracted, init, last);
      } else {
        RefreshedSkip(stored, extracted, init, last);
      }
    }
  }

  /** Dropping the last name of a distinct list leaves a distinct list without it. */
  lemma DistinctInit(order: seq<string>)
    requires Distinct(order) && order != []
    ensures var init := order[..|order| - 1];
      order == init + [order[|order| - 1]] && Distinct(init) && order[|order| - 1] !in init
      && forall n :: n in init ==> n in order
  {
  }

  /** A name without an update leaves the refreshed rows as they were. */
  lemma RefreshedSkip(stored: map<string, StoredIsoform>, extracted: map<string, IsoformFacts>, init: seq<string>, last: string)
    requires !(last in extracted && last in stored && NeedsUpdate(extracted[last], stored[last]))
    ensures Refreshed(stored, extracted, init + [last]) == Refreshed(stored, extracted, init)
  {
  }

  /** Running the updates for one more name runs its update, if it has one, on what the others left. */
  lemma RunUpdatesStep(t: GeneRows, geneId: nat, init: seq<string>, last: string,
                       extracted: map<string, IsoformFacts>, stored: map<string, StoredIsoform>)
    requires forall n :: n in init ==> n in stored
    requires last in stored
    ensures var before := Run(t, geneId, UpdateQueries(init, extracted, stored));
      Run(t, geneId, UpdateQueries(init + [last], extracted, stored)) ==
        if last in extracted && NeedsUpdate(extracted[last], stored[last])
        then UpdateIsoformRow(before, extracted[last].flybaseId, extracted[last].refseqId, Str(stored[last].id))
        else before
  {
    UpdateQueriesStep(init, last, extracted, stored);
    if last in extracted && NeedsUpdate(extracted[last], stored[last]) {
      var q := IsoformUpdateQuery(extracted[last].flybaseId, extracted[last].refseqId, stored[last].id);
      var before := Run(t, geneId, UpdateQueries(init, extracted, stored));
      RunAppend(t, geneId, UpdateQueries(init, extracted, stored), [q]);
      assert Run(before, geneId, [q]) == Exec(before, geneId, q);
      ExecUpdate(before, geneId, extracted[last].flybaseId, extracted[last].refseqId, stored[last].id);
    } else {
      assert UpdateQueries(init + [last], extracted, stored) == UpdateQueries(init, extracted, stored);
    }
  }

  // ---------------------------------------------------------------- whole comparisons

  /** The alias statements of one comparison: the INSERT, then the DELETE. */
  function AliasStatements(extracted: set<string>, gene: GeneRecord, insertOrder: seq<string>, deleteOrder: seq<string>): seq<Query>
    requires forall n :: n in deleteOrder ==> n in gene.aliases
  {
    AliasQueries(
      PairParams(NewNames(insertOrder, gene.aliases.Keys), gene.id),
      IdParams(StaleIds(deleteOrder, extracted, gene.aliases)))
  }

  /** The isoform statements of one comparison: the UPDATEs, then the INSERT, then the DELETE. */
  function IsoformStatements(extracted: map<string, IsoformFacts>, gene: GeneRecord, insertOrder: seq<string>, storedOrder: seq<string>): seq<Query>
    requires forall n :: n in insertOrder ==> n in extracted
    requires forall n :: n in storedOrder ==> n in gene.isoforms
  {
    UpdateQueries(storedOrder, extracted, gene.isoforms)
    + IsoformQueries(
        QuadParams(NewNames(insertOrder, gene.isoforms.Keys), extracted, gene.id),
        IdParams(StaleIds(storedOrder, extracted.Keys, IdsOf(gene.isoforms))))
  }

  lemma AliasDeleteNothing(t: GeneRows)
    ensures DeleteAliasRows(t, []) == t
  {
    assert DeleteAliasRows(t, []).aliases == t.aliases;
  }

  lemma IsoformDeleteNothing(t: GeneRows)
    ensures DeleteIsoformRows(t, []) == t
  {
    assert DeleteIsoformRows(t, []).isoforms == t.isoforms;
  }

  lemma RunOne(t: GeneRows, geneId: nat, q: Query)
    ensures Run(t, geneId, [q]) == Exec(t, geneId, q)
  {
    assert [q][..0] == [];
  }

  /** The alias INSERT and DELETE, when issued, act as one insert followed by one delete. */
  lemma AliasQueriesEffect(t: GeneRows, geneId: nat, toInsert: seq<string>, toDelete: seq<string>)
    requires |toInsert| % 2 == 0
    ensures Run(t, geneId, AliasQueries(toInsert, toDelete)) == DeleteAliasRows(InsertAliasRows(t, geneId, toInsert), toDelete)
  {
    AliasStatementsWellFormed(toInsert, toDelete);
    var ins := if |toInsert| / 2 > 0 then [AliasInsertQuery(toInsert)] else [];
    var del := if |toDelete| > 0 then [AliasDeleteQuery(toDelete)] else [];
    RunAppend(t, geneId, ins, del);
    var t1 := InsertAliasRows(t, geneId, toInsert);
    if ins != [] {
      RunOne(t, geneId, ins[0]);
    }
    if del != [] {
      RunOne(t1, geneId, del[0]);
    } else {
      AliasDeleteNothing(t1);
    }
  }

  /** The isoform INSERT and DELETE, when issued, act as one insert followed by one delete. */
  lemma IsoformQueriesEffect(t: GeneRows, geneId: nat, toInsert: seq<string>, toDelete: seq<string>)
    requires |toInsert| % 4 == 0
    ensures Run(t, geneId, IsoformQueries(toInsert, toDelete)) == DeleteIsoformRows(InsertIsoformRows(t, geneId, toInsert), toDelete)
  {
    IsoformStatementsWellFormed(toInsert, toDelete);
    var ins := if |toInsert| / 4 > 0 then [IsoformInsertQuery(toInsert)] else [];
    var del := if |toDelete| > 0 then [IsoformDeleteQuery(toDelete)] else [];
    RunAppend(t, geneId, ins, del);
    var t1 := InsertIsoformRows(t, geneId, toInsert);
    if ins != [] {
      RunOne(t, geneId, ins[0]);
      assert Exec(t, geneId, ins[0]) == t1;
    } else {
      assert |toInsert| < 4;
    }
    if del != [] {
      RunOne(t1, geneId, del[0]);
      assert Exec(t1, geneId, del[0]) == DeleteIsoformRows(t1, toDelete);
    } else {
      IsoformDeleteNothing(t1);
    }
  }

  /**
   * A DELETE with the corrected parameters removes a current row exactly
   * when it is a stored row whose name was not kept: stored rows keep their
   * ids, which are distinct, and rows inserted since have fresh ones.
   */
  lemma StaleSelection(cur: map<string, nat>, stored: map<string, nat>, keep: set<string>, order: seq<string>, next: nat, n: string)
    requires IdsInjective(stored) && IdsBelow(stored, next)
    requires Enumerates(order, stored.Keys)
    requires n in cur
    requires n in stored ==> cur[n] == stored[n]
    requires n !in stored ==> cur[n] >= next
    ensures Str(cur[n]) in IdParams(StaleIds(order, keep, stored)) <==> n in stored && n !in keep
  {
    var ids := StaleIds(order, keep, stored);
    StaleIdsMembers(order, keep, stored);
    IdParamsMembers(ids);
    assert Str(cur[n]) in IdParams(ids) <==> cur[n] in ids;
    if cur[n] in ids {
      var m :| m in order && m !in keep && stored[m] == cur[n];
      assert m in stored;
    }
    if n in stored && n !in keep {
      assert n in order;
    }
  }

  /**
   * After the alias statements of a comparison have run, the gene has
   * exactly the extracted aliases; those it already had keep their rows.
   * This relies on the stored ids being distinct and below the next
   * auto-increment id, as primary keys are.
   */
  lemma AliasesConverge(t: GeneRows, gene: GeneRecord, extracted: set<string>, insertOrder: seq<string>, deleteOrder: seq<string>)
    requires t.aliases == gene.aliases
    requires IdsInjective(gene.aliases) && IdsBelow(gene.aliases, t.aliasNext)
    requires Enumerates(insertOrder, extracted) && Enumerates(deleteOrder, gene.aliases.Keys)
    ensures var r := Run(t, gene.id, AliasStatements(extracted, gene, insertOrder, deleteOrder));
      r.aliases.Keys == extracted
      && (forall n :: n in extracted && n in gene.aliases ==> r.aliases[n] == gene.aliases[n])
      && r.isoforms == t.isoforms && r.isoformNext == t.isoformNext && r.imagePath == t.imagePath
  {
    var names := NewNames(insertOrder, gene.aliases.Keys);
    var params := IdParams(StaleIds(deleteOrder, extracted, gene.aliases));
    AliasQueriesEffect(t, gene.id, PairParams(names, gene.id), params);
    InsertAliasesEffect(t, gene.id, names);
    var t1 := InsertAliasRows(t, gene.id, PairParams(names, gene.id));
    DeleteStaleAliases(t1, gene.aliases, extracted, deleteOrder, t.aliasNext);
    var r := DeleteAliasRows(t1, params);
    ConvergedAliases(gene.aliases, t1.aliases, r.aliases, names, extracted);
  }

  /** The alias rows left by the delete, in terms of the rows the insert left. */
  lemma ConvergedAliases(stored: map<string, nat>, t1: map<string, nat>, r: map<string, nat>, names: seq<string>, extracted: set<string>)
    requires forall n :: n in names <==> n in extracted && n !in stored
    requires forall n :: n in t1 <==> n in stored || n in names
    requires forall n :: n in stored ==> t1[n] == stored[n]
    requires forall n :: n in r <==> n in t1 && (n in stored ==> n in extracted)
    requires forall n :: n in r ==> r[n] == t1[n]
    ensures r.Keys == extracted
    ensures forall n :: n in extracted && n in stored ==> r[n] == stored[n]
  {
  }

  /**
   * The DELETE of the stale alias ids removes exactly the stored rows whose
   * names were not kept; rows inserted by this comparison have fresh ids and
   * survive it.
   */
  lemma DeleteStaleAliases(t1: GeneRows, stored: map<string, nat>, keep: set<string>, order: seq<string>, next: nat)
    requires IdsInjective(stored) && IdsBelow(stored, next)
    requires Enumerates(order, stored.Keys)
    requires forall n :: n in stored ==> n in t1.aliases && t1.aliases[n] == stored[n]
    requires forall n :: n in t1.aliases && n !in stored ==> t1.aliases[n] >= next
    ensures var r := DeleteAliasRows(t1, IdParams(StaleIds(order, keep, stored)));
      (forall n :: n in r.aliases <==> n in t1.aliases && (n in stored ==> n in keep))
      && (forall n :: n in r.aliases ==> r.aliases[n] == t1.aliases[n])
      && r.isoforms == t1.isoforms && r.isoformNext == t1.isoformNext && r.imagePath == t1.imagePath
  {
    forall n | n in t1.aliases
      ensures Str(t1.aliases[n]) in IdParams(StaleIds(order, keep, stored)) <==> n in stored && n !in keep
    {
      StaleSelection(t1.aliases, stored, keep, order, next, n);
    }
  }

  /** The isoform statements act as the updates, then one insert, then one delete. */
  lemma IsoformStatementsEffect(t: GeneRows, gene: GeneRecord, extracted: map<string, IsoformFacts>, insertOrder: seq<string>, storedOrder: seq<string>)
    requires forall n :: n in insertOrder ==> n in extracted
    requires forall n :: n in storedOrder ==> n in gene.isoforms
    ensures Run(t, gene.id, IsoformStatements(extracted, gene, insertOrder, storedOrder)) ==
      DeleteIsoformRows(
        InsertIsoformRows(
          Run(t, gene.id, UpdateQueries(storedOrder, extracted, gene.isoforms)),
          gene.id,
          QuadParams(NewNames(insertOrder, gene.isoforms.Keys), extracted, gene.id)),
        IdParams(StaleIds(storedOrder, extracted.Keys, IdsOf(gene.isoforms))))
  {
    var inserts := QuadParams(NewNames(insertOrder, gene.isoforms.Keys), extracted, gene.id);
    var deletes := IdParams(StaleIds(storedOrder, extracted.Keys, IdsOf(gene.isoforms)));
    var updates := UpdateQueries(storedOrder, extracted, gene.isoforms);
    assert IsoformStatements(extracted, gene, insertOrder, storedOrder) == updates + IsoformQueries(inserts, deletes);
    RunAppend(t, gene.id, updates, IsoformQueries(inserts, deletes));
    IsoformQueriesEffect(Run(t, gene.id, updates), gene.id, inserts, deletes);
  }

  /** The isoform rows once the updates and the insert have run, before the delete. */
  lemma RowsBeforeDelete(t: GeneRows, gene: GeneRecord, extracted: map<string, IsoformFacts>, insertOrder: seq<string>, storedOrder: seq<string>)
    requires t.isoforms == gene.isoforms
    requires IdsInjective(IdsOf(gene.isoforms))
    requires Enumerates(insertOrder, extracted.Keys) && Enumerates(storedOrder, gene.isoforms.Keys)
    ensures var t1 := InsertIsoformRows(
        Run(t, gene.id, UpdateQueries(storedOrder, extracted, gene.isoforms)),
        gene.id,
        QuadParams(NewNames(insertOrder, gene.isoforms.Keys), extracted, gene.id));
      (forall n :: n in t1.isoforms <==> n in gene.isoforms || n in extracted)
      && (forall n :: n in gene.isoforms ==> t1.isoforms[n] == Refreshed(gene.isoforms, extracted, storedOrder)[n])
      && (forall n :: n in gene.isoforms ==> t1.isoforms[n].id == gene.isoforms[n].id)
      && (forall n :: n in t1.isoforms && n !in gene.isoforms ==>
            t1.isoforms[n].id >= t.isoformNext && t1.isoforms[n].name == n
            && t1.isoforms[n].flybaseId == extracted[n].flybaseId && t1.isoforms[n].refseqId == extracted[n].refseqId)
      && t1.aliases == t.aliases && t1.imagePath == t.imagePath
  {
    var names := NewNames(insertOrder, gene.isoforms.Keys);
    UpdatesEffect(t, gene.id, storedOrder, extracted, gene.isoforms);
    var t0 := Run(t, gene.id, UpdateQueries(storedOrder, extracted, gene.isoforms));
    InsertIsoformsEffect(t0, gene.id, names, extracted);
  }

  /**
   * The DELETE of the stale isoform ids removes exactly the stored rows whose
   * names were not kept; rows inserted by this comparison have fresh ids and
   * survive it.
   */
  lemma DeleteStaleIsoforms(t1: GeneRows, stored: map<string, StoredIsoform>, keep: set<string>, order: seq<string>, next: nat)
    requires IdsInjective(IdsOf(stored)) && IdsBelow(IdsOf(stored), next)
    requires Enumerates(order, stored.Keys)
    requires forall n :: n in stored ==> n in t1.isoforms && t1.isoforms[n].id == stored[n].id
    requires forall n :: n in t1.isoforms && n !in stored ==> t1.isoforms[n].id >= next
    ensures var r := DeleteIsoformRows(t1, IdParams(StaleIds(order, keep, IdsOf(stored))));
      (forall n :: n in r.isoforms <==> n in t1.isoforms && (n in stored ==> n in keep))
      && (forall n :: n in r.isoforms ==> r.isoforms[n] == t1.isoforms[n])
      && r.aliases == t1.aliases && r.imagePath == t1.imagePath
  {
    var cur := IdsOf(t1.isoforms);
    forall n | n in t1.isoforms
      ensures Str(t1.isoforms[n].id) in IdParams(StaleIds(order, keep, IdsOf(stored))) <==> n in stored && n !in keep
    {
      StaleSelection(cur, IdsOf(stored), keep, order, next, n);
    }
  }

  /** The isoform rows left by the delete, in terms of the rows the updates and the insert left. */
  lemma ConvergedRows(t1: map<string, StoredIsoform>, r: map<string, StoredIsoform>, stored: map<string, StoredIsoform>,
                      extracted: map<string, IsoformFacts>, done: seq<string>)
    requires forall n :: n in stored ==> stored[n].name == n
    requires forall n :: n in extracted ==> extracted[n].name == n
    requires forall n :: n in done <==> n in stored
    requires forall n :: n in t1 <==> n in stored || n in extracted
    requires forall n :: n in stored ==> t1[n] == Refreshed(stored, extracted, done)[n]
    requires forall n :: n in t1 && n !in stored ==>
      t1[n].name == n && t1[n].flybaseId == extracted[n].flybaseId && t1[n].refseqId == extracted[n].refseqId
    requires forall n :: n in r <==> n in t1 && (n in stored ==> n in extracted)
    requires forall n :: n in r ==> r[n] == t1[n]
    ensures r.Keys == extracted.Keys
    ensures forall n :: n in extracted ==>
      r[n].name == n && r[n].flybaseId == extracted[n].flybaseId && r[n].refseqId == extracted[n].refseqId
    ensures forall n :: n in extracted && n in stored ==> r[n].id == stored[n].id
  {
    forall n | n in extracted
      ensures r[n].name == n && r[n].flybaseId == extracted[n].flybaseId && r[n].refseqId == extracted[n].refseqId
    {
      if n in stored {
        NeedsUpdateIffFieldsDiffer(extracted[n], stored[n]);
      }
    }
  }

  /**
   * After the isoform statements of a comparison have run, the gene has
   * exactly the extracted isoforms, each carrying its extracted identifiers;
   * those it already had keep their row ids. This relies on every row being
   * filed under its own name, as the loader and the extraction both do.
   */
  lemma IsoformsConverge(t: GeneRows, gene: GeneRecord, extracted: map<string, IsoformFacts>, insertOrder: seq<string>, storedOrder: seq<string>)
    requires t.isoforms == gene.isoforms
    requires IdsInjective(IdsOf(gene.isoforms)) && IdsBelow(IdsOf(gene.isoforms), t.isoformNext)
    requires forall n :: n in gene.isoforms ==> gene.isoforms[n].name == n
    requires forall n :: n in extracted ==> extracted[n].name == n
    requires Enumerates(insertOrder, extracted.Keys) && Enumerates(storedOrder, gene.isoforms.Keys)
    ensures var r := Run(t, gene.id, IsoformStatements(extracted, gene, insertOrder, storedOrder));
      r.isoforms.Keys == extracted.Keys
      && (forall n :: n in extracted ==>
            r.isoforms[n].name == n && r.isoforms[n].flybaseId == extracted[n].flybaseId
            && r.isoforms[n].refseqId == extracted[n].refseqId)
      && (forall n :: n in extracted && n in gene.isoforms ==> r.isoforms[n].id == gene.isoforms[n].id)
      && r.aliases == t.aliases && r.imagePath == t.imagePath
  {
    var stored := gene.isoforms;
    IsoformStatementsEffect(t, gene, extracted, insertOrder, storedOrder);
    RowsBeforeDelete(t, gene, extracted, insertOrder, storedOrder);
    var t1 := InsertIsoformRows(
        Run(t, gene.id, UpdateQueries(storedOrder, extracted, stored)),
        gene.id,
        QuadParams(NewNames(insertOrder, stored.Keys), extracted, gene.id));
    DeleteStaleIsoforms(t1, stored, extracted.Keys, storedOrder, t.isoformNext);
    var r := DeleteIsoformRows(t1, IdParams(StaleIds(storedOrder, extracted.Keys, IdsOf(stored))));
    ConvergedRows(t1.isoforms, r.isoforms, stored, extracted, storedOrder);
  }

  /** The gene as the next comparison loads it from the rows. */
  function Reloaded(gene: GeneRecord, t: GeneRows): GeneRecord {
    gene.(aliases := t.aliases, isoforms := t.isoforms, imagePath := t.imagePath)
  }

  /**
   * The statements of one comparison (the alias INSERT and DELETE, the
   * isoform UPDATEs, INSERT and DELETE) bring the gene's rows in line with
   * what was extracted, whatever order the dicts were walked in. Comparing
   * the same extraction again then finds nothing to do: the comparison is
   * idempotent.
   */
  lemma GeneConverges(t: GeneRows, gene: GeneRecord, aliases: set<string>, isoforms: map<string, IsoformFacts>,
                      aliasInsertOrder: seq<string>, aliasDeleteOrder: seq<string>,
                      isoformInsertOrder: seq<string>, isoformStoredOrder: seq<string>)
    requires t.aliases == gene.aliases && t.isoforms == gene.isoforms
    requires IdsInjective(gene.aliases) && IdsBelow(gene.aliases, t.aliasNext)
    requires IdsInjective(IdsOf(gene.isoforms)) && IdsBelow(IdsOf(gene.isoforms), t.isoformNext)
    requires forall n :: n in gene.isoforms ==> gene.isoforms[n].name == n
    requires forall n :: n in isoforms ==> isoforms[n].name == n
    requires Enumerates(aliasInsertOrder, aliases) && Enumerates(aliasDeleteOrder, gene.aliases.Keys)
    requires Enumerates(isoformInsertOrder, isoforms.Keys) && Enumerates(isoformStoredOrder, gene.isoforms.Keys)
    ensures var r := Run(t, gene.id,
        AliasStatements(aliases, gene, aliasInsertOrder, aliasDeleteOrder)
        + IsoformStatements(isoforms, gene, isoformInsertOrder, isoformStoredOrder));
      r.aliases.Keys == aliases && r.isoforms.Keys == isoforms.Keys && r.imagePath == t.imagePath
      && PlanFor(aliases, isoforms, Reloaded(gene, r)) == Plan({}, {}, {}, {}, {})
  {
    var a := AliasStatements(aliases, gene, aliasInsertOrder, aliasDeleteOrder);
    var i := IsoformStatements(isoforms, gene, isoformInsertOrder, isoformStoredOrder);
    RunAppend(t, gene.id, a, i);
    AliasesConverge(t, gene, aliases, aliasInsertOrder, aliasDeleteOrder);
    var t1 := Run(t, gene.id, a);
    IsoformsConverge(t1, gene, isoforms, isoformInsertOrder, isoformStoredOrder);
    NothingLeftToDo(gene, aliases, isoforms, Run(t1, gene.id, i));
  }

  /** Rows that hold exactly the extracted aliases and isoforms leave nothing to plan. */
  lemma NothingLeftToDo(gene: GeneRecord, aliases: set<string>, isoforms: map<string, IsoformFacts>, r: GeneRows)
    requires r.aliases.Keys == aliases && r.isoforms.Keys == isoforms.Keys
    requires forall n :: n in isoforms ==>
      r.isoforms[n].flybaseId == isoforms[n].flybaseId && r.isoforms[n].refseqId == isoforms[n].refseqId
    ensures PlanFor(aliases, isoforms, Reloaded(gene, r)) == Plan({}, {}, {}, {}, {})
  {
    var plan := PlanFor(aliases, isoforms, Reloaded(gene, r));
    assert plan.isoformUpdates == {} by {
      forall n | n in isoforms && n in r.isoforms
        ensures !FieldsDiffer(isoforms[n], r.isoforms[n])
      {
      }
    }
  }

  // ---------------------------------------------------------------- the delete parameters as written

  /**
   * With the parameters built as lines 133 and 168 build them, every
   * parameter is a single digit, so no row whose id has two digits or more
   * is ever deleted, stale or not.
   */
  lemma AsWrittenDeleteKeepsMultiDigitIds(t: GeneRows, geneId: nat, ids: seq<nat>)
    ensures var r := Run(t, geneId, AliasQueries([], DigitParams(ids)));
      forall n :: n in t.aliases && t.aliases[n] >= 10 ==> n in r.aliases && r.aliases[n] == t.aliases[n]
  {
    AliasQueriesEffect(t, geneId, [], DigitParams(ids));
  }

  /** The renderings of the two example ids, split into digits as written and whole as corrected. */
  lemma ExampleRendering()
    ensures Str(42) == "42" && Str(4) == "4"
    ensures DigitParams([42]) == ["4", "2"] && IdParams([42]) == ["42"]
  {
    assert Str(42) == Str(4) + [DigitChar(2)];
    assert [42][..0] == [];
  }

  /** Of the example gene's aliases, only "a" (row 42) is stale. */
  lemma ExampleStaleIds()
    ensures StaleIds(["a", "b"], {"b"}, map["a" := 42, "b" := 4]) == [42]
  {
    var stored := map["a" := 42, "b" := 4];
    StaleIdsStep([], "a", {"b"}, stored);
    assert [] + ["a"] == ["a"];
    assert ["a"] + ["b"] == ["a", "b"];
    StaleIdsStep(["a"], "b", {"b"}, stored);
  }

  /**
   * A gene with aliases "a" (row 42) and "b" (row 4) whose report now lists
   * only "b": as written, the DELETE gets the parameters "4" and "2", keeps
   * the stale "a" and removes "b", which is still current. With one
   * parameter per id the DELETE removes "a" only.
   */
  lemma AsWrittenDeleteRemovesWrongAlias()
    ensures var stored := map["a" := 42, "b" := 4];
      var t := GeneRows(stored, 43, map[], 1, "");
      var ids := StaleIds(["a", "b"], {"b"}, stored);
      Run(t, 7, AliasQueries([], DigitParams(ids))).aliases == map["a" := 42]
      && Run(t, 7, AliasQueries([], IdParams(ids))).aliases == map["b" := 4]
  {
    var stored := map["a" := 42, "b" := 4];
    var t := GeneRows(stored, 43, map[], 1, "");
    ExampleStaleIds();
    ExampleRendering();
    AliasQueriesEffect(t, 7, [], ["4", "2"]);
    AliasQueriesEffect(t, 7, [], ["42"]);
    ExampleDeletes();
  }

  /** The two DELETEs on the example rows. */
  lemma ExampleDeletes()
    ensures var t := GeneRows(map["a" := 42, "b" := 4], 43, map[], 1, "");
      DeleteAliasRows(t, ["4", "2"]).aliases == map["a" := 42]
      && DeleteAliasRows(t, ["42"]).aliases == map["b" := 4]
  {
    ExampleRendering();
    var t := GeneRows(map["a" := 42, "b" := 4], 43, map[], 1, "");
    assert DeleteAliasRows(t, ["4", "2"]).aliases == map["a" := 42];
  }
}
