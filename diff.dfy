/**
 * The comparison of what FlyBase reports for a gene with what the database
 * holds for it (`compareGeneFlybaseInfo`, lines 126-173): which alias rows to
 * insert and delete, which isoform rows to insert, delete and update, and
 * the parameter lists the source accumulates for them.
 *
 * The source walks Python 2 dicts, whose key order is unspecified. The
 * methods below therefore pick keys in an arbitrary order and report the
 * order they used as a ghost out-parameter; the specification functions are
 * parameterised by that order, and the plan (`PlanFor`) does not depend on it.
 */
module Diff {
  import opened PyStr
  import opened Extraction
  import opened Sql

  /** An isoform row as loaded from the `isoforms` table. */
  datatype StoredIsoform = StoredIsoform(id: nat, name: string, flybaseId: string, refseqId: string)

  /** `geneDBInfo`: a `transcription_factors` row with its aliases (name to row id) and isoforms (name to row). */
  datatype GeneRecord = GeneRecord(
    id: nat,
    name: string,
    flybaseId: string,
    cgId: string,
    imagePath: string,
    aliases: map<string, nat>,
    isoforms: map<string, StoredIsoform>)

  predicate Distinct<T(==)>(s: seq<T>) {
    forall i, j :: 0 <= i < j < |s| ==> s[i] != s[j]
  }

  /** `order` lists every element of `s` exactly once: one possible iteration order of a dict's keys. */
  ghost predicate Enumerates(order: seq<string>, s: set<string>) {
    Distinct(order) && forall x :: x in order <==> x in s
  }

  /** The row id of every stored isoform, by name. */
  function IdsOf(rows: map<string, StoredIsoform>): (ids: map<string, nat>)
    ensures ids.Keys == rows.Keys
    ensures forall n :: n in rows ==> ids[n] == rows[n].id
  {
    map n | n in rows :: rows[n].id
  }

  // ---------------------------------------------------------------- specification of the accumulators

  /** The names, in iteration order, that the first loop finds missing from the database. */
  function NewNames(order: seq<string>, stored: set<string>): (r: seq<string>)
    ensures forall n :: n in r <==> n in order && n !in stored
    ensures Distinct(order) ==> Distinct(r)
    ensures |r| <= |order|
  {
    if order == [] then []
    else
      var init := order[..|order| - 1];
      var last := order[|order| - 1];
      var r := NewNames(init, stored);
      assert forall n :: n in init ==> n in order;
      assert Distinct(order) ==> last !in init;
      r + (if last in stored then [] else [last])
  }

  /** `aliasesToInsert`: a `(name, gene id)` pair of parameters per new alias. */
  function PairParams(names: seq<string>, geneId: nat): (r: seq<string>)
    ensures |r| == 2 * |names| && |r| % 2 == 0
  {
    if names == [] then []
    else
      var n := names[|names| - 1];
      PairParams(names[..|names| - 1], geneId) + [n, Str(geneId)]
  }

  /** The `k`-th pair is the `k`-th name and the gene id. */
  lemma {:induction false} PairParamsLayout(names: seq<string>, geneId: nat)
    ensures var r := PairParams(names, geneId);
      forall k {:trigger names[k]} :: 0 <= k < |names| ==> r[2 * k] == names[k] && r[2 * k + 1] == Str(geneId)
  {
    if names != [] {
      var init := names[..|names| - 1];
      var r0 := PairParams(init, geneId);
      var r := PairParams(names, geneId);
      assert r == r0 + [names[|names| - 1], Str(geneId)];
      PairParamsLayout(init, geneId);
      forall k | 0 <= k < |names|
        ensures r[2 * k] == names[k] && r[2 * k + 1] == Str(geneId)
      {
        if k < |init| {
          assert names[k] == init[k];
          assert r[2 * k] == r0[2 * k] && r[2 * k + 1] == r0[2 * k + 1];
        }
      }
    }
  }

  /** The ids of the stored rows, in iteration order, whose names were not extracted. */
  function StaleIds(order: seq<string>, keep: set<string>, ids: map<string, nat>): (r: seq<nat>)
    requires forall n :: n in order ==> n in ids
    ensures |r| <= |order|
  {
    if order == [] then []
    else
      var last := order[|order| - 1];
      StaleIds(order[..|order| - 1], keep, ids) + (if last in keep then [] else [ids[last]])
  }

  /** The stale ids are exactly the ids of the listed rows whose names are not kept. */
  lemma {:induction false} StaleIdsMembers(order: seq<string>, keep: set<string>, ids: map<string, nat>)
    requires forall n :: n in order ==> n in ids
    ensures forall x :: x in StaleIds(order, keep, ids) <==> exists n :: n in order && n !in keep && ids[n] == x
  {
    if order != [] {
      var init := order[..|order| - 1];
      var last := order[|order| - 1];
      assert forall n :: n in order <==> n in init || n == last;
      StaleIdsMembers(init, keep, ids);
    }
  }

  /** One parameter per stale row: its id as a string (the corrected accumulator). */
  function IdParams(ids: seq<nat>): (r: seq<string>)
    ensures |r| == |ids|
  {
    seq(|ids|, k requires 0 <= k < |ids| => Str(ids[k]))
  }

  /** The corrected parameters name exactly the given ids. */
  lemma IdParamsMembers(ids: seq<nat>)
    ensures forall x: nat {:trigger Str(x)} :: Str(x) in IdParams(ids) <==> x in ids
  {
    var r := IdParams(ids);
    forall x: nat ensures Str(x) in r <==> x in ids {
      if Str(x) in r {
        var k :| 0 <= k < |r| && r[k] == Str(x);
        StrInjective(ids[k], x);
      }
      if x in ids {
        var k :| 0 <= k < |ids| && ids[k] == x;
        assert r[k] == Str(x);
      }
    }
  }

  lemma IdParamsStep(ids: seq<nat>, x: nat)
    ensures IdParams(ids + [x]) == IdParams(ids) + [Str(x)]
  {
  }

  /**
   * `list.extend(str(id))` as written at lines 133 and 168: every DIGIT of
   * each id becomes a parameter. Glued back together, the digits spell the
   * ids one after the other.
   */
  function DigitParams(ids: seq<nat>): (r: seq<string>)
    ensures forall k :: 0 <= k < |r| ==> |r[k]| == 1
    ensures Concat(r) == Concat(IdParams(ids))
  {
    if ids == [] then []
    else
      var init := ids[..|ids| - 1];
      var last := ids[|ids| - 1];
      var r0 := DigitParams(init);
      ConcatAppend(r0, Chars(Str(last)));
      ConcatChars(Str(last));
      assert IdParams(ids)[..|ids| - 1] == IdParams(init);
      r0 + Chars(Str(last))
  }

  /** `isoformsToInsert`: a `(name, gene id, flybase id, refseq id)` quadruple per new isoform. */
  function QuadParams(names: seq<string>, extracted: map<string, IsoformFacts>, geneId: nat): (r: seq<string>)
    requires forall n :: n in names ==> n in extracted
    ensures |r| == 4 * |names| && |r| % 4 == 0
  {
    if names == [] then []
    else
      var n := names[|names| - 1];
      QuadParams(names[..|names| - 1], extracted, geneId) + [n, Str(geneId), extracted[n].flybaseId, extracted[n].refseqId]
  }

  /** The `k`-th quadruple is the `k`-th name, the gene id and that name's two extracted identifiers. */
  lemma {:induction false} QuadParamsLayout(names: seq<string>, extracted: map<string, IsoformFacts>, geneId: nat)
    requires forall n :: n in names ==> n in extracted
    ensures var r := QuadParams(names, extracted, geneId);
      forall k {:trigger names[k]} :: 0 <= k < |names| ==>
        r[4 * k] == names[k] && r[4 * k + 1] == Str(geneId)
        && r[4 * k + 2] == extracted[names[k]].flybaseId && r[4 * k + 3] == extracted[names[k]].refseqId
  {
    if names != [] {
      var init := names[..|names| - 1];
      var n := names[|names| - 1];
      assert forall m :: m in init ==> m in names;
      var r0 := QuadParams(init, extracted, geneId);
      var r := QuadParams(names, extracted, geneId);
      assert r == r0 + [n, Str(geneId), extracted[n].flybaseId, extracted[n].refseqId];
      QuadParamsLayout(init, extracted, geneId);
      forall k | 0 <= k < |names|
        ensures r[4 * k] == names[k] && r[4 * k + 1] == Str(geneId)
          && r[4 * k + 2] == extracted[names[k]].flybaseId && r[4 * k + 3] == extracted[names[k]].refseqId
      {
        if k < |init| {
          assert names[k] == init[k];
          assert r[4 * k] == r0[4 * k] && r[4 * k + 1] == r0[4 * k + 1];
          assert r[4 * k + 2] == r0[4 * k + 2] && r[4 * k + 3] == r0[4 * k + 3];
        }
      }
    }
  }

  /**
   * The comparison at line 171: the extracted dict, with the stored id copied
   * in (line 170), differs from the stored row.
   */
  predicate NeedsUpdate(facts: IsoformFacts, row: StoredIsoform) {
    StoredIsoform(row.id, facts.name, facts.flybaseId, facts.refseqId) != row
  }

  /** The updates the second isoform loop issues, in iteration order. */
  function UpdateQueries(order: seq<string>, extracted: map<string, IsoformFacts>, stored: map<string, StoredIsoform>): (r: seq<Query>)
    requires forall n :: n in order ==> n in stored
    ensures |r| <= |order|
  {
    if order == [] then []
    else
      var init := order[..|order| - 1];
      var n := order[|order| - 1];
      assert forall m :: m in init ==> m in order;
      UpdateQueries(init, extracted, stored)
      + (if n in extracted && NeedsUpdate(extracted[n], stored[n])
         then [IsoformUpdateQuery(extracted[n].flybaseId, extracted[n].refseqId, stored[n].id)]
         else [])
  }

  /** Every issued update is for a listed isoform that needs one, with its extracted identifiers and stored id. */
  lemma {:induction false} UpdateQueriesOrigin(order: seq<string>, extracted: map<string, IsoformFacts>, stored: map<string, StoredIsoform>, q: Query)
    requires forall n :: n in order ==> n in stored
    requires q in UpdateQueries(order, extracted, stored)
    ensures exists n :: (n in order && n in extracted && NeedsUpdate(extracted[n], stored[n])
                         && q == IsoformUpdateQuery(extracted[n].flybaseId, extracted[n].refseqId, stored[n].id))
  {
    var init := order[..|order| - 1];
    var n := order[|order| - 1];
    assert forall m :: m in init ==> m in order;
    if q !in UpdateQueries(init, extracted, stored) {
      assert n in order;
    } else {
      UpdateQueriesOrigin(init, extracted, stored, q);
    }
  }

  // Appending one key to the iteration order appends at most one entry to each accumulator.

  lemma NewNamesStep(order: seq<string>, x: string, stored: set<string>)
    ensures NewNames(order + [x], stored) == NewNames(order, stored) + (if x in stored then [] else [x])
  {
    assert (order + [x])[..|order|] == order;
  }

  lemma PairParamsStep(names: seq<string>, x: string, geneId: nat)
    ensures PairParams(names + [x], geneId) == PairParams(names, geneId) + [x, Str(geneId)]
  {
    assert (names + [x])[..|names|] == names;
  }

  lemma QuadParamsStep(names: seq<string>, x: string, extracted: map<string, IsoformFacts>, geneId: nat)
    requires forall n :: n in names ==> n in extracted
    requires x in extracted
    ensures QuadParams(names + [x], extracted, geneId) ==
      QuadParams(names, extracted, geneId) + [x, Str(geneId), extracted[x].flybaseId, extracted[x].refseqId]
  {
    assert (names + [x])[..|names|] == names;
  }

  lemma StaleIdsStep(order: seq<string>, x: string, keep: set<string>, ids: map<string, nat>)
    requires forall n :: n in order ==> n in ids
    requires x in ids
    ensures StaleIds(order + [x], keep, ids) == StaleIds(order, keep, ids) + (if x in keep then [] else [ids[x]])
  {
    assert (order + [x])[..|order|] == order;
  }

  lemma UpdateQueriesStep(order: seq<string>, x: string, extracted: map<string, IsoformFacts>, stored: map<string, StoredIsoform>)
    requires forall n :: n in order ==> n in stored
    requires x in stored
    ensures UpdateQueries(order + [x], extracted, stored) == UpdateQueries(order, extracted, stored)
      + (if x in extracted && NeedsUpdate(extracted[x], stored[x])
         then [IsoformUpdateQuery(extracted[x].flybaseId, extracted[x].refseqId, stored[x].id)]
         else [])
  {
    assert (order + [x])[..|order|] == order;
  }

  // ---------------------------------------------------------------- the plan

  /** What the comparison should do, independent of iteration order: names to insert, delete and update. */
  datatype Plan = Plan(
    aliasInserts: set<string>,
    aliasDeletes: set<string>,
    isoformInserts: set<string>,
    isoformDeletes: set<string>,
    isoformUpdates: set<string>)

  /** An isoform is refreshed when one of its two external identifiers changed. */
  predicate FieldsDiffer(facts: IsoformFacts, row: StoredIsoform) {
    facts.flybaseId != row.flybaseId || facts.refseqId != row.refseqId
  }

  function PlanFor(aliases: set<string>, isoforms: map<string, IsoformFacts>, gene: GeneRecord): Plan {
    Plan(
      aliases - gene.aliases.Keys,
      gene.aliases.Keys - aliases,
      isoforms.Keys - gene.isoforms.Keys,
      gene.isoforms.Keys - isoforms.Keys,
      set n | n in isoforms && n in gene.isoforms && FieldsDiffer(isoforms[n], gene.isoforms[n]))
  }

  /**
   * Comparing whole dicts, as the source does, is comparing the two
   * identifiers whenever the stored row carries the name it is filed under
   * and the extracted dict does too.
   */
  lemma NeedsUpdateIffFieldsDiffer(facts: IsoformFacts, row: StoredIsoform)
    requires facts.name == row.name
    ensures NeedsUpdate(facts, row) <==> FieldsDiffer(facts, row)
  {
  }

  /** A renamed isoform would be rewritten even if its identifiers are unchanged. */
  lemma NeedsUpdateOnNameMismatch(facts: IsoformFacts, row: StoredIsoform)
    requires facts.name != row.name
    ensures NeedsUpdate(facts, row)
  {
  }

  /** Taking one more key from the ones still pending keeps the walked keys an enumeration of the rest. */
  lemma WalkStep(order: seq<string>, pending: set<string>, all: set<string>, x: string)
    requires x in pending && pending <= all
    requires Distinct(order) && forall n :: n in order <==> n in all && n !in pending
    ensures Distinct(order + [x])
    ensures forall n :: n in order + [x] <==> n in all && n !in pending - {x}
    ensures pending - {x} <= all && |pending - {x}| < |pending|
  {
  }

  // ---------------------------------------------------------------- the loops

  /** Lines 128-130: a `(name, gene id)` pair for every extracted alias the database lacks. */
  method NewAliasParams(extracted: set<string>, gene: GeneRecord) returns (toInsert: seq<string>, ghost order: seq<string>)
    ensures Enumerates(order, extracted)
    ensures toInsert == PairParams(NewNames(order, gene.aliases.Keys), gene.id)
  {
    toInsert, order := [], [];
    ghost var names: seq<string> := [];
    var pending := extracted;
    while pending != {}
      invariant pending <= extracted
      invariant Distinct(order)
      invariant forall n :: n in order <==> n in extracted && n !in pending
      invariant names == NewNames(order, gene.aliases.Keys)
      invariant toInsert == PairParams(names, gene.id)
      decreases |pending|
    {
      var aliasName :| aliasName in pending;
      WalkStep(order, pending, extracted, aliasName);
      NewNamesStep(order, aliasName, gene.aliases.Keys);
      if aliasName !in gene.aliases {
        PairParamsStep(names, aliasName, gene.id);
        toInsert := toInsert + [aliasName, Str(gene.id)];
        names := names + [aliasName];
      }
      order := order + [aliasName];
      pending := pending - {aliasName};
    }
  }

  /**
   * Lines 131-133: the id of every stored alias that was not extracted, one
   * parameter per id (the corrected form of line 133, see `DigitParams`).
   */
  method StaleAliasParams(extracted: set<string>, gene: GeneRecord) returns (toDelete: seq<string>, ghost order: seq<string>)
    ensures Enumerates(order, gene.aliases.Keys)
    ensures toDelete == IdParams(StaleIds(order, extracted, gene.aliases))
  {
    toDelete, order := [], [];
    ghost var ids: seq<nat> := [];
    var pending := gene.aliases.Keys;
    while pending != {}
      invariant pending <= gene.aliases.Keys
      invariant Distinct(order)
      invariant forall n :: n in order <==> n in gene.aliases && n !in pending
      invariant ids == StaleIds(order, extracted, gene.aliases)
      invariant toDelete == IdParams(ids)
      decreases |pending|
    {
      var aliasName :| aliasName in pending;
      WalkStep(order, pending, gene.aliases.Keys, aliasName);
      StaleIdsStep(order, aliasName, extracted, gene.aliases);
      if aliasName !in extracted {
        IdParamsStep(ids, gene.aliases[aliasName]);
        toDelete := toDelete + [Str(gene.aliases[aliasName])];
        ids := ids + [gene.aliases[aliasName]];
      } else {
        assert StaleIds(order + [aliasName], extracted, gene.aliases) == ids;
      }
      order := order + [aliasName];
      pending := pending - {aliasName};
    }
  }

  /** Lines 163-165: a `(name, gene id, flybase id, refseq id)` quadruple for every extracted isoform the database lacks. */
  method NewIsoformParams(extracted: map<string, IsoformFacts>, gene: GeneRecord) returns (toInsert: seq<string>, ghost order: seq<string>)
    ensures Enumerates(order, extracted.Keys)
    ensures toInsert == QuadParams(NewNames(order, gene.isoforms.Keys), extracted, gene.id)
  {
    toInsert, order := [], [];
    ghost var names: seq<string> := [];
    var pending := extracted.Keys;
    while pending != {}
      invariant pending <= extracted.Keys
      invariant Distinct(order)
      invariant forall n :: n in order <==> n in extracted && n !in pending
      invariant names == NewNames(order, gene.isoforms.Keys)
      invariant toInsert == QuadParams(names, extracted, gene.id)
      decreases |pending|
    {
      var isoformName :| isoformName in pending;
      WalkStep(order, pending, extracted.Keys, isoformName);
      NewNamesStep(order, isoformName, gene.isoforms.Keys);
      if isoformName !in gene.isoforms {
        var isoform := extracted[isoformName];
        QuadParamsStep(names, isoformName, extracted, gene.id);
        toInsert := toInsert + [isoformName, Str(gene.id), isoform.flybaseId, isoform.refseqId];
        names := names + [isoformName];
      }
      order := order + [isoformName];
      pending := pending - {isoformName};
    }
  }

  /**
   * Lines 166-173: the loop over the stored isoforms. It collects the id of
   * every one that was not extracted (one parameter per id, corrected as for
   * aliases) and issues an UPDATE, on the spot, for every one whose
   * extracted dict, once the stored id is copied into it, differs from the
   * stored row.
   */
  method ReconcileStoredIsoforms(extracted: map<string, IsoformFacts>, gene: GeneRecord, db: DbConn)
    returns (toDelete: seq<string>, ghost order: seq<string>)
    modifies db
    ensures Enumerates(order, gene.isoforms.Keys)
    ensures toDelete == IdParams(StaleIds(order, extracted.Keys, IdsOf(gene.isoforms)))
    ensures db.trace == old(db.trace) + UpdateQueries(order, extracted, gene.isoforms)
  {
    toDelete, order := [], [];
    ghost var ids: seq<nat> := [];
    ghost var idsOf := IdsOf(gene.isoforms);
    var pending := gene.isoforms.Keys;
    while pending != {}
      invariant pending <= gene.isoforms.Keys
      invariant Distinct(order)
      invariant forall n :: n in order <==> n in gene.isoforms && n !in pending
      invariant ids == StaleIds(order, extracted.Keys, idsOf)
      invariant toDelete == IdParams(ids)
      invariant db.trace == old(db.trace) + UpdateQueries(order, extracted, gene.isoforms)
      decreases |pending|
    {
      var isoformName :| isoformName in pending;
      WalkStep(order, pending, gene.isoforms.Keys, isoformName);
      var row := gene.isoforms[isoformName];
      ReconcileStep(order, isoformName, extracted, gene.isoforms);
      if isoformName !in extracted {
        IdParamsStep(ids, row.id);
        toDelete := toDelete + [Str(row.id)];
        ids := ids + [row.id];
      } else {
        RefreshIsoform(db, extracted[isoformName], row);
      }
      order := order + [isoformName];
      pending := pending - {isoformName};
    }
  }

  /** One more stored isoform walked: it adds its id to the stale ones, or its update if it changed. */
  lemma ReconcileStep(order: seq<string>, x: string, extracted: map<string, IsoformFacts>, stored: map<string, StoredIsoform>)
    requires forall n :: n in order ==> n in stored
    requires x in stored
    ensures x !in extracted ==>
      StaleIds(order + [x], extracted.Keys, IdsOf(stored)) == StaleIds(order, extracted.Keys, IdsOf(stored)) + [stored[x].id]
      && UpdateQueries(order + [x], extracted, stored) == UpdateQueries(order, extracted, stored)
    ensures x in extracted ==>
      StaleIds(order + [x], extracted.Keys, IdsOf(stored)) == StaleIds(order, extracted.Keys, IdsOf(stored))
      && UpdateQueries(order + [x], extracted, stored) == UpdateQueries(order, extracted, stored)
        + if NeedsUpdate(extracted[x], stored[x]) then [IsoformUpdateQuery(extracted[x].flybaseId, extracted[x].refseqId, stored[x].id)] else []
  {
    StaleIdsStep(order, x, extracted.Keys, IdsOf(stored));
    UpdateQueriesStep(order, x, extracted, stored);
    assert UpdateQueries(order, extracted, stored) + [] == UpdateQueries(order, extracted, stored);
    assert StaleIds(order, extracted.Keys, IdsOf(stored)) + [] == StaleIds(order, extracted.Keys, IdsOf(stored));
  }

  /**
   * Lines 170-173 for one isoform: copy the stored id into the extracted
   * dict, and issue an UPDATE when the two dicts differ.
   */
  method RefreshIsoform(db: DbConn, isoform: IsoformFacts, row: StoredIsoform)
    modifies db
    ensures db.trace == old(db.trace)
      + if NeedsUpdate(isoform, row) then [IsoformUpdateQuery(isoform.flybaseId, isoform.refseqId, row.id)] else []
  {
    var current := StoredIsoform(row.id, isoform.name, isoform.flybaseId, isoform.refseqId);
    if current != row {
      db.QueryDB(IsoformUpdateQuery(isoform.flybaseId, isoform.refseqId, row.id));
    }
  }

  // ---------------------------------------------------------------- agreement with the plan

  /** The new aliases are exactly the extracted names not yet stored, each once. */
  lemma AliasInsertsMatchPlan(extracted: set<string>, isoforms: map<string, IsoformFacts>, gene: GeneRecord, order: seq<string>)
    requires Enumerates(order, extracted)
    ensures Distinct(NewNames(order, gene.aliases.Keys))
    ensures forall n :: n in NewNames(order, gene.aliases.Keys) <==> n in PlanFor(extracted, isoforms, gene).aliasInserts
  {
  }

  /**
   * The delete parameters name exactly the ids of the stored aliases that
   * were not extracted; a name both extracted and stored is neither inserted
   * nor deleted.
   */
  lemma AliasDeletesMatchPlan(extracted: set<string>, isoforms: map<string, IsoformFacts>, gene: GeneRecord, order: seq<string>)
    requires Enumerates(order, gene.aliases.Keys)
    ensures forall x: nat {:trigger Str(x)} :: Str(x) in IdParams(StaleIds(order, extracted, gene.aliases)) <==>
      exists n :: n in PlanFor(extracted, isoforms, gene).aliasDeletes && gene.aliases[n] == x
    ensures forall n :: n in extracted && n in gene.aliases ==>
      n !in PlanFor(extracted, isoforms, gene).aliasInserts && n !in PlanFor(extracted, isoforms, gene).aliasDeletes
  {
    StaleIdsMembers(order, extracted, gene.aliases);
    IdParamsMembers(StaleIds(order, extracted, gene.aliases));
  }

  /** When neither the symbol nor the AKA field matched, every stored alias is selected for deletion. */
  lemma EmptyExtractionDeletesAllAliases(gene: GeneRecord, order: seq<string>)
    requires Enumerates(order, gene.aliases.Keys)
    ensures NewNames([], gene.aliases.Keys) == []
    ensures forall n :: n in gene.aliases ==> gene.aliases[n] in StaleIds(order, {}, gene.aliases)
  {
    StaleIdsMembers(order, {}, gene.aliases);
    forall n | n in gene.aliases ensures gene.aliases[n] in StaleIds(order, {}, gene.aliases) {
      assert n in order;
    }
  }

  /** The new isoforms are exactly the extracted names not yet stored. */
  lemma IsoformInsertsMatchPlan(aliases: set<string>, extracted: map<string, IsoformFacts>, gene: GeneRecord, order: seq<string>)
    requires Enumerates(order, extracted.Keys)
    ensures Distinct(NewNames(order, gene.isoforms.Keys))
    ensures forall n :: n in NewNames(order, gene.isoforms.Keys) <==> n in PlanFor(aliases, extracted, gene).isoformInserts
  {
  }

  /** The isoform delete parameters name exactly the ids of the stored isoforms that were not extracted. */
  lemma IsoformDeletesMatchPlan(aliases: set<string>, extracted: map<string, IsoformFacts>, gene: GeneRecord, order: seq<string>)
    requires Enumerates(order, gene.isoforms.Keys)
    ensures forall x: nat {:trigger Str(x)} :: Str(x) in IdParams(StaleIds(order, extracted.Keys, IdsOf(gene.isoforms))) <==>
      exists n :: n in PlanFor(aliases, extracted, gene).isoformDeletes && gene.isoforms[n].id == x
  {
    StaleIdsMembers(order, extracted.Keys, IdsOf(gene.isoforms));
    IdParamsMembers(StaleIds(order, extracted.Keys, IdsOf(gene.isoforms)));
  }

  /**
   * An isoform both extracted and stored gets an UPDATE with the extracted
   * identifiers and the stored id exactly when its identifiers differ,
   * provided each row carries the name it is filed under.
   */
  lemma {:induction false} IsoformUpdatesMatchPlan(aliases: set<string>, extracted: map<string, IsoformFacts>, gene: GeneRecord, order: seq<string>, n: string)
    requires Enumerates(order, gene.isoforms.Keys)
    requires n in extracted && n in gene.isoforms
    requires extracted[n].name == n && gene.isoforms[n].name == n
    requires forall m, m' :: m in gene.isoforms && m' in gene.isoforms && gene.isoforms[m].id == gene.isoforms[m'].id ==> m == m'
    ensures IsoformUpdateQuery(extracted[n].flybaseId, extracted[n].refseqId, gene.isoforms[n].id) in UpdateQueries(order, extracted, gene.isoforms)
        <==> n in PlanFor(aliases, extracted, gene).isoformUpdates
  {
    var q := IsoformUpdateQuery(extracted[n].flybaseId, extracted[n].refseqId, gene.isoforms[n].id);
    if NeedsUpdate(extracted[n], gene.isoforms[n]) {
      UpdateQueriesContain(order, extracted, gene.isoforms, n);
    }
    if q in UpdateQueries(order, extracted, gene.isoforms) {
      UpdateQueriesOrigin(order, extracted, gene.isoforms, q);
      var m :| m in order && m in extracted && NeedsUpdate(extracted[m], gene.isoforms[m])
        && q == IsoformUpdateQuery(extracted[m].flybaseId, extracted[m].refseqId, gene.isoforms[m].id);
      StrInjective(gene.isoforms[m].id, gene.isoforms[n].id);
    }
    NeedsUpdateIffFieldsDiffer(extracted[n], gene.isoforms[n]);
  }

  /** Every listed isoform that needs an update has its update among the issued ones. */
  lemma {:induction false} UpdateQueriesContain(order: seq<string>, extracted: map<string, IsoformFacts>, stored: map<string, StoredIsoform>, n: string)
    requires forall m :: m in order ==> m in stored
    requires n in order && n in extracted && NeedsUpdate(extracted[n], stored[n])
    ensures IsoformUpdateQuery(extracted[n].flybaseId, extracted[n].refseqId, stored[n].id) in UpdateQueries(order, extracted, stored)
  {
    var init := order[..|order| - 1];
    assert forall m :: m in init ==> m in order;
    if order[|order| - 1] != n {
      assert n in init;
      UpdateQueriesContain(init, extracted, stored, n);
    }
  }
}
