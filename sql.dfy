/**
 * The statements `compareGeneFlybaseInfo` and `downloadGeneIsoformImage`
 * send through `DbConn.queryDB`: their texts, built from fixed heads and
 * repeated placeholder groups, and their parameter lists. The connection is
 * modelled by the statements it has been asked to run, in order.
 */
module Sql {
  import opened PyStr

  /** Which of the six statements of the updater a query is. */
  datatype Statement =
    | InsertAliases     // INSERT IGNORE INTO `aliases` ...
    | DeleteAliases     // DELETE FROM `aliases` WHERE `id` IN (...)
    | UpdateIsoform     // UPDATE `isoforms` SET ... WHERE `id` = %s LIMIT 1
    | InsertIsoforms    // INSERT IGNORE INTO `isoforms` ...
    | DeleteIsoforms    // DELETE FROM `isoforms` WHERE `id` IN (...)
    | UpdateImagePath   // UPDATE `transcription_factors` SET `isoform_image_path` = %s ...

  /** One call of `queryDB(query, params)`. */
  datatype Query = Query(stmt: Statement, text: string, params: seq<string>)

  // The statement texts of lines 138 and 142 (aliases), 173, 178 and 182 (isoforms) and
  // 107 (image path). Joined, the pieces read as those lines' literals; each text is cut
  // into short pieces, each `%s` on its own, because the verifier checks that a long
  // literal holds no `%` only piece by piece.
  const AliasInsertHead: string :=
    "INSERT IGNORE " + "INTO `aliases` " + "(`name`, " + "`transcription_" + "factor_id`) " + "VALUES "
  const AliasGroup: string := "(" + "%s" + ", " + "%s" + ")"
  const AliasDeleteHead: string := "DELETE FROM " + "`aliases` " + "WHERE `id` IN ("
  const IsoformUpdateText: string :=
    ("UPDATE `isoforms` " + "SET `flybase_id` " + "= ") + "%s" + (", `refseq_id` " + "= ") + "%s"
    + (" WHERE `id` " + "= ") + "%s" + " LIMIT 1"
  const IsoformInsertHead: string :=
    "INSERT IGNORE " + "INTO `isoforms` " + "(`name`, " + "`transcription_" + "factor_id`, " + "`flybase_id`, "
    + "`refseq_id`) " + "VALUES "
  const IsoformGroup: string := "(" + "%s" + ", " + "%s" + ", " + "%s" + ", " + "%s" + ")"
  const IsoformDeleteHead: string := "DELETE FROM " + "`isoforms` " + "WHERE `id` IN ("
  const ImagePathText: string :=
    ("UPDATE `transcr" + "iption_factors` " + "SET `isoform_" + "image_path` " + "= ") + "%s" + (" WHERE `id` " + "= ") + "%s"

  /** `head + ",".join(groups)` with `n` copies of one placeholder group. */
  function InsertText(head: string, group: string, n: nat): string {
    head + Join(",", Repeat(group, n))
  }

  /** `head + ",".join(['%s' for x in params]) + ')'` for `n` parameters. */
  function DeleteText(head: string, n: nat): string {
    head + Join(",", Repeat("%s", n)) + ")"
  }

  /** MySQLdb accepts a query only when it has one placeholder per parameter. */
  predicate WellFormed(q: Query) {
    Placeholders(q.text) == |q.params|
  }

  function AliasInsertQuery(toInsert: seq<string>): Query {
    Query(InsertAliases, InsertText(AliasInsertHead, AliasGroup, |toInsert| / 2), toInsert)
  }

  function AliasDeleteQuery(toDelete: seq<string>): Query {
    Query(DeleteAliases, DeleteText(AliasDeleteHead, |toDelete|), toDelete)
  }

  function IsoformInsertQuery(toInsert: seq<string>): Query {
    Query(InsertIsoforms, InsertText(IsoformInsertHead, IsoformGroup, |toInsert| / 4), toInsert)
  }

  function IsoformDeleteQuery(toDelete: seq<string>): Query {
    Query(DeleteIsoforms, DeleteText(IsoformDeleteHead, |toDelete|), toDelete)
  }

  /** The alias statements issued for the two accumulator lists (lines 134-143): none for an empty list. */
  function AliasQueries(toInsert: seq<string>, toDelete: seq<string>): seq<Query> {
    (if |toInsert| / 2 > 0 then [AliasInsertQuery(toInsert)] else [])
    + (if |toDelete| > 0 then [AliasDeleteQuery(toDelete)] else [])
  }

  /** The isoform statements issued after the update loop (lines 174-183): none for an empty list. */
  function IsoformQueries(toInsert: seq<string>, toDelete: seq<string>): seq<Query> {
    (if |toInsert| / 4 > 0 then [IsoformInsertQuery(toInsert)] else [])
    + (if |toDelete| > 0 then [IsoformDeleteQuery(toDelete)] else [])
  }

  /** The update issued for one changed isoform (line 173). */
  function IsoformUpdateQuery(flybaseId: string, refseqId: string, id: nat): Query {
    Query(UpdateIsoform, IsoformUpdateText, [flybaseId, refseqId, Str(id)])
  }

  /** The update that records a downloaded image (line 107). */
  function ImagePathQuery(fileName: string, geneId: nat): Query {
    Query(UpdateImagePath, ImagePathText, [fileName, Str(geneId)])
  }

  // ---------------------------------------------------------------- placeholder counts

  lemma {:induction false} RepeatedGroupPlaceholders(group: string, n: nat)
    requires |group| > 0 && group[|group| - 1] != '%'
    ensures Placeholders(Join(",", Repeat(group, n))) == n * Placeholders(group)
    ensures n > 0 ==> Join(",", Repeat(group, n))[|Join(",", Repeat(group, n))| - 1] != '%'
    decreases n
  {
    if n > 1 {
      var rest := Join(",", Repeat(group, n - 1));
      assert Repeat(group, n)[1..] == Repeat(group, n - 1);
      assert Join(",", Repeat(group, n)) == group + "," + rest;
      RepeatedGroupPlaceholders(group, n - 1);
      PlaceholdersConcat(group, ",");
      PlaceholdersConcat(group + ",", rest);
      PlaceholdersNoPercent(",");
    }
  }

  lemma InsertTextPlaceholders(head: string, group: string, n: nat)
    requires '%' !in head && |head| > 0
    requires |group| > 0 && group[|group| - 1] != '%'
    ensures Placeholders(InsertText(head, group, n)) == n * Placeholders(group)
  {
    assert head[|head| - 1] in head;
    PlaceholdersNoPercent(head);
    RepeatedGroupPlaceholders(group, n);
    PlaceholdersConcat(head, Join(",", Repeat(group, n)));
  }

  lemma DeleteTextPlaceholders(head: string, n: nat)
    requires '%' !in head && |head| > 0
    ensures Placeholders(DeleteText(head, n)) == n
  {
    var body := Join(",", Repeat("%s", n));
    assert Placeholders("%s") == 1;
    InsertTextPlaceholders(head, "%s", n);
    if n > 0 {
      RepeatedGroupPlaceholders("%s", n);
    } else {
      assert body == [];
    }
    assert head + body != [] && (head + body)[|head + body| - 1] != '%';
    PlaceholdersConcat(head + body, ")");
    PlaceholdersNoPercent(")");
  }

  /** Appending a piece that does not end in `%` adds its placeholders and keeps the text free of a dangling `%`. */
  lemma Append(a: string, b: string)
    requires a == [] || a[|a| - 1] != '%'
    requires b != [] && b[|b| - 1] != '%'
    ensures Placeholders(a + b) == Placeholders(a) + Placeholders(b)
    ensures (a + b)[|a + b| - 1] != '%'
  {
    PlaceholdersConcat(a, b);
  }

  lemma Hole()
    ensures Placeholders("%s") == 1
  {
  }

  lemma Plain(s: string)
    requires '%' !in s && s != []
    ensures Placeholders(s) == 0 && s[|s| - 1] != '%'
  {
    PlaceholdersNoPercent(s);
    assert s[|s| - 1] in s;
  }

  lemma AliasInsertHeadPlain()
    ensures '%' !in AliasInsertHead
  {
  }

  lemma AliasDeleteHeadPlain()
    ensures '%' !in AliasDeleteHead
  {
  }

  lemma IsoformInsertHeadPlain()
    ensures '%' !in IsoformInsertHead
  {
  }

  lemma IsoformDeleteHeadPlain()
    ensures '%' !in IsoformDeleteHead
  {
  }

  lemma GroupPlaceholders()
    ensures Placeholders(AliasGroup) == 2 && AliasGroup[|AliasGroup| - 1] != '%'
    ensures Placeholders(IsoformGroup) == 4 && IsoformGroup[|IsoformGroup| - 1] != '%'
  {
    Hole();
    Plain("(");
    Plain(", ");
    Plain(")");
    Append("(", "%s");
    Append("(" + "%s", ", ");
    Append("(" + "%s" + ", ", "%s");
    Append("(" + "%s" + ", " + "%s", ")");
    Append("(" + "%s" + ", " + "%s", ", ");
    Append("(" + "%s" + ", " + "%s" + ", ", "%s");
    Append("(" + "%s" + ", " + "%s" + ", " + "%s", ", ");
    Append("(" + "%s" + ", " + "%s" + ", " + "%s" + ", ", "%s");
    Append("(" + "%s" + ", " + "%s" + ", " + "%s" + ", " + "%s", ")");
  }

  lemma {:induction false} ThreeHoles(p0: string, p1: string, p2: string, p3: string)
    requires '%' !in p0 && '%' !in p1 && '%' !in p2 && '%' !in p3
    requires p0 != [] && p1 != [] && p2 != []
    ensures Placeholders(p0 + "%s" + p1 + "%s" + p2 + "%s" + p3) == 3
  {
    Hole();
    Plain(p0);
    Plain(p1);
    Plain(p2);
    PlaceholdersNoPercent(p3);
    Append(p0, "%s");
    Append(p0 + "%s", p1);
    Append(p0 + "%s" + p1, "%s");
    Append(p0 + "%s" + p1 + "%s", p2);
    Append(p0 + "%s" + p1 + "%s" + p2, "%s");
    PlaceholdersConcat(p0 + "%s" + p1 + "%s" + p2 + "%s", p3);
  }

  lemma {:induction false} TwoHoles(p0: string, p1: string)
    requires '%' !in p0 && '%' !in p1
    requires p0 != [] && p1 != []
    ensures Placeholders(p0 + "%s" + p1 + "%s") == 2
  {
    Hole();
    Plain(p0);
    Plain(p1);
    Append(p0, "%s");
    Append(p0 + "%s", p1);
    Append(p0 + "%s" + p1, "%s");
  }

  /** The isoform UPDATE has three placeholders. */
  lemma IsoformUpdatePlaceholders()
    ensures Placeholders(IsoformUpdateText) == 3
  {
    ThreeHoles("UPDATE `isoforms` " + "SET `flybase_id` " + "= ", ", `refseq_id` " + "= ", " WHERE `id` " + "= ", " LIMIT 1");
  }

  /** The image-path UPDATE has two. */
  lemma ImagePathPlaceholders()
    ensures Placeholders(ImagePathText) == 2
  {
    TwoHoles("UPDATE `transcr" + "iption_factors` " + "SET `isoform_" + "image_path` " + "= ", " WHERE `id` " + "= ");
  }

  /** Each alias statement carries one placeholder per parameter. */
  lemma AliasStatementsWellFormed(toInsert: seq<string>, toDelete: seq<string>)
    requires |toInsert| % 2 == 0
    ensures WellFormed(AliasInsertQuery(toInsert)) && WellFormed(AliasDeleteQuery(toDelete))
  {
    AliasInsertHeadPlain();
    AliasDeleteHeadPlain();
    GroupPlaceholders();
    InsertTextPlaceholders(AliasInsertHead, AliasGroup, |toInsert| / 2);
    DeleteTextPlaceholders(AliasDeleteHead, |toDelete|);
  }

  /** The same for the two isoform statements, whose insert rows have four placeholders. */
  lemma IsoformStatementsWellFormed(toInsert: seq<string>, toDelete: seq<string>)
    requires |toInsert| % 4 == 0
    ensures WellFormed(IsoformInsertQuery(toInsert)) && WellFormed(IsoformDeleteQuery(toDelete))
  {
    IsoformInsertHeadPlain();
    IsoformDeleteHeadPlain();
    GroupPlaceholders();
    InsertTextPlaceholders(IsoformInsertHead, IsoformGroup, |toInsert| / 4);
    DeleteTextPlaceholders(IsoformDeleteHead, |toDelete|);
  }

  /** Both alias statements are well formed, and each is issued only for a non-empty list. */
  lemma AliasQueriesWellFormed(toInsert: seq<string>, toDelete: seq<string>)
    requires |toInsert| % 2 == 0
    ensures forall q :: q in AliasQueries(toInsert, toDelete) ==> WellFormed(q)
    ensures |AliasQueries(toInsert, toDelete)| == (if toInsert != [] then 1 else 0) + (if toDelete != [] then 1 else 0)
  {
    AliasStatementsWellFormed(toInsert, toDelete);
  }

  /** The same for the isoform statements. */
  lemma IsoformQueriesWellFormed(toInsert: seq<string>, toDelete: seq<string>)
    requires |toInsert| % 4 == 0
    ensures forall q :: q in IsoformQueries(toInsert, toDelete) ==> WellFormed(q)
    ensures |IsoformQueries(toInsert, toDelete)| == (if toInsert != [] then 1 else 0) + (if toDelete != [] then 1 else 0)
  {
    IsoformStatementsWellFormed(toInsert, toDelete);
  }

  /** The isoform update and the image-path update are well formed for any values. */
  lemma FixedQueriesWellFormed(flybaseId: string, refseqId: string, id: nat, fileName: string, geneId: nat)
    ensures WellFormed(IsoformUpdateQuery(flybaseId, refseqId, id))
    ensures WellFormed(ImagePathQuery(fileName, geneId))
  {
    IsoformUpdatePlaceholders();
    ImagePathPlaceholders();
  }

  // ---------------------------------------------------------------- the connection

  /** The MySQL connection, seen through the statements it has been asked to run. */
  class DbConn {
    var trace: seq<Query>

    constructor()
      ensures trace == []
    {
      trace := [];
    }

    /** `queryDB(query, params, newCursor=True)`: runs one statement (reconnecting is not modelled). */
    method QueryDB(q: Query)
      modifies this
      ensures trace == old(trace) + [q]
    {
      trace := trace + [q];
    }
  }

  /** The loop that appends one placeholder group per row to be inserted. */
  method PlaceholderGroups(group: string, n: nat) returns (groups: seq<string>)
    ensures |groups| == n
    ensures forall k :: 0 <= k < n ==> groups[k] == group
  {
    groups := [];
    var x := 0;
    while x < n
      invariant x <= n
      invariant |groups| == x
      invariant forall k :: 0 <= k < x ==> groups[k] == group
    {
      groups := groups + [group];
      x := x + 1;
    }
  }

  /** Issues the alias INSERT and then the alias DELETE, each only when it has rows. */
  method IssueAliasStatements(db: DbConn, toInsert: seq<string>, toDelete: seq<string>)
    modifies db
    ensures db.trace == old(db.trace) + AliasQueries(toInsert, toDelete)
  {
    var groups := PlaceholderGroups(AliasGroup, |toInsert| / 2);
    assert groups == Repeat(AliasGroup, |toInsert| / 2);
    if |groups| > 0 {
      db.QueryDB(Query(InsertAliases, AliasInsertHead + Join(",", groups), toInsert));
    }
    if |toDelete| > 0 {
      db.QueryDB(Query(DeleteAliases, AliasDeleteHead + Join(",", Repeat("%s", |toDelete|)) + ")", toDelete));
    }
  }

  /** Issues the isoform INSERT and then the isoform DELETE, each only when it has rows. */
  method IssueIsoformStatements(db: DbConn, toInsert: seq<string>, toDelete: seq<string>)
    modifies db
    ensures db.trace == old(db.trace) + IsoformQueries(toInsert, toDelete)
  {
    var groups := PlaceholderGroups(IsoformGroup, |toInsert| / 4);
    assert groups == Repeat(IsoformGroup, |toInsert| / 4);
    if |groups| > 0 {
      db.QueryDB(Query(InsertIsoforms, IsoformInsertHead + Join(",", groups), toInsert));
    }
    if |toDelete| > 0 {
      db.QueryDB(Query(DeleteIsoforms, IsoformDeleteHead + Join(",", Repeat("%s", |toDelete|)) + ")", toDelete));
    }
  }
}
