/**
 * `compareGeneFlybaseInfo` as a whole: the callback run on each fetched
 * FlyBase report, which brings the aliases, isoforms and isoform image of one
 * gene in line with the report. The regular-expression captures, the image
 * response and the local file size are its inputs; its effect is the
 * statements it sends to the database and the files it writes.
 */
module Updater {
  import opened Wrappers
  import opened PyStr
  import opened PyPath
  import opened Extraction
  import opened Sql
  import opened Diff
  import opened Store
  import opened Asset

  /** The report page fetched for a gene. */
  function ReportUrl(flybaseId: string): (url: string)
    ensures |url| == |ReportPrefix| + |flybaseId| + |ReportSuffix|
  {
    ReportPrefix + flybaseId + ReportSuffix
  }

  const ReportPrefix: string := "http://flybase.org/reports/"
  const ReportSuffix: string := ".html"

  /** The FlyBase id a report URL was made from, if it has the report layout. */
  function ReportId(url: string): (id: Option<string>)
    ensures id.Some? ==> ReportUrl(id.value) == url
  {
    if |url| >= |ReportPrefix| + |ReportSuffix|
       && url[..|ReportPrefix|] == ReportPrefix
       && url[|url| - |ReportSuffix|..] == ReportSuffix
    then
      var id := url[|ReportPrefix|..|url| - |ReportSuffix|];
      assert url == url[..|ReportPrefix|] + id + url[|url| - |ReportSuffix|..];
      Some(id)
    else None
  }

  /** Every gene's report URL gives its FlyBase id back, so distinct genes fetch distinct pages. */
  lemma ReportIdOfUrl(flybaseId: string)
    ensures ReportId(ReportUrl(flybaseId)) == Some(flybaseId)
  {
    var url := ReportUrl(flybaseId);
    assert url[..|ReportPrefix|] == ReportPrefix;
    assert url[|url| - |ReportSuffix|..] == ReportSuffix;
    assert url[|ReportPrefix|..|url| - |ReportSuffix|] == flybaseId;
  }

  /** Lines 115-142: extract the aliases, then insert the new ones and delete the stale ones. */
  method CompareAliases(symbol: Option<string>, akas: Option<string>, gene: GeneRecord, db: DbConn)
    returns (ghost insertOrder: seq<string>, ghost deleteOrder: seq<string>)
    modifies db
    ensures Enumerates(insertOrder, AliasSet(symbol, akas)) && Enumerates(deleteOrder, gene.aliases.Keys)
    ensures db.trace == old(db.trace) + AliasStatements(AliasSet(symbol, akas), gene, insertOrder, deleteOrder)
  {
    var aliases := ExtractAliases(symbol, akas);
    var aliasesToInsert;
    aliasesToInsert, insertOrder := NewAliasParams(aliases, gene);
    var aliasesToDelete;
    aliasesToDelete, deleteOrder := StaleAliasParams(aliases, gene);
    IssueAliasStatements(db, aliasesToInsert, aliasesToDelete);
  }

  /**
   * Lines 145-182: extract the isoforms, issue an UPDATE for each stored one
   * whose identifiers changed while walking them, then insert the new ones
   * and delete the stale ones.
   */
  method CompareIsoforms(blocks: seq<IsoformBlock>, gene: GeneRecord, db: DbConn)
    returns (ghost insertOrder: seq<string>, ghost storedOrder: seq<string>)
    modifies db
    ensures Enumerates(insertOrder, IsoformMap(blocks).Keys) && Enumerates(storedOrder, gene.isoforms.Keys)
    ensures db.trace == old(db.trace) + IsoformStatements(IsoformMap(blocks), gene, insertOrder, storedOrder)
  {
    var isoforms := ExtractIsoforms(blocks);
    var isoformsToInsert;
    isoformsToInsert, insertOrder := NewIsoformParams(isoforms, gene);
    var isoformsToDelete;
    ghost var start := db.trace;
    isoformsToDelete, storedOrder := ReconcileStoredIsoforms(isoforms, gene, db);
    IssueIsoformStatements(db, isoformsToInsert, isoformsToDelete);
    AppendAssociates(start, UpdateQueries(storedOrder, isoforms, gene.isoforms), IsoformQueries(isoformsToInsert, isoformsToDelete));
  }

  lemma AppendAssociates<T>(a: seq<T>, b: seq<T>, c: seq<T>)
    ensures a + b + c == a + (b + c)
  {
  }

  /**
   * `compareGeneFlybaseInfo(flybase_html, ...)` for the gene `gene` loaded
   * from the database. `symbol`, `akas`, `blocks` and `imageSrc` are the
   * captures of its regular expressions; `contentLengths` the image's
   * Content-Length headers; `response` the image download, null when it
   * fails. The stored image's size is read from `disk`. The ghost outputs are the orders in which the dicts were walked.
   */
  method CompareGeneFlybaseInfo(symbol: Option<string>, akas: Option<string>, blocks: seq<IsoformBlock>,
                                imageSrc: Option<string>, contentLengths: seq<string>,
                                response: Response?, gene: GeneRecord, db: DbConn, disk: Disk)
    returns (image: Result<AssetAction, string>,
             ghost aliasInsertOrder: seq<string>, ghost aliasDeleteOrder: seq<string>,
             ghost isoformInsertOrder: seq<string>, ghost isoformStoredOrder: seq<string>)
    modifies db, disk, response
    ensures Enumerates(aliasInsertOrder, AliasSet(symbol, akas)) && Enumerates(aliasDeleteOrder, gene.aliases.Keys)
    ensures Enumerates(isoformInsertOrder, IsoformMap(blocks).Keys) && Enumerates(isoformStoredOrder, gene.isoforms.Keys)
    ensures image == DecideAsset(imageSrc, contentLengths, gene.imagePath,
      old(disk.SizeOf(JoinPath(IsoformImageRoot, gene.imagePath))))
    ensures db.trace == old(db.trace)
      + AliasStatements(AliasSet(symbol, akas), gene, aliasInsertOrder, aliasDeleteOrder)
      + IsoformStatements(IsoformMap(blocks), gene, isoformInsertOrder, isoformStoredOrder)
      + ImageStatements(image, response != null, gene.id)
    ensures !(image.Ok? && image.value.Replace?) ==> disk.files == old(disk.files)
    ensures image.Ok? && image.value.Replace? && response == null ==>
      disk.files == old(disk.files) - {image.value.removePath}
    ensures image.Ok? && image.value.Replace? && response != null ==>
      disk.files == (old(disk.files) - {image.value.removePath})[image.value.destination := old(response.remaining)]
  {
    aliasInsertOrder, aliasDeleteOrder := CompareAliases(symbol, akas, gene, db);
    isoformInsertOrder, isoformStoredOrder := CompareIsoforms(blocks, gene, db);
    image := SyncIsoformImage(imageSrc, contentLengths, gene.imagePath, response, gene.id, db, disk);
  }

  /**
   * Run against rows that match the gene it was loaded as, a comparison leaves
   * the gene with exactly the extracted aliases and isoforms, and with the
   * image's file name as its image path when a replacement was downloaded.
   * Comparing against the same report again finds nothing to insert, delete
   * or update.
   */
  lemma ComparisonConverges(t: GeneRows, gene: GeneRecord, symbol: Option<string>, akas: Option<string>, blocks: seq<IsoformBlock>,
                            image: Result<AssetAction, string>, downloaded: bool,
                            aliasInsertOrder: seq<string>, aliasDeleteOrder: seq<string>,
                            isoformInsertOrder: seq<string>, isoformStoredOrder: seq<string>)
    requires t.aliases == gene.aliases && t.isoforms == gene.isoforms
    requires IdsInjective(gene.aliases) && IdsBelow(gene.aliases, t.aliasNext)
    requires IdsInjective(IdsOf(gene.isoforms)) && IdsBelow(IdsOf(gene.isoforms), t.isoformNext)
    requires forall n :: n in gene.isoforms ==> gene.isoforms[n].name == n
    requires Enumerates(aliasInsertOrder, AliasSet(symbol, akas)) && Enumerates(aliasDeleteOrder, gene.aliases.Keys)
    requires Enumerates(isoformInsertOrder, IsoformMap(blocks).Keys) && Enumerates(isoformStoredOrder, gene.isoforms.Keys)
    requires image.Ok? && image.value.Replace? ==> image.value.destination == LocalPath(image.value.downloadUrl)
    ensures var r := Run(t, gene.id,
        AliasStatements(AliasSet(symbol, akas), gene, aliasInsertOrder, aliasDeleteOrder)
        + IsoformStatements(IsoformMap(blocks), gene, isoformInsertOrder, isoformStoredOrder)
        + ImageStatements(image, downloaded, gene.id));
      r.aliases.Keys == AliasSet(symbol, akas)
      && r.isoforms.Keys == IsoformMap(blocks).Keys
      && r.imagePath == (if image.Ok? && image.value.Replace? && downloaded then Basename(image.value.downloadUrl) else t.imagePath)
      && PlanFor(AliasSet(symbol, akas), IsoformMap(blocks), Reloaded(gene, r)) == Plan({}, {}, {}, {}, {})
  {
    var isoforms := IsoformMap(blocks);
    forall n | n in isoforms
      ensures isoforms[n].name == n
    {
      IsoformMapLastWins(blocks, n);
    }
    var statements := AliasStatements(AliasSet(symbol, akas), gene, aliasInsertOrder, aliasDeleteOrder)
      + IsoformStatements(isoforms, gene, isoformInsertOrder, isoformStoredOrder);
    GeneConverges(t, gene, AliasSet(symbol, akas), isoforms,
      aliasInsertOrder, aliasDeleteOrder, isoformInsertOrder, isoformStoredOrder);
    var t1 := Run(t, gene.id, statements);
    var images := ImageStatements(image, downloaded, gene.id);
    RunAppend(t, gene.id, statements, images);
    if image.Ok? && image.value.Replace? && downloaded {
      DownloadRecordsFileName(t1, gene.id, gene.id, image.value.downloadUrl);
    }
  }
}
