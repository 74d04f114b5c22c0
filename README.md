# FlybaseUpdater core, modelled in Dafny

FlybaseUpdater is a daemon that keeps a MySQL catalogue of Drosophila
transcription factors in line with FlyBase. For every gene that has a FlyBase
id, it fetches the gene's report page. `compareGeneFlybaseInfo` then compares
the page with the database:

- it extracts the gene's aliases (the Symbol and the "Also Known As" list)
  and inserts the new ones and deletes the stale ones;
- it extracts the isoform table and inserts, deletes and updates isoform rows;
- it decides whether the gene's isoform image must be downloaded again, and
  `downloadGeneIsoformImage` writes the file and records its name.

At start-up the program reads its MySQL login from a two-line credentials
file.

This project models:

- that comparison, step by step, with the two corrections listed under
  "## Findings" (the as-written behaviour of each is modelled beside it);
- the statements it sends to MySQL;
- the effect of those statements on the gene's rows;
- the image decision and download;
- the credentials parse;
- the report URL.

It then proves:

- that the loops compute the accumulators the source builds, with the two
  corrections applied;
- that every statement has one placeholder per parameter;
- that, with the two corrections, the statements of one comparison leave
  the gene with exactly the extracted aliases and isoforms, whatever order
  the dicts were walked in;
- that, with the two corrections, comparing the same report again finds
  nothing to do;
- that the credentials file round-trips through the parse.

Modules, in dependency order:

- `Wrappers`: `Option` and `Result`.
- `PyStr`: the Python 2 string operations used.
  - `strip`, `split`, `find`, `join`;
  - `str` of a non-negative integer and `list` of a string;
  - the `%s` placeholder count.
- `PyPath`: `os.path.basename` and `os.path.join`.
- `Extraction`: the alias set and isoform dict built from the regular
  expressions' captures.
- `Sql`: the statement texts and parameter lists, and the connection `DbConn`.
  The connection records the statements it is asked to run.
- `Diff`: the accumulator loops of `compareGeneFlybaseInfo`, and the
  order-independent `Plan` they carry out.
- `Store`: the effect of each statement on one gene's rows, and the
  convergence theorems.
- `Asset`: the image decision, the download over a `Response` and a `Disk`
  object, and the path update.
- `Credentials`: the parse of the credentials file.
- `Updater`: `compareGeneFlybaseInfo` as a whole, and the report URL.

Python 2 dict iteration order is unspecified, so the loops pick keys in an
arbitrary order. They return the order they used as a ghost value, and every
statement about their output holds for every order.

Two places where the code and the intended design differ. Each is modelled
as written, and the rest of the model uses the corrected version:

- The image size check compares an `int` with a `str`.
  - In Python 2 those are never equal, so the comparison always says the
    sizes differ.
  - The intended behaviour is to replace the image only when its name or size
    changed.
  - `DecideAssetAsWritten` models the code.
  - The rest of the model uses `DecideAsset`, which has the intended
    comparison.
- The delete parameters are built with `list.extend(str(id))`.
  - That call adds one parameter per DIGIT of the id, not one per id.
  - `DigitParams` models the code.
  - The rest of the model uses `IdParams`, which has one parameter per id.

Both appear under "## Findings".

## Model

| member | source | states |
|---|---|---|
| PyStr.LStrip | FlybaseUpdater.py:275 | the result is a suffix of the input, everything removed is in the strip set, and the result does not start with a stripped character |
| PyStr.RStrip | FlybaseUpdater.py:275 | the result is a prefix of the input, everything removed is in the strip set, and the result does not end with a stripped character |
| PyStr.Strip | FlybaseUpdater.py:280-282 | the result neither starts nor ends with a stripped character, and is no longer than the input |
| PyStr.StripMiddle | FlybaseUpdater.py:280-282 | the stripped text is a contiguous slice of the input, and everything removed before and after it is in the strip set |
| PyStr.StripIdempotent | FlybaseUpdater.py:280-282 | stripping twice gives the same text as stripping once |
| PyStr.Find | FlybaseUpdater.py:275 | the result is the leftmost occurrence of the separator, and it is None exactly when the separator does not occur |
| PyStr.Split | FlybaseUpdater.py:123 | there is at least one piece, joining the pieces with the separator gives the input back, and no piece contains the separator |
| PyStr.SplitOnCharHasTwoPieces | FlybaseUpdater.py:275-276 | splitting on one character gives at least two pieces exactly when the character occurs |
| PyStr.Str | FlybaseUpdater.py:130 | `str(n)` is a non-empty string of decimal digits without a leading zero, and has one digit exactly when n < 10 |
| PyStr.ParseStr | FlybaseUpdater.py:130 | `int(str(n)) == n` |
| PyStr.StrInjective | FlybaseUpdater.py:130 | different ids have different renderings |
| PyStr.ConcatChars | FlybaseUpdater.py:133 | the one-character strings of `list(s)` glue back to `s` |
| PyStr.ConcatAppend | FlybaseUpdater.py:133 | gluing two lists of strings is gluing each and joining the results |
| PyPath.Basename | FlybaseUpdater.py:195 | the base name holds no `/`, is a suffix of the path, and is preceded by `/` unless it is the whole path |
| PyPath.BasenameAfterSlash | FlybaseUpdater.py:195 | the base name of a directory ending in `/`, followed by a slash-free name, is that name |
| PyPath.BasenameOfSuffix | FlybaseUpdater.py:190-195 | putting any text in front of a path that has a `/` does not change its base name |
| PyPath.BasenameOfJoin | FlybaseUpdater.py:200 | `basename(join(root, name)) == name` for a slash-free name |
| Extraction.ExtractAliases | FlybaseUpdater.py:115-124 | the alias keys are the stripped symbol plus every stripped piece of the AKA text split on `", "` |
| Extraction.AliasesAreStripped | FlybaseUpdater.py:119-124 | every alias is already stripped |
| Extraction.AliasOrigin | FlybaseUpdater.py:117-124 | every alias comes from the symbol or from an AKA piece, and from nowhere else |
| Extraction.EmptyAkaGivesEmptyAlias | FlybaseUpdater.py:121-124 | an AKA field that matched but is empty adds the empty alias |
| Extraction.BlockFacts | FlybaseUpdater.py:150-158 | a block yields an isoform exactly when its name matched; each identifier is its stripped capture, or `''` when that pattern missed |
| Extraction.IsoformMapStep | FlybaseUpdater.py:149-159 | one more block sets or overwrites the entry for its name, or changes nothing when it has no name |
| Extraction.ExtractIsoforms | FlybaseUpdater.py:146-159 | the loop builds exactly the isoform dict of the blocks, taken in document order |
| Extraction.LastNamed | FlybaseUpdater.py:159 | the last block that names an isoform n, or -1 when no block does |
| Extraction.IsoformMapLastWins | FlybaseUpdater.py:159 | n is a key exactly when some block names it; its entry comes from the LAST such block and is filed under its own name |
| Extraction.IsoformMapDomain | FlybaseUpdater.py:148-159 | the keys are exactly the names some block yields |
| Sql.RepeatedGroupPlaceholders | FlybaseUpdater.py:135-138 | n groups joined with commas have n times the group's placeholders |
| Sql.InsertTextPlaceholders | FlybaseUpdater.py:138 | an INSERT text with n groups has n times the group's placeholders |
| Sql.DeleteTextPlaceholders | FlybaseUpdater.py:142 | the DELETE text for n parameters has n placeholders |
| Sql.GroupPlaceholders | FlybaseUpdater.py:136 | an alias row group has 2 placeholders and an isoform row group has 4 |
| Sql.IsoformUpdatePlaceholders | FlybaseUpdater.py:173 | the isoform UPDATE has 3 placeholders |
| Sql.ImagePathPlaceholders | FlybaseUpdater.py:107 | the image-path UPDATE has 2 placeholders |
| Sql.AliasStatementsWellFormed | FlybaseUpdater.py:134-142 | the alias INSERT and DELETE each have one placeholder per parameter |
| Sql.IsoformStatementsWellFormed | FlybaseUpdater.py:174-182 | the isoform INSERT and DELETE each have one placeholder per parameter |
| Sql.AliasQueriesWellFormed | FlybaseUpdater.py:137-142 | every alias statement issued is well formed, and one is issued for each non-empty list |
| Sql.IsoformQueriesWellFormed | FlybaseUpdater.py:177-182 | every isoform statement issued is well formed, and one is issued for each non-empty list |
| Sql.FixedQueriesWellFormed | FlybaseUpdater.py:173 | the isoform UPDATE and the image-path UPDATE are well formed for any values |
| Sql.DbConn.constructor | FlybaseUpdater.py:57-64 | a new connection has run no statement |
| Sql.DbConn.QueryDB | FlybaseUpdater.py:72-88 | `queryDB` appends exactly its statement to what the connection has run |
| Sql.PlaceholderGroups | FlybaseUpdater.py:135-136 | the loop builds one copy of the group per row |
| Sql.IssueAliasStatements | FlybaseUpdater.py:134-142 | exactly the alias INSERT, if there is a row to insert, then the DELETE, if there is an id to delete, are sent |
| Sql.IssueIsoformStatements | FlybaseUpdater.py:174-182 | the same for the isoform INSERT and DELETE |
| Diff.NewNames | FlybaseUpdater.py:128-129 | the names in the walk that are not stored, with no repeats when the walk has none |
| Diff.PairParams | FlybaseUpdater.py:130 | two parameters per new alias |
| Diff.PairParamsLayout | FlybaseUpdater.py:130 | pair k is the k-th new name and the gene id |
| Diff.StaleIds | FlybaseUpdater.py:131-132 | at most one id per walked name |
| Diff.StaleIdsMembers | FlybaseUpdater.py:131-133 | the stale ids are exactly the ids of the walked names that were not extracted |
| Diff.IdParams | FlybaseUpdater.py:133 | one parameter per stale id (corrected) |
| Diff.IdParamsMembers | FlybaseUpdater.py:133 | `str(x)` is a parameter exactly when x is a stale id |
| Diff.DigitParams | FlybaseUpdater.py:133 | as written: every parameter is a single character, and the parameters glued together spell the stale ids one after another, so an id of k digits becomes k parameters |
| Diff.QuadParams | FlybaseUpdater.py:165 | four parameters per new isoform |
| Diff.QuadParamsLayout | FlybaseUpdater.py:165 | quadruple k is the k-th new name, the gene id and that isoform's FlyBase and RefSeq ids |
| Diff.UpdateQueriesOrigin | FlybaseUpdater.py:169-173 | every UPDATE issued is for a walked isoform that needs one, with its extracted ids and its stored row id |
| Diff.UpdateQueriesContain | FlybaseUpdater.py:169-173 | every walked isoform that needs an update gets its UPDATE |
| Diff.NeedsUpdateIffFieldsDiffer | FlybaseUpdater.py:170-171 | when the names agree, the whole-dict comparison is the comparison of the two external ids |
| Diff.NeedsUpdateOnNameMismatch | FlybaseUpdater.py:170-171 | a row whose name differs is always rewritten |
| Diff.NewAliasParams | FlybaseUpdater.py:128-130 | the loop visits every extracted alias once and builds the pairs of those not stored |
| Diff.StaleAliasParams | FlybaseUpdater.py:131-133 | (corrected) the loop visits every stored alias once and builds the ids of those not extracted |
| Diff.NewIsoformParams | FlybaseUpdater.py:163-165 | the loop visits every extracted isoform once and builds the quadruples of those not stored |
| Diff.ReconcileStoredIsoforms | FlybaseUpdater.py:166-173 | (corrected) the loop visits every stored isoform once: it builds the stale ids, and sends the UPDATE of each changed isoform as it goes |
| Diff.RefreshIsoform | FlybaseUpdater.py:170-173 | one UPDATE is sent exactly when the extracted dict, with the stored id copied in, differs from the stored row |
| Diff.AliasInsertsMatchPlan | FlybaseUpdater.py:128-130 | the names inserted are exactly the extracted aliases that are not stored, each once |
| Diff.AliasDeletesMatchPlan | FlybaseUpdater.py:131-133 | (corrected) the ids deleted are exactly those of stored aliases that were not extracted; an alias both extracted and stored is neither inserted nor deleted |
| Diff.EmptyExtractionDeletesAllAliases | FlybaseUpdater.py:117-133 | (corrected) with no symbol and no AKA match nothing is inserted and every stored alias is selected for deletion |
| Diff.IsoformInsertsMatchPlan | FlybaseUpdater.py:163-165 | the isoforms inserted are exactly the extracted ones that are not stored, each once |
| Diff.IsoformDeletesMatchPlan | FlybaseUpdater.py:166-168 | (corrected) the ids deleted are exactly those of stored isoforms that were not extracted |
| Diff.IsoformUpdatesMatchPlan | FlybaseUpdater.py:169-173 | an isoform both extracted and stored gets its UPDATE exactly when one of its external ids changed |
| Store.RunAppend | FlybaseUpdater.py:72-88 | running two batches of statements is running them one after the other |
| Store.InsertAliasesEffect | FlybaseUpdater.py:138 | the INSERT IGNORE adds each new alias under a fresh id and leaves existing rows alone |
| Store.InsertIsoformsEffect | FlybaseUpdater.py:178 | the INSERT IGNORE adds each new isoform, with a fresh id and its extracted ids, and leaves existing rows alone |
| Store.ExecUpdate | FlybaseUpdater.py:173 | the isoform UPDATE rewrites the ids of the row with the given id |
| Store.UpdateStep | FlybaseUpdater.py:173 | one UPDATE changes only the row it names, because row ids are distinct |
| Store.UpdatesEffect | FlybaseUpdater.py:166-173 | the UPDATEs of the loop rewrite exactly the rows that needed it and touch nothing else |
| Store.AliasQueriesEffect | FlybaseUpdater.py:137-142 | the alias statements act as one insert followed by one delete, and an empty list sends nothing |
| Store.IsoformQueriesEffect | FlybaseUpdater.py:177-182 | the same for the isoform INSERT and DELETE |
| Store.StaleSelection | FlybaseUpdater.py:131-142 | (corrected) the DELETE removes a current row exactly when it is a stored row that was not extracted |
| Store.DeleteStaleAliases | FlybaseUpdater.py:141-142 | (corrected) the alias DELETE removes exactly the stale stored rows; the rows just inserted survive |
| Store.DeleteStaleIsoforms | FlybaseUpdater.py:181-182 | (corrected) the isoform DELETE removes exactly the stale stored rows; the rows just inserted survive |
| Store.IsoformStatementsEffect | FlybaseUpdater.py:163-182 | the isoform statements act as the UPDATEs, then one insert, then one delete |
| Store.RowsBeforeDelete | FlybaseUpdater.py:163-178 | the isoform rows after the UPDATEs and the INSERT: stored rows refreshed with their ids kept, new rows fresh |
| Store.AliasesConverge | FlybaseUpdater.py:126-142 | (corrected) afterwards the gene has exactly the extracted aliases, and those it already had keep their rows |
| Store.IsoformsConverge | FlybaseUpdater.py:161-182 | (corrected) afterwards the gene has exactly the extracted isoforms with their extracted ids, and those it already had keep their row ids |
| Store.GeneConverges | FlybaseUpdater.py:126-182 | (corrected) all the row statements of a comparison leave the gene in line with the report; a second comparison plans nothing |
| Store.NothingLeftToDo | FlybaseUpdater.py:128-171 | rows that match the extraction leave nothing to insert, delete or update |
| Store.AsWrittenDeleteKeepsMultiDigitIds | FlybaseUpdater.py:133 | as written: no row whose id has two or more digits is ever deleted |
| Store.AsWrittenDeleteRemovesWrongAlias | FlybaseUpdater.py:131-142 | as written: with aliases a (id 42) and b (id 4) and only b still reported, a is kept and b is deleted; corrected, a is deleted |
| Asset.ImageUrl | FlybaseUpdater.py:190-195 | when the captured `src` holds a `/`, the URL built from it has the same base name as `src`, so the name compared at line 195 is the image's own file name |
| Asset.DecideAssetAsWritten | FlybaseUpdater.py:186-218 | as written: no image means no action, a missing Content-Length header is an error, and otherwise the image is always replaced |
| Asset.DecideAsset | FlybaseUpdater.py:186-218 | no image means no action; the decision fails exactly when the header is missing; a replacement removes the stored file and downloads to the URL's base name |
| Asset.DecideAssetReplaces | FlybaseUpdater.py:195-212 | (corrected) with a numeric header, the image is replaced exactly when its file name or its size differs, an unreadable file counting as 0 bytes |
| Asset.AsWrittenRedownloadsUnchangedImage | FlybaseUpdater.py:212 | an image whose name and size match is downloaded again as written, and kept by the corrected decision |
| Asset.ReplaceDestination | FlybaseUpdater.py:197-200 | the file removed is the stored path under the image root, and the download keeps the URL's base name |
| Asset.Response.constructor | FlybaseUpdater.py:97 | a new response has its whole body unread |
| Asset.Response.Read | FlybaseUpdater.py:104 | `read(n)` returns the next n bytes, or all the remaining bytes when fewer are left |
| Asset.Disk.constructor | FlybaseUpdater.py:102 | the disk holds the given files |
| Asset.Disk.Create | FlybaseUpdater.py:102 | opening for writing leaves an empty file |
| Asset.Disk.Append | FlybaseUpdater.py:106 | a write appends its bytes to the file |
| Asset.Disk.Remove | FlybaseUpdater.py:196-199 | the file is gone and nothing else changes |
| Asset.DownloadGeneIsoformImage | FlybaseUpdater.py:95-107 | a failed open does nothing; otherwise the destination holds the whole body and the image path is set to its base name |
| Asset.DownloadRecordsFileName | FlybaseUpdater.py:107 | the path UPDATE sets the gene's image path to the image's file name and changes no other gene |
| Asset.SyncIsoformImage | FlybaseUpdater.py:185-218 | (corrected) it takes the stored image's size from the disk, then follows the decision: remove the old file, then download and record the new one, or change nothing |
| Credentials.ReadLine | FlybaseUpdater.py:275 | `readline()` returns the text up to and including the first newline, and the two parts rebuild the input |
| Credentials.ParseCredentials | FlybaseUpdater.py:274-286 | a failure carries one of the two messages; on success the fields are stripped and the database name is not empty |
| Credentials.ParseCredentialsOfLines | FlybaseUpdater.py:274-286 | when the first line has at least two comma-separated fields and the second line is not blank, the login is the stripped first and second fields, whatever follows them, and the stripped second line |
| Credentials.FieldsIffComma | FlybaseUpdater.py:275-276 | the first line has at least two fields exactly when it has a comma |
| Credentials.StripKeeps | FlybaseUpdater.py:275 | stripping newlines keeps a comma exactly when the line has one |
| Credentials.LoginMissingIff | FlybaseUpdater.py:275-278 | the login error happens exactly when the first line has no comma |
| Credentials.DatabaseMissingIff | FlybaseUpdater.py:282-285 | the database error happens exactly when the first line has a comma and the second line is blank |
| Credentials.SplitFirstComma | FlybaseUpdater.py:275 | a comma-free text followed by a comma is the first field, and the remaining fields are those of the rest |
| Credentials.SplitAtComma | FlybaseUpdater.py:275 | a user name and password joined by one comma split back into the two |
| Credentials.ReadLineOf | FlybaseUpdater.py:275 | reading a line that ends in a newline gives that line and the rest |
| Credentials.ParseCredentialsFile | FlybaseUpdater.py:274-286 | writing a login in the file layout and parsing it gives the login back |
| Credentials.ExtraFieldsDropped | FlybaseUpdater.py:275-281 | a first line `user,pass,extra` parses to the user name `user` and the password `pass`: fields after the second are dropped, so a password holding a comma is cut at it |
| Updater.ReportUrl | FlybaseUpdater.py:258 | the report URL's length is the prefix, the FlyBase id and `.html` |
| Updater.ReportId | FlybaseUpdater.py:258 | an id recovered from a URL rebuilds that URL |
| Updater.ReportIdOfUrl | FlybaseUpdater.py:258 | every gene's report URL gives its FlyBase id back, so distinct genes fetch distinct pages |
| Updater.CompareAliases | FlybaseUpdater.py:115-143 | (corrected) the alias part of the comparison sends exactly the alias statements of the walk orders it used |
| Updater.CompareIsoforms | FlybaseUpdater.py:145-183 | (corrected) the isoform part sends the UPDATEs, then the INSERT and the DELETE, of the walk orders it used |
| Updater.CompareGeneFlybaseInfo | FlybaseUpdater.py:110-219 | (corrected) the whole callback: its statements, its image decision (on the stored file's size as the disk holds it) and its effect on the files; a replacement whose download fails to open still removes the old file and changes nothing else on disk |
| Updater.ComparisonConverges | FlybaseUpdater.py:110-219 | (corrected) afterwards the gene has exactly the reported aliases and isoforms, and the new image name after a replacement; comparing again plans nothing |

## Left out

- The regular expressions and the HTML of the report page. Their captures
  are inputs: `Option<string>` for the symbol, the AKA list and the image
  `src`, and one `IsoformBlock` per `line-wrapper` piece.
- `urllib`/`urllib2` and HTTP. The Content-Length header values and the
  download `Response` are inputs, and `HTTPError` is a null response.
- The `httplib` patch and `pyparallelcurl`. Requests run concurrently there;
  the model treats one callback at a time.
- The MySQL driver.
  - Connecting and reconnecting are left out; `DbConn.QueryDB` only records
    the statement.
  - `commit` is left out.
  - `newCursor` is left out.
  - `Store.Exec` is a model of the server's effect on one gene's rows, not
    MySQL itself.
- `LIMIT 1` on the isoform UPDATE. It is part of the text, but `Store.Exec`
  does not need it, because row ids are distinct.
- Read errors on the local image file. Its size is the length of the file
  the `Disk` holds at the stored path, and a file the disk does not hold
  counts as unreadable (size 0).
- Failures of `os.remove`. The source ignores them, and `Disk.Remove` never
  fails.
- Exceptions other than the missing Content-Length header. A failing
  `urlopen` in the image decision and I/O errors during the download are not
  modelled.
- The daemon commands, the PID file and `yapdi`.
- syslog.
- The main loop and its sleep.
- The roster SELECTs that load each gene, with its aliases and isoforms.
  A `GeneRecord` is an input.
- Opening and closing the credentials file, and `exit()`. The parse is a
  function of the file's text that returns the message as an error.
- Python 2 `unicode` and `encode('utf-8')`. Strings are sequences of
  characters.
- Store.UpdateStep, Store.UpdatesEffect and the convergence lemmas rely on the facts
  that stored row ids are distinct and below the next auto-increment id, and
  that each isoform row is filed under its own name. These facts come from
  primary keys and from the loader (line 254); the model does not derive
  them.
- Diff.PairParams, Diff.QuadParams and Diff.StaleIds state only lengths. What
  those lists hold is in their Layout and Members lemmas.

## Findings

| source | as written | input that shows it | evidently intended | confidence | as-written member | corrected member |
|---|---|---|---|---|---|---|
| FlybaseUpdater.py:133 | `aliasesToDelete.extend(str(id))` adds one parameter per digit of the id (line 168 does the same for isoforms) | aliases a (id 42) and b (id 4), with only b still reported: the DELETE gets "4" and "2", keeps the stale a and deletes the current b; since the DELETE selects on `id` over the whole `aliases` table, it also deletes other genes' aliases with ids 2 and 4 (the per-gene model cannot show those) | one parameter `str(id)` per stale row | not executed | Store.AsWrittenDeleteRemovesWrongAlias | Diff.IdParams |
| FlybaseUpdater.py:212 | `size != remoteSize` compares the local size, an `int`, with the Content-Length header, a `str`; in Python 2 they are never equal | an image named x.png, already stored as x.png with 5 bytes, and a header of "5": the image is removed and downloaded again | replace only when the name or the size differs | not executed | Asset.AsWrittenRedownloadsUnchangedImage | Asset.DecideAssetReplaces |
