/**
 * The isoform image of a gene: deciding from the report, the stored path and
 * the sizes whether to replace the local copy, and the download that then
 * writes the file and records its name. The HTTP responses and the local
 * files are objects the caller hands in; the decision is a pure function and
 * the download a method proved against it.
 */
module Asset {
  import opened Wrappers
  import opened PyStr
  import opened PyPath
  import opened Sql
  import opened Store

  /** The directory the isoform images are kept in. */
  const IsoformImageRoot: string := "/home/guoc/modENCODE/app/public/images/isoforms"

  /** The image `src` of a report is relative to this host. */
  const FlybaseHost: string := "http://flybase.org"

  /** The download reads the response in chunks of this many bytes. */
  const Chunk: nat := 16 * 1024

  /** What the image step does: nothing, or remove a local file and download the image to a destination. */
  datatype AssetAction =
    | NoAction
    | Replace(removePath: string, downloadUrl: string, destination: string)

  /**
   * The absolute URL of the image whose `src` the report gives. When `src`
   * is a path, the URL's base name, which line 195 compares with the stored
   * file name, is the base name of `src` itself: the host does not matter.
   */
  function ImageUrl(src: string): (url: string)
    ensures |url| == |FlybaseHost| + |src| && url[..|FlybaseHost|] == FlybaseHost && url[|FlybaseHost|..] == src
    ensures '/' in src ==> Basename(url) == Basename(src)
  {
    if '/' in src then BasenameOfSuffix(FlybaseHost, src); FlybaseHost + src
    else FlybaseHost + src
  }

  /** Where an image is stored locally: its URL's base name under the image root. */
  function LocalPath(url: string): string {
    JoinPath(IsoformImageRoot, Basename(url))
  }

  /** The replacement of the stored image by the one at `url`. */
  function ReplaceWith(url: string, storedPath: string): AssetAction {
    Replace(JoinPath(IsoformImageRoot, storedPath), url, LocalPath(url))
  }

  /**
   * The decision as lines 186-218 make it. `contentLengths` is what
   * `getheaders("Content-Length")` returns; taking its first element fails
   * when the header is missing. When the file names agree the source compares
   * the local size, an `int`, with the header, a `str`: in Python 2 the two
   * are never equal, so the image is replaced whatever the local size is.
   */
  function DecideAssetAsWritten(src: Option<string>, contentLengths: seq<string>, storedPath: string): (r: Result<AssetAction, string>)
    ensures src.None? ==> r == Ok(NoAction)
    ensures src.Some? && contentLengths == [] ==> r.Err?
    ensures src.Some? && contentLengths != [] ==> r == Ok(ReplaceWith(ImageUrl(src.value), storedPath))
  {
    if src.None? then Ok(NoAction)
    else if contentLengths == [] then Err("IndexError: list index out of range")
    else
      var url := ImageUrl(src.value);
      if Basename(url) != storedPath then Ok(ReplaceWith(url, storedPath))
      // `size != remoteSize` between an int and a str: always true
      else Ok(ReplaceWith(url, storedPath))
  }

  /**
   * The decision with the sizes compared as numbers: the header's text
   * against the decimal rendering of the local size, which is 0 when the
   * local file cannot be read.
   */
  function DecideAsset(src: Option<string>, contentLengths: seq<string>, storedPath: string, localSize: Option<nat>): (r: Result<AssetAction, string>)
    ensures src.None? ==> r == Ok(NoAction)
    ensures r.Err? <==> src.Some? && contentLengths == []
    ensures r.Ok? && r.value.Replace? ==> r.value == ReplaceWith(ImageUrl(src.value), storedPath)
  {
    if src.None? then Ok(NoAction)
    else if contentLengths == [] then Err("IndexError: list index out of range")
    else
      var url := ImageUrl(src.value);
      if Basename(url) != storedPath then Ok(ReplaceWith(url, storedPath))
      else if Str(localSize.GetOr(0)) != contentLengths[0] then Ok(ReplaceWith(url, storedPath))
      else Ok(NoAction)
  }

  /**
   * When the server reports the size as a plain decimal number, the image is
   * replaced exactly when its file name changed or the local copy (0 bytes if
   * unreadable) has a different size.
   */
  lemma DecideAssetReplaces(src: string, remoteSize: nat, rest: seq<string>, storedPath: string, localSize: Option<nat>)
    ensures var r := DecideAsset(Some(src), [Str(remoteSize)] + rest, storedPath, localSize);
      r.Ok?
      && (r.value.Replace? <==> Basename(ImageUrl(src)) != storedPath || localSize.GetOr(0) != remoteSize)
  {
    StrInjective(localSize.GetOr(0), remoteSize);
  }

  /**
   * An image whose stored file name and size both match: the corrected
   * decision keeps it, the as-written one downloads it again.
   */
  lemma AsWrittenRedownloadsUnchangedImage()
    ensures DecideAssetAsWritten(Some("/images/x.png"), ["5"], "x.png").value.Replace?
    ensures DecideAsset(Some("/images/x.png"), ["5"], "x.png", Some(5)) == Ok(NoAction)
  {
    var src := "/images/x.png";
    assert src == "/images/" + "x.png" && src[0] == '/';
    BasenameAfterSlash("/images/", "x.png");
    assert Basename(ImageUrl(src)) == "x.png";
    assert Str(5) == "5";
  }

  /** The destination of a replacement is under the image root and has the URL's base name. */
  lemma ReplaceDestination(src: Option<string>, contentLengths: seq<string>, storedPath: string, localSize: Option<nat>)
    requires DecideAsset(src, contentLengths, storedPath, localSize).Ok?
    requires DecideAsset(src, contentLengths, storedPath, localSize).value.Replace?
    ensures var a := DecideAsset(src, contentLengths, storedPath, localSize).value;
      Basename(a.destination) == Basename(a.downloadUrl)
      && a.removePath == JoinPath(IsoformImageRoot, storedPath)
  {
    var url := ImageUrl(src.value);
    BasenameOfJoin(IsoformImageRoot, Basename(url));
  }

  // ---------------------------------------------------------------- the download

  /** An open HTTP response: the bytes of its body not read yet. */
  class Response {
    var remaining: seq<bv8>

    constructor(body: seq<bv8>)
      ensures remaining == body
    {
      remaining := body;
    }

    /** `read(n)`: up to `n` bytes from the front of the body; empty once the body is exhausted. */
    method Read(n: nat) returns (chunk: seq<bv8>)
      modifies this
      ensures |old(remaining)| <= n ==> chunk == old(remaining) && remaining == []
      ensures n < |old(remaining)| ==> chunk == old(remaining)[..n] && remaining == old(remaining)[n..]
    {
      if |remaining| <= n {
        chunk := remaining;
        remaining := [];
      } else {
        chunk := remaining[..n];
        remaining := remaining[n..];
      }
    }
  }

  /** The local file system, as the files it holds. */
  class Disk {
    var files: map<string, seq<bv8>>

    constructor(files: map<string, seq<bv8>>)
      ensures this.files == files
    {
      this.files := files;
    }

    /** `len(open(path, "rb").read())`, or None when the file cannot be opened. */
    function SizeOf(path: string): Option<nat>
      reads this
    {
      if path in files then Some(|files[path]|) else None
    }

    /** `open(path, 'wb')`: the file exists and is empty. */
    method Create(path: string)
      modifies this
      ensures files == old(files)[path := []]
    {
      files := files[path := []];
    }

    /** `fp.write(data)` on a file opened for writing. */
    method Append(path: string, data: seq<bv8>)
      requires path in files
      modifies this
      ensures files == old(files)[path := old(files)[path] + data]
    {
      files := files[path := files[path] + data];
    }

    /** `os.remove(path)`, whose failure the caller ignores. */
    method Remove(path: string)
      modifies this
      ensures files == old(files) - {path}
    {
      files := files - {path};
    }
  }

  /**
   * `downloadGeneIsoformImage`: `response` is null when opening the URL
   * raised `HTTPError`, and then nothing happens. Otherwise the body is
   * copied chunk by chunk into `dest` until a read comes back empty, and the
   * gene's image path is set to the base name of `dest`.
   */
  method DownloadGeneIsoformImage(response: Response?, dest: string, geneId: nat, db: DbConn, disk: Disk)
    modifies response, db, disk
    ensures response == null ==> db.trace == old(db.trace) && disk.files == old(disk.files)
    ensures response != null ==> disk.files == old(disk.files)[dest := old(response.remaining)]
    ensures response != null ==> db.trace == old(db.trace) + [ImagePathQuery(Basename(dest), geneId)]
  {
    if response != null {
      disk.Create(dest);
      ghost var written: seq<bv8> := [];
      while true
        invariant disk.files == old(disk.files)[dest := written]
        invariant written + response.remaining == old(response.remaining)
        invariant db.trace == old(db.trace)
        decreases |response.remaining|
      {
        var chunk := response.Read(Chunk);
        if chunk == [] {
          break;
        }
        disk.Append(dest, chunk);
        written := written + chunk;
      }
      assert response.remaining == [];
      assert written + [] == written;
      db.QueryDB(ImagePathQuery(Basename(dest), geneId));
    }
  }

  /**
   * The statement a successful download issues sets the image path of its
   * gene to the file name of the image, and changes no other gene.
   */
  lemma DownloadRecordsFileName(t: GeneRows, geneId: nat, otherId: nat, url: string)
    ensures Run(t, geneId, [ImagePathQuery(Basename(LocalPath(url)), geneId)]) == t.(imagePath := Basename(url))
    ensures otherId != geneId ==> Run(t, otherId, [ImagePathQuery(Basename(LocalPath(url)), geneId)]) == t
  {
    BasenameOfJoin(IsoformImageRoot, Basename(url));
    FixedQueriesWellFormed("", "", 0, Basename(url), geneId);
    StrInjective(geneId, otherId);
  }

  /** The image statements of a comparison: the path update, when a replacement was downloaded. */
  function ImageStatements(decision: Result<AssetAction, string>, downloaded: bool, geneId: nat): seq<Query> {
    if decision.Ok? && decision.value.Replace? && downloaded
    then [ImagePathQuery(Basename(decision.value.destination), geneId)]
    else []
  }

  /**
   * The image step of `compareGeneFlybaseInfo` (lines 184-218), with the
   * corrected size comparison: decide, and on a replacement remove the old
   * file and download the new one. The size of the stored image is read
   * from the disk (lines 205-210). `response` is the download's response,
   * null when it fails with `HTTPError`.
   */
  method SyncIsoformImage(src: Option<string>, contentLengths: seq<string>, storedPath: string,
                          response: Response?, geneId: nat, db: DbConn, disk: Disk)
    returns (decision: Result<AssetAction, string>)
    modifies response, db, disk
    ensures decision == DecideAsset(src, contentLengths, storedPath, old(disk.SizeOf(JoinPath(IsoformImageRoot, storedPath))))
    ensures db.trace == old(db.trace) + ImageStatements(decision, response != null, geneId)
    ensures !(decision.Ok? && decision.value.Replace?) ==> disk.files == old(disk.files)
    ensures decision.Ok? && decision.value.Replace? && response == null ==>
      disk.files == old(disk.files) - {decision.value.removePath}
    ensures decision.Ok? && decision.value.Replace? && response != null ==>
      disk.files == (old(disk.files) - {decision.value.removePath})[decision.value.destination := old(response.remaining)]
  {
    var localSize := disk.SizeOf(JoinPath(IsoformImageRoot, storedPath));
    decision := DecideAsset(src, contentLengths, storedPath, localSize);
    if decision.Ok? && decision.value.Replace? {
      disk.Remove(decision.value.removePath);
      DownloadGeneIsoformImage(response, decision.value.destination, geneId, db, disk);
    }
  }
}
