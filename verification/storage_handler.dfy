/**
 * Per-request resolution of servus (servus/src/web/storage_handler.rs,
 * `StorageHandler::call`): given a store, the request path relative to the
 * store's servepath and the state of the backend, decide what is sent back.
 *
 * The backend's reads are inputs: a snapshot of the local filesystem, and for
 * S3 the results the client calls would return. Path joining, the file name of
 * a path, region parsing and the listing template are function parameters.
 */
module StorageHandler {
  import opened Wrappers
  import opened Conf

  /** One line of a listing. */
  datatype BrowseEntry = BrowseEntry(name: string, isDir: bool)

  /** What the listing template is rendered from. */
  datatype BrowseData = BrowseData(dirname: string, entries: seq<BrowseEntry>)

  datatype Header = Header(name: string, value: string)

  /** An `io::Error`, kept abstract except for the kind the open of a missing path gives. */
  datatype IoError = NotFoundError | OsError(code: int)

  /**
   * Which local operation a propagated error came from. Open and FileMetadata
   * errors reach the framework as an `io::Error`; an EntryMetadata error is
   * first boxed into a `Box<dyn Error>` by the entry conversion.
   */
  datatype IoStage = Open | FileMetadata | EntryMetadata

  /** The outcome of one request. */
  datatype Response =
    | NamedFile(path: string)                   // 200, streamed by the file-serving primitive
    | Found(headers: seq<Header>)                // 302
    | Listing(data: BrowseData, page: string)   // 200 with the rendered listing
    | ObjectBytes(body: seq<bv8>)                // 200 with the object's bytes
    | NotFound                                   // 404
    | InternalServerError                        // 500
    | IoFailure(stage: IoStage, error: IoError)  // an error propagated with `?`; the framework picks its status

  /**
   * The HTTP status of a response, where the handler decides it. A served file
   * counts as 200; conditional and range requests are outside the model.
   */
  function Status(r: Response): (code: Option<nat>)
    ensures code.None? <==> r.IoFailure?
    ensures code.Some? ==> code.value in {200, 302, 404, 500}
    ensures code == Some(200) <==> r.NamedFile? || r.Listing? || r.ObjectBytes?
    ensures code == Some(302) <==> r.Found?
    ensures code == Some(404) <==> r.NotFound?
    ensures code == Some(500) <==> r.InternalServerError?
  {
    match r
    case NamedFile(_) => Some(200)
    case Found(_) => Some(302)
    case Listing(_, _) => Some(200)
    case ObjectBytes(_) => Some(200)
    case NotFound => Some(404)
    case InternalServerError => Some(500)
    case IoFailure(_, _) => None
  }

  const IndexFile: string := "index.html"

  /** The one header of the index redirect. */
  const LocationIndex: Header := Header("Location", IndexFile)

  /** The listing template: `None` when rendering fails. */
  type Renderer = BrowseData -> Option<string>

  // ---------------------------------------------------------------------
  // Local stores

  /** `DirEntry::metadata()`: `Ok(is_dir)` or the error. */
  type Metadata = Result<bool, IoError>

  /** One item of `read_dir`: an error, or an entry with its name and metadata. */
  datatype DirItem = ItemError(error: IoError) | Item(fileName: string, metadata: Metadata)

  /** What a path names: a regular file, or a directory with what `read_dir` yields for it. */
  datatype Node = RegularFile | Directory(readDir: Result<seq<DirItem>, IoError>)

  /**
   * A snapshot of the local filesystem: the nodes that exist, the paths whose
   * open fails for another reason, and the paths whose metadata cannot be read.
   */
  datatype LocalFs = LocalFs(
    nodes: map<string, Node>,
    openFailures: map<string, IoError>,
    metadataFailures: map<string, IoError>)

  /** `Path::join` and `Path::file_name`. */
  datatype PathOps = PathOps(join: (string, string) -> string, fileName: string -> Option<string>)

  /** `Path::exists`: the path names a node whose metadata can be read. */
  predicate Exists(fs: LocalFs, path: string) {
    path in fs.nodes && path !in fs.metadataFailures
  }

  /** The `read_dir` items that are not errors, in `read_dir` order. */
  function KeptItems(items: seq<DirItem>): (kept: seq<DirItem>)
    ensures |kept| <= |items|
    ensures forall it :: it in kept ==> it.Item? && it in items
    ensures forall it :: it in items && it.Item? ==> it in kept
  {
    if items == [] then []
    else if items[0].ItemError? then KeptItems(items[1..])
    else [items[0]] + KeptItems(items[1..])
  }

  /** Keeping the good items of a concatenation keeps those of each part, in order. */
  lemma {:induction false} KeptItemsAppend(a: seq<DirItem>, b: seq<DirItem>)
    ensures KeptItems(a + b) == KeptItems(a) + KeptItems(b)
  {
    if a == [] {
      assert a + b == b;
    } else {
      assert (a + b)[1..] == a[1..] + b;
      KeptItemsAppend(a[1..], b);
    }
  }

  /**
   * `contents.filter(is_ok).map(try_into).collect::<Result<Vec<_>, _>>()`:
   * succeeds when every kept item has readable metadata, with one entry per kept
   * item in order; otherwise fails with the error of the first kept item whose
   * metadata cannot be read.
   */
  function CollectEntries(items: seq<DirItem>): (r: Result<seq<BrowseEntry>, IoError>)
    ensures var kept := KeptItems(items);
      r.Ok? <==> forall i :: 0 <= i < |kept| ==> kept[i].metadata.Ok?
    ensures var kept := KeptItems(items);
      r.Ok? ==>
        && |r.value| == |kept|
        && forall i :: 0 <= i < |kept| ==>
             r.value[i] == BrowseEntry(kept[i].fileName, kept[i].metadata.value)
    ensures var kept := KeptItems(items);
      r.Err? ==>
        exists i :: && 0 <= i < |kept|
                    && kept[i].metadata == Err(r.error)
                    && forall j :: 0 <= j < i ==> kept[j].metadata.Ok?
  {
    if items == [] then Ok([])
    else
      match items[0]
      case ItemError(_) =>
        assert KeptItems(items) == KeptItems(items[1..]);
        CollectEntries(items[1..])
      case Item(name, meta) =>
        match meta
        case Err(e) =>
          assert KeptItems(items)[0] == items[0];
          Err(e)
        case Ok(isDir) =>
          match CollectEntries(items[1..])
          case Err(e) =>
            var kept := KeptItems(items);
            assert kept[1..] == KeptItems(items[1..]);
            Err(e)
          case Ok(rest) =>
            var kept := KeptItems(items);
            assert kept[1..] == KeptItems(items[1..]);
            Ok([BrowseEntry(name, isDir)] + rest)
  }

  /**
   * The local branch of `StorageHandler::call`: open the joined path; a
   * directory redirects to its index, fails with 404, or is listed, depending
   * on the browse flag; anything else is served as a file.
   */
  function ResolveLocal(store: LocalStore, rel: string, fs: LocalFs, paths: PathOps, render: Renderer): (r: Response)
    ensures var p := paths.join(store.directory, rel);
      // an open or metadata failure aborts before any classification
      && (p in fs.openFailures ==> r == IoFailure(Open, fs.openFailures[p]))
      && (p !in fs.openFailures && p !in fs.nodes ==> r == IoFailure(Open, NotFoundError))
      && (p !in fs.openFailures && p in fs.nodes && p in fs.metadataFailures ==>
            r == IoFailure(FileMetadata, fs.metadataFailures[p]))
      && (r.NamedFile? <==> Exists(fs, p) && p !in fs.openFailures && fs.nodes[p].RegularFile?)
      && (r.NamedFile? ==> r.path == p)
    ensures var p := paths.join(store.directory, rel);
      // with browsing off, a directory redirects to its index.html or is not found
      Exists(fs, p) && p !in fs.openFailures && fs.nodes[p].Directory? && !BrowseEnabled(store.browse) ==>
        r == (if Exists(fs, paths.join(p, IndexFile)) then Found([LocationIndex]) else NotFound)
    ensures var p := paths.join(store.directory, rel);
      (r.Found? ==> r.headers == [LocationIndex] && !BrowseEnabled(store.browse)) &&
      (r.NotFound? ==> !BrowseEnabled(store.browse) && !Exists(fs, paths.join(p, IndexFile)))
    ensures var p := paths.join(store.directory, rel);
      // with browsing on, a directory is listed unless read_dir, an entry's metadata or the template fails
      Exists(fs, p) && p !in fs.openFailures && fs.nodes[p].Directory? && BrowseEnabled(store.browse) ==>
        match fs.nodes[p].readDir
        case Err(_) => r == InternalServerError
        case Ok(items) =>
          match CollectEntries(items)
          case Err(e) => r == IoFailure(EntryMetadata, e)
          case Ok(entries) =>
            var data := BrowseData(paths.fileName(p).UnwrapOr(""), entries);
            r == (match render(data) case Some(page) => Listing(data, page) case None => InternalServerError)
    ensures var p := paths.join(store.directory, rel);
      // a listing lists the directory's readable items, under the directory's file name
      r.Listing? ==>
        && BrowseEnabled(store.browse)
        && fs.nodes[p].Directory? && fs.nodes[p].readDir.Ok?
        && CollectEntries(fs.nodes[p].readDir.value) == Ok(r.data.entries)
        && r.data.dirname == paths.fileName(p).UnwrapOr("")
        && render(r.data) == Some(r.page)
    ensures var p := paths.join(store.directory, rel);
      // one unreadable entry aborts the whole listing
      r.IoFailure? && r.stage == EntryMetadata ==>
        && BrowseEnabled(store.browse)
        && fs.nodes[p].Directory? && fs.nodes[p].readDir.Ok?
        && CollectEntries(fs.nodes[p].readDir.value) == Err(r.error)
    ensures !r.ObjectBytes?
  {
    var p := paths.join(store.directory, rel);
    if p in fs.openFailures then IoFailure(Open, fs.openFailures[p])
    else if p !in fs.nodes then IoFailure(Open, NotFoundError)
    else if p in fs.metadataFailures then IoFailure(FileMetadata, fs.metadataFailures[p])
    else
      match fs.nodes[p]
      case RegularFile => NamedFile(p)
      case Directory(listing) =>
        if !BrowseEnabled(store.browse) then
          if Exists(fs, paths.join(p, IndexFile)) then Found([LocationIndex]) else NotFound
        else
          match listing
          case Err(_) => InternalServerError
          case Ok(items) =>
            match CollectEntries(items)
            case Err(e) => IoFailure(EntryMetadata, e)
            case Ok(entries) =>
              var data := BrowseData(paths.fileName(p).UnwrapOr(""), entries);
              match render(data)
              case None => InternalServerError
              case Some(page) => Listing(data, page)
  }

  // ---------------------------------------------------------------------
  // S3 stores

  datatype Region = Custom(region: string, endpoint: string) | Named(name: string)

  /** The string `Region::UsEast1` displays as, the default region. */
  const UsEast1: string := "us-east-1"

  /** An `S3Error`: an HTTP status from the service, or any other failure. */
  datatype S3Error = Http(status: int) | OtherS3Error

  datatype S3Object = S3Object(key: string)

  /** One page of a bucket listing. */
  datatype ListPage = ListPage(contents: seq<S3Object>)

  /** What the S3 client calls return, for the requests the handler makes. */
  datatype S3Backend = S3Backend(
    credentials: (string, string) -> bool,
    parseRegion: string -> Option<Region>,
    newBucket: (string, Region) -> bool,
    headObject: string -> Result<(), S3Error>,
    list: (string, string) -> Result<seq<ListPage>, S3Error>,
    getObject: string -> Result<seq<bv8>, S3Error>)

  /**
   * The region the client is built for: with an endpoint, a custom region
   * named by the configured region (default us-east-1); without one, the
   * configured region string (default us-east-1) parsed, `None` if that fails.
   */
  function SelectRegion(store: S3Store, parseRegion: string -> Option<Region>): (r: Option<Region>)
    ensures store.endpoint.Some? ==>
      r == Some(Custom(if store.region.Some? then store.region.value else UsEast1, store.endpoint.value))
    ensures store.endpoint.None? && store.region.None? ==> r == parseRegion("us-east-1")
    ensures store.endpoint.None? && store.region.Some? ==> r == parseRegion(store.region.value)
  {
    match store.endpoint
    case Some(endpoint) => Some(Custom(store.region.UnwrapOr(UsEast1), endpoint))
    case None => parseRegion(store.region.UnwrapOr(UsEast1))
  }

  /** `From<&Object> for BrowseEntry`: the key, never a directory. */
  function ObjectEntries(objects: seq<S3Object>): (entries: seq<BrowseEntry>)
    ensures |entries| == |objects|
    ensures forall i :: 0 <= i < |objects| ==> entries[i] == BrowseEntry(objects[i].key, false)
  {
    if objects == [] then [] else [BrowseEntry(objects[0].key, false)] + ObjectEntries(objects[1..])
  }

  /** Credentials, region and bucket are all built. */
  predicate ClientReady(store: S3Store, backend: S3Backend) {
    && backend.credentials(store.accesskey, store.secretkey)
    && SelectRegion(store, backend.parseRegion).Some?
    && backend.newBucket(store.bucket, SelectRegion(store, backend.parseRegion).value)
  }

  /**
   * The S3 branch of `StorageHandler::call`: only the empty path may redirect
   * or list; any other path is fetched, and every fetch error is a 404.
   */
  function ResolveS3(store: S3Store, rel: string, backend: S3Backend, render: Renderer): (r: Response)
    ensures !ClientReady(store, backend) ==> r == InternalServerError
    ensures rel != "" ==> !r.Found? && !r.Listing?
    ensures ClientReady(store, backend) && rel != "" ==>
      && (r.NotFound? <==> backend.getObject(rel).Err?)
      && (backend.getObject(rel).Ok? ==> r == ObjectBytes(backend.getObject(rel).value))
    ensures ClientReady(store, backend) && rel == "" && !BrowseEnabled(store.browse) ==>
      var head := backend.headObject(IndexFile);
      && (r == Found([LocationIndex]) <==> head.Ok?)
      && (r == NotFound <==> head == Err(Http(404)))
      && (r == InternalServerError <==> head.Err? && head.error != Http(404))
    ensures ClientReady(store, backend) && rel == "" && BrowseEnabled(store.browse) ==>
      var pages := backend.list("", "/");
      && (pages.Err? || pages == Ok([]) ==> r == InternalServerError)
      && (pages.Ok? && |pages.value| > 0 ==>
            var data := BrowseData(store.bucket, ObjectEntries(pages.value[0].contents));
            r == (match render(data) case Some(page) => Listing(data, page) case None => InternalServerError))
      && (r.Listing? ==>
            && pages.Ok? && |pages.value| > 0
            && r.data.dirname == store.bucket
            && |r.data.entries| == |pages.value[0].contents|
            && (forall i :: 0 <= i < |r.data.entries| ==>
                  r.data.entries[i] == BrowseEntry(pages.value[0].contents[i].key, false))
            && render(r.data) == Some(r.page))
    ensures !r.NamedFile? && !r.IoFailure?
  {
    if !backend.credentials(store.accesskey, store.secretkey) then InternalServerError
    else
      match SelectRegion(store, backend.parseRegion)
      case None => InternalServerError
      case Some(region) =>
        if !backend.newBucket(store.bucket, region) then InternalServerError
        else if rel == "" then
          if !BrowseEnabled(store.browse) then
            match backend.headObject(IndexFile)
            case Ok(_) => Found([LocationIndex])
            case Err(Http(404)) => NotFound
            case Err(_) => InternalServerError
          else
            match backend.list("", "/")
            case Err(_) => InternalServerError
            case Ok(pages) =>
              if pages == [] then InternalServerError
              else
                var data := BrowseData(store.bucket, ObjectEntries(pages[0].contents));
                match render(data)
                case None => InternalServerError
                case Some(page) => Listing(data, page)
        else
          match backend.getObject(rel)
          case Err(_) => NotFound
          case Ok(bytes) => ObjectBytes(bytes)
  }

  /** `StorageHandler::call`: dispatch on the store's variant. */
  function Call(store: StoreType, rel: string, fs: LocalFs, paths: PathOps, backend: S3Backend, render: Renderer): (r: Response)
    ensures store.Local? ==> !r.ObjectBytes?
    ensures store.S3? ==> !r.NamedFile? && !r.IoFailure?
    ensures Status(r) == Some(302) ==> r.headers == [LocationIndex] && !BrowseEnabled(
      match store case Local(l) => l.browse case S3(s) => s.browse)
    ensures store.S3? ==> Status(r).Some?
    ensures store.S3? && !ClientReady(store.s3, backend) ==> Status(r) == Some(500)
    ensures store.S3? && ClientReady(store.s3, backend) && rel != "" ==>
      (Status(r) == Some(404) <==> backend.getObject(rel).Err?)
    ensures store.S3? && (r.Found? || r.Listing?) ==> rel == ""
  {
    match store
    case Local(l) => ResolveLocal(l, rel, fs, paths, render)
    case S3(s) => ResolveS3(s, rel, backend, render)
  }
}
