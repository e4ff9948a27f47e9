# servus, modelled in Dafny

servus serves static content over HTTP from configured *stores*. A store is
either a local directory or an S3 bucket. Each store is mounted at its own URL
prefix, its *servepath*. Directory browsing is optional per store. This project
models the decision logic at the core of servus and proves properties of it:

- `conf.dfy` (module `Conf`) models the store registry. It covers the two store
  kinds, their accessors and `Config::validate`. `validate` refuses two stores
  that share a servepath.
- `storage_handler.dfy` (module `StorageHandler`) models per-request resolution,
  `StorageHandler::call`. Given a store, the path under its servepath and the
  state of the backend, the handler decides the outcome:
  - a file is served;
  - a 302 redirect to `index.html`;
  - a 200 listing;
  - a 200 carrying an object's bytes;
  - a 404 or a 500;
  - or an error is propagated with `?`: an `io::Error` from opening the path
    or reading its metadata, or the boxed `Box<dyn Error>` an entry's metadata
    failure becomes.
- `cli.dfy` (module `Cli`) models the string handling of `main.rs`. It covers
  `unwrap_address` (bind address to IP and port), the default bind address, and
  `Args::collect`, which turns `--serve <servepath>:<directory>` values into
  Local store tables.
- `wrappers.dfy` (module `Wrappers`) holds `Option` and `Result`.

The backend's reads are inputs to the model, never performed:
- The local filesystem is a snapshot (`LocalFs`). It maps each existing path to
  a regular file, or to a directory with what `read_dir` yields for it. It also
  lists the paths whose open fails for another reason and the paths whose
  metadata cannot be read.
- For S3, the results of `Credentials::new`, region parsing (`parseRegion`),
  `Bucket::new`, `head_object`, `list` and `get_object` are function-valued
  fields of `S3Backend`.
- `Path::join`, `Path::file_name`, IP parsing and the listing template are
  function parameters.

`conf.rs` and `storage_handler.rs` compute values, so they are modelled as
functions and lemmas. `unwrap_address` reassigns its host variable step by step,
and `Args::collect` fills a map by insertion. Both are therefore methods, proved
against specification functions.

## Behaviour worth noting

- If one kept entry's metadata cannot be read, the whole local listing fails;
  no listing is produced with that entry skipped. `read_dir` items that are
  errors themselves are skipped.
- For a non-empty S3 path, every `get_object` error becomes 404, whatever its
  cause.
- The duplicate-servepath error of `validate` does not name the offending
  servepath. Its message is fixed (and spelled "douplicate").

## Model

| member | source | states |
|---|---|---|
| `Conf.StoreAccessors` | servus/src/conf.rs:77-99 | `name()` is exactly `LocalStore` for a Local store and `S3Store` for an S3 store (the `stringify!` of the macro at lines 5-17), so it tells the variants apart. `servepath()` returns the variant's field unchanged. `directory()` is the local directory or the bucket. |
| `Conf.BrowseEnabled` | servus/src/web/storage_handler.rs:85 | `browse.unwrap_or_default()` is true exactly when browse is `Some(true)`, so an unset flag means off. |
| `Conf.Validate` | servus/src/conf.rs:44-56 | Ok exactly when the servepaths of `stores` are pairwise distinct. Otherwise it fails with the fixed duplicate message. As a function of the config, it leaves the config unchanged. |
| `Conf.AnyDuplicateIffShared` | servus/src/conf.rs:45-51 | The nested `any`/`filter`/`count` is true exactly when two different positions share a servepath. |
| `Conf.AnyDuplicateWitness` | servus/src/conf.rs:45-51 | The `any` holds exactly when some store's servepath is counted more than once. |
| `Conf.CountAtLeastTwo` | servus/src/conf.rs:46-50 | The `filter().count()` for a servepath exceeds one exactly when two distinct positions carry it. |
| `Conf.DistinctIffCountsAtMostOne` | servus/src/conf.rs:45-51 | The servepaths are distinct exactly when every servepath is counted at most once. |
| `Conf.CountPermutation` | servus/src/conf.rs:46-50 | The count of a servepath is the same for any permutation of the stores. |
| `Conf.ValidateOrderIndependent` | servus/src/conf.rs:45-51 | Two configs whose stores are permutations of each other get the same verdict. |
| `Conf.ValidateAcceptsSmallLists` | servus/src/conf.rs:45-51 | An empty store list is accepted, and so is a list of one store, because a store counts itself once. |
| `Conf.ValidateComparesExactServepaths` | servus/src/conf.rs:48 | A Local and an S3 store with the same servepath are rejected. `docs`, `Docs` and `docs/` coexist, because the comparison is exact and case-sensitive. |
| `StorageHandler.Status` | servus/src/web/storage_handler.rs:79-191 | The status of each outcome the handler decides itself. It is 200 exactly for a served file, a listing or an object's bytes; 302 exactly for the redirect; 404 exactly for `ErrorNotFound`; 500 exactly for `ErrorInternalServerError`. A propagated error, and only it, has no status here. |
| `StorageHandler.KeptItems` | servus/src/web/storage_handler.rs:99-100 | Keeps exactly the `read_dir` items that are not errors. |
| `StorageHandler.KeptItemsAppend` | servus/src/web/storage_handler.rs:99-100 | Filtering respects concatenation, so kept items stay in `read_dir` order. |
| `StorageHandler.CollectEntries` | servus/src/web/storage_handler.rs:99-102 | Collecting `try_into` results (`TryFrom<DirEntry>`, lines 30-37) succeeds exactly when every kept item's metadata is readable. On success it gives one entry per kept item, in order, with its file name and its metadata's `is_dir`. Otherwise it fails with the error of the first kept item whose metadata fails. |
| `StorageHandler.ResolveLocal` | servus/src/web/storage_handler.rs:79-121 | An open failure (a missing path included) or a failure to read the target's metadata aborts before any classification. A regular file is served as the joined path itself. A directory with browsing off gives a 302 with the single header `Location: index.html` when `index.html` exists in it, and 404 otherwise. A directory with browsing on gives 500 when `read_dir` fails. It gives the first failing kept entry's metadata error when there is one, and 500 when the template fails. Otherwise it is exactly the listing of the collected entries under the joined path's file name (or `""`), with the rendered page. The local branch never returns object bytes. |
| `StorageHandler.SelectRegion` | servus/src/web/storage_handler.rs:128-138 | With an endpoint, the region is `Custom{region or "us-east-1", endpoint}`. Without one, it is the configured region (or `us-east-1`) parsed, and a parse failure gives no region. |
| `StorageHandler.ObjectEntries` | servus/src/web/storage_handler.rs:41-48 | One entry per listed object, in listing order, named by its key and never a directory. |
| `StorageHandler.ResolveS3` | servus/src/web/storage_handler.rs:123-191 | A failure to build the client gives 500. Only the empty path can redirect or list. For the empty path with browsing off, `head_object("index.html")` decides: Ok gives 302, `Http(404)` gives 404, anything else gives 500. With browsing on, a failed listing or zero pages gives 500. Otherwise the result is exactly the listing of the first page only, under the bucket name, every entry a non-directory, or 500 when the template fails. A non-empty path gives 404 exactly when `get_object` fails, and otherwise the object's bytes unchanged. |
| `StorageHandler.Call` | servus/src/web/storage_handler.rs:74-78 | Dispatch on the store variant. A status-302 outcome always carries the single `Location: index.html` header and happens only with browsing off. S3 redirects and listings happen only for the empty path. An S3 store always yields an outcome with a status of its own. It is 500 when the client cannot be built, and for a non-empty path with a ready client it is 404 exactly when `get_object` fails. |
| `Cli.LastIndexOf` | servus/src/main.rs:160 | `rfind(':')`: the index of a `:` with none after it, or none when the string has no `:`. |
| `Cli.FirstIndexOf` | servus/src/main.rs:56 | The first `:`, where `splitn(2, ':')` splits: a `:` with none before it, or none when absent. |
| `Cli.LastIndexOfAt` | servus/src/main.rs:160-161 | In `a + ":" + b` with no `:` in `b`, the split falls right after `a`. |
| `Cli.FirstIndexOfAt` | servus/src/main.rs:56-61 | In `a + ":" + b` with no `:` in `a`, the split falls right after `a`. |
| `Cli.ParseU16` | servus/src/main.rs:174-176 | `parse::<u16>()` accepts only an optional leading `+` followed by decimal digits. The empty text and a lone `+` are refused. |
| `Cli.DecimalStringValue` | servus/src/main.rs:174-176 | The decimal digits of a number read back as that number. |
| `Cli.ParseU16RoundTrip` | servus/src/main.rs:174-176 | Every port in 0..=65535 written in decimal parses back to itself, also with a leading `+`. |
| `Cli.ParseU16RejectsOverflow` | servus/src/main.rs:174-176 | A decimal number of 65536 or more is refused. |
| `Cli.HostAlias` | servus/src/main.rs:166-172 | An empty host becomes `0.0.0.0` and exactly `localhost` becomes `127.0.0.1`. Every other host is passed on unchanged. |
| `Cli.SplitAddress` | servus/src/main.rs:160-164 | With a `:`, host and port text rejoin with `:` into the address, and the port text has no `:`, so the split is at the last `:`. Without one, the whole address is the host and the port is `80`. |
| `Cli.ParseBindAddress` | servus/src/main.rs:159-183 | An invalid port text is reported before the host is looked at. An invalid-IP error means the aliased host did not parse. |
| `Cli.UnwrapAddress` | servus/src/main.rs:159-183 | The step-by-step split and host reassignment give exactly `ParseBindAddress`. |
| `Cli.BindAddressRoundTrip` | servus/src/main.rs:159-183 | `host:port` reads back as (parsed aliased host, port), even when the host itself contains `:`. |
| `Cli.BindAddressWithoutPort` | servus/src/main.rs:162-163 | An address without `:` binds its aliased host on port 80. |
| `Cli.BindAddressTrailingColon` | servus/src/main.rs:174-176 | An address ending in `:` has an empty port and is refused as invalid input. |
| `Cli.DefaultBindAddressParses` | servus/src/main.rs:129-130 | Without a configured address the server binds `0.0.0.0` on port 80. |
| `Cli.SplitServeSpec` | servus/src/main.rs:56-61 | Without `:`, the servepath is `""` and the directory is the whole value. With `:`, the servepath has no `:` and `servepath + ":" + directory` is the value. |
| `Cli.ServeSpecRoundTrip` | servus/src/main.rs:56-61 | A servepath without `:` and any directory, even one containing `:`, joined by `:`, split back into the same two. |
| `Cli.StoreTable` | servus/src/main.rs:62-78 | Each table has exactly the keys `type`, `directory` and `servepath`. `type` is `Local`, and the other two carry the split of the value. |
| `Cli.ServeTables` | servus/src/main.rs:52-80 | One table per `--serve` value, in argument order. |
| `Cli.Collect` | servus/src/main.rs:41-88 | Only the keys `address` and `stores` are set. `address` is set exactly when one was given, holding it. `stores` is set exactly when there is at least one `--serve` value, holding their tables in order. |

## Left out

- `servus/src/web/mod.rs`: the actix `HttpServer` setup, route registration and
  the `Arc` sharing. Routing by the pattern `{servepath}/{filename:.*}` belongs
  to actix. The model starts from the path already matched under a servepath.
- The bootstrap in `main()`: logging setup, layered configuration from files,
  environment and command line, `ProjectDirs` and the `local_ip()` lookup. Also
  the deserialization of the merged configuration into `Config`, which belongs
  to the `config` and `serde` crates.
- The Handlebars template: registration and rendering are the `Renderer`
  parameter. A failure to render is a 500.
- How actix turns a propagated error into a status. The open and the target's
  metadata propagate an `io::Error`. An entry's metadata failure is first boxed
  into a `Box<dyn Error>` by `try_from`, so actix converts it through a
  different `ResponseError`. Both are `IoFailure(stage, error)` outcomes with no
  status of their own; the stage tells the boxed error apart.
- `NamedFile::from_file` is modelled as always succeeding, once the file was
  opened and its metadata read. Its streaming and headers are actix's.
- `StorageHandler.Status`: a served file is counted as 200. The `NamedFile`
  responder builds that response itself, and the model has no request headers,
  so its 304 and 412 answers to conditional requests and its 206 and 416
  answers to range requests are not modelled.
- The rust-s3 client: credentials, bucket construction, HEAD, LIST and GET are
  results supplied by `S3Backend`. `with_path_style()` and request signing are
  not modelled.
- `IpAddr` and `Region` parsing are function parameters. The model does not
  know which strings they accept.
- `Path::join` is a function parameter, and no property about the joined path
  is claimed. In particular nothing keeps a request inside the store's
  directory, because the code performs no such check. Treating the empty
  filename as the S3 bucket root assumes the route yields `""` for it.
- File names are taken after `to_string_lossy()`: a `read_dir` entry's name
  and the listed directory's name are already strings. What the lossy UTF-8
  conversion does to names that are not valid UTF-8 is not modelled.
- The `dbg!` output, async execution, and the `uri` origin that `collect`
  attaches to every value.
- `Cli.ParseU16`: the three `ParseIntError` kinds (empty, invalid digit,
  overflow) are one refusal, because `unwrap_address` turns all of them into the
  same `InvalidInput` error.
