/**
 * The store registry of servus (servus/src/conf.rs): the two store kinds, the
 * accessors every store offers through `Deref<Target = dyn Store>`, and the
 * validation that rejects two stores mounted at the same servepath.
 */
module Conf {
  import opened Wrappers

  /** A directory on the local filesystem served under `servepath`. */
  datatype LocalStore = LocalStore(servepath: string, browse: Option<bool>, directory: string)

  /** An S3 bucket served under `servepath`. */
  datatype S3Store = S3Store(
    servepath: string,
    browse: Option<bool>,
    accesskey: string,
    secretkey: string,
    bucket: string,
    region: Option<string>,
    endpoint: Option<string>)

  /** The closed set of store kinds; the accessors dispatch on the variant. */
  datatype StoreType = Local(local: LocalStore) | S3(s3: S3Store) {

    /** `Store::servepath`: the mount prefix, whatever the variant. */
    function Servepath(): string {
      match this
      case Local(l) => l.servepath
      case S3(s) => s.servepath
    }

    /** `Store::name`: the name of the implementing struct, as `stringify!` gives it. */
    function Name(): string {
      match this
      case Local(_) => "LocalStore"
      case S3(_) => "S3Store"
    }

    /** `DisplayDirectory::directory`: the local root, or the bucket name. */
    function Directory(): string {
      match this
      case Local(l) => l.directory
      case S3(s) => s.bucket
    }
  }

  /** The deserialized configuration. */
  datatype Config = Config(address: Option<string>, stores: seq<StoreType>)

  /** The message `validate` fails with (its spelling is the program's). */
  const DuplicateServepathMessage: string :=
    "Config 'stores' contains douplicate entries for 'servepath'"

  /** `browse.unwrap_or_default()`: browsing is off unless set to true. */
  function BrowseEnabled(browse: Option<bool>): (on: bool)
    ensures on <==> browse == Some(true)
  {
    browse.UnwrapOr(false)
  }

  /** The accessors identify the variant and read the variant's own fields. */
  lemma StoreAccessors(s: StoreType, t: StoreType)
    ensures s.Local? ==> s.Name() == "LocalStore"
    ensures s.S3? ==> s.Name() == "S3Store"
    ensures s.Name() == t.Name() <==> s.Local? == t.Local?
    ensures s.Local? ==> s.Servepath() == s.local.servepath && s.Directory() == s.local.directory
    ensures s.S3? ==> s.Servepath() == s.s3.servepath && s.Directory() == s.s3.bucket
  {
  }

  // ---------------------------------------------------------------------
  // validate, as written: an `any` over the stores of a `filter().count()`

  /** `stores.iter().filter(|s2| s2.servepath() == p).count()` */
  function CountServepath(stores: seq<StoreType>, p: string): nat {
    if stores == [] then 0
    else (if stores[0].Servepath() == p then 1 else 0) + CountServepath(stores[1..], p)
  }

  /** `xs.iter().any(|s| CountServepath(all, s.servepath()) > 1)` */
  predicate AnyDuplicate(xs: seq<StoreType>, all: seq<StoreType>) {
    xs != [] && (CountServepath(all, xs[0].Servepath()) > 1 || AnyDuplicate(xs[1..], all))
  }

  /** The registry invariant: no two entries share a servepath. */
  ghost predicate ServepathsDistinct(stores: seq<StoreType>) {
    forall i, j :: 0 <= i < j < |stores| ==> stores[i].Servepath() != stores[j].Servepath()
  }

  /**
   * `Config::validate`: fails exactly when two stores share a servepath,
   * whichever their variants; it is a function of the config, so it leaves it
   * unchanged.
   */
  function Validate(c: Config): (r: Result<(), string>)
    ensures r.Ok? <==> ServepathsDistinct(c.stores)
    ensures r.Err? ==> r.error == DuplicateServepathMessage
  {
    AnyDuplicateIffShared(c.stores);
    if AnyDuplicate(c.stores, c.stores) then Err(DuplicateServepathMessage) else Ok(())
  }

  // ---------------------------------------------------------------------
  // Lemmas about counting

  lemma {:induction false} CountAppend(a: seq<StoreType>, b: seq<StoreType>, p: string)
    ensures CountServepath(a + b, p) == CountServepath(a, p) + CountServepath(b, p)
  {
    if a == [] {
      assert a + b == b;
    } else {
      assert (a + b)[1..] == a[1..] + b;
      CountAppend(a[1..], b, p);
    }
  }

  /** A store whose servepath is `p` is counted. */
  lemma {:induction false} CountAtLeastOne(stores: seq<StoreType>, i: nat, p: string)
    requires i < |stores| && stores[i].Servepath() == p
    ensures CountServepath(stores, p) >= 1
  {
    if i > 0 {
      CountAtLeastOne(stores[1..], i - 1, p);
    }
  }

  /** A positive count has a witness. */
  lemma {:induction false} CountWitness(stores: seq<StoreType>, p: string) returns (i: nat)
    requires CountServepath(stores, p) >= 1
    ensures i < |stores| && stores[i].Servepath() == p
  {
    if stores[0].Servepath() != p {
      var k := CountWitness(stores[1..], p);
      i := k + 1;
    } else {
      i := 0;
    }
  }

  /** A count of two or more means two distinct positions share `p`, and back. */
  lemma {:induction false} CountAtLeastTwo(stores: seq<StoreType>, p: string)
    ensures CountServepath(stores, p) >= 2 <==>
      exists i, j :: 0 <= i < j < |stores| && stores[i].Servepath() == p && stores[j].Servepath() == p
  {
    if stores == [] {
      return;
    }
    var tail := stores[1..];
    if CountServepath(stores, p) >= 2 {
      if stores[0].Servepath() == p {
        var k := CountWitness(tail, p);
        assert stores[k + 1] == tail[k];
      } else {
        CountAtLeastTwo(tail, p);
        var i, j :| 0 <= i < j < |tail| && tail[i].Servepath() == p && tail[j].Servepath() == p;
        assert stores[i + 1] == tail[i] && stores[j + 1] == tail[j];
      }
    }
    if exists i, j :: 0 <= i < j < |stores| && stores[i].Servepath() == p && stores[j].Servepath() == p {
      var i, j :| 0 <= i < j < |stores| && stores[i].Servepath() == p && stores[j].Servepath() == p;
      if i == 0 {
        CountAtLeastOne(tail, j - 1, p);
      } else {
        assert tail[i - 1] == stores[i] && tail[j - 1] == stores[j];
        CountAtLeastTwo(tail, p);
      }
    }
  }

  /** The `any` finds a store counted twice exactly when one of `xs` is. */
  lemma {:induction false} AnyDuplicateWitness(xs: seq<StoreType>, all: seq<StoreType>)
    ensures AnyDuplicate(xs, all) <==>
      exists k :: 0 <= k < |xs| && CountServepath(all, xs[k].Servepath()) > 1
  {
    if xs != [] {
      AnyDuplicateWitness(xs[1..], all);
      if exists k :: 0 <= k < |xs| && CountServepath(all, xs[k].Servepath()) > 1 {
        var k :| 0 <= k < |xs| && CountServepath(all, xs[k].Servepath()) > 1;
        if k > 0 {
          assert xs[1..][k - 1] == xs[k];
        }
      }
    }
  }

  /** The nested any/filter/count of `validate` detects exactly a shared servepath. */
  lemma AnyDuplicateIffShared(stores: seq<StoreType>)
    ensures AnyDuplicate(stores, stores) <==> !ServepathsDistinct(stores)
  {
    AnyDuplicateWitness(stores, stores);
    if AnyDuplicate(stores, stores) {
      var k :| 0 <= k < |stores| && CountServepath(stores, stores[k].Servepath()) > 1;
      CountAtLeastTwo(stores, stores[k].Servepath());
    }
    if !ServepathsDistinct(stores) {
      var i, j :| 0 <= i < j < |stores| && stores[i].Servepath() == stores[j].Servepath();
      CountAtLeastTwo(stores, stores[i].Servepath());
    }
  }

  /** Distinct servepaths means every servepath is counted at most once. */
  lemma DistinctIffCountsAtMostOne(stores: seq<StoreType>)
    ensures ServepathsDistinct(stores) <==> forall p :: CountServepath(stores, p) <= 1
  {
    if !ServepathsDistinct(stores) {
      var i, j :| 0 <= i < j < |stores| && stores[i].Servepath() == stores[j].Servepath();
      CountAtLeastTwo(stores, stores[i].Servepath());
    }
    if exists p :: CountServepath(stores, p) > 1 {
      var p :| CountServepath(stores, p) > 1;
      CountAtLeastTwo(stores, p);
    }
  }

  /** Counting does not depend on the order of the stores. */
  lemma {:induction false} CountPermutation(a: seq<StoreType>, b: seq<StoreType>, p: string)
    requires multiset(a) == multiset(b)
    ensures CountServepath(a, p) == CountServepath(b, p)
    decreases |a|
  {
    if a == [] {
      assert |multiset(b)| == 0;
      assert b == [];
    } else {
      var x := a[0];
      assert x in multiset(a);
      var k :| 0 <= k < |b| && b[k] == x;
      var rest := b[..k] + b[k + 1..];
      assert b == b[..k] + ([x] + b[k + 1..]);
      assert a == [x] + a[1..];
      assert multiset(a[1..]) == multiset(rest) by {
        assert multiset(a) == multiset{x} + multiset(a[1..]);
        assert multiset(b) == multiset(b[..k]) + (multiset{x} + multiset(b[k + 1..]));
        assert multiset(rest) == multiset(b[..k]) + multiset(b[k + 1..]);
        var ma, mr := multiset(a[1..]), multiset(rest);
        assert multiset{x} + ma == multiset{x} + mr;
        forall y ensures ma[y] == mr[y] {
          assert (multiset{x} + ma)[y] == (multiset{x} + mr)[y];
        }
      }
      CountPermutation(a[1..], rest, p);
      CountAppend(b[..k], [x] + b[k + 1..], p);
      CountAppend([x], b[k + 1..], p);
      CountAppend(b[..k], b[k + 1..], p);
      CountAppend([x], a[1..], p);
    }
  }

  /** The verdict of `validate` does not depend on the order of `stores`. */
  lemma ValidateOrderIndependent(c: Config, d: Config)
    requires multiset(c.stores) == multiset(d.stores)
    ensures Validate(c) == Validate(d)
  {
    DistinctIffCountsAtMostOne(c.stores);
    DistinctIffCountsAtMostOne(d.stores);
    if Validate(c).Ok? != Validate(d).Ok? {
      var p: string :| CountServepath(c.stores, p) > 1 || CountServepath(d.stores, p) > 1;
      CountPermutation(c.stores, d.stores, p);
    }
  }

  /** An empty list and any one-store list are accepted: a store counts itself once. */
  lemma ValidateAcceptsSmallLists(c: Config)
    requires |c.stores| <= 1
    ensures Validate(c) == Ok(())
  {
  }

  /**
   * A Local and an S3 store mounted at the same servepath are rejected, while
   * servepaths that differ only in case or a trailing slash coexist.
   */
  lemma ValidateComparesExactServepaths(l: LocalStore, s: S3Store)
    ensures l.servepath == s.servepath ==>
      Validate(Config(None, [Local(l), S3(s)])) == Err(DuplicateServepathMessage)
    ensures Validate(Config(None, [
      Local(LocalStore("docs", None, "/srv/a")),
      Local(LocalStore("Docs", None, "/srv/b")),
      S3(s.(servepath := "docs/"))])).Ok?
  {
    if l.servepath == s.servepath {
      var pair := [Local(l), S3(s)];
      assert pair[0].Servepath() == pair[1].Servepath();
      assert !ServepathsDistinct(pair);
    }
    var stores := [
      Local(LocalStore("docs", None, "/srv/a")),
      Local(LocalStore("Docs", None, "/srv/b")),
      S3(s.(servepath := "docs/"))];
    assert stores[0].Servepath()[0] != stores[1].Servepath()[0];
    assert |stores[0].Servepath()| != |stores[2].Servepath()|;
    assert stores[1].Servepath()[0] != stores[2].Servepath()[0];
  }
}
