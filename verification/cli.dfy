/**
 * The string handling of servus/src/main.rs: splitting the bind address into
 * host and port (`unwrap_address`), the default bind address, and turning the
 * `--serve` values into Local store tables (`Args::collect`).
 */
module Cli {
  import opened Wrappers

  /** Rust's `u16`. */
  type u16 = x: int | 0 <= x < 0x1_0000

  // ---------------------------------------------------------------------
  // Searching a string for one character

  /** `str::rfind(c)`: the index of the last `c`. */
  function LastIndexOf(s: string, c: char): (r: Option<nat>)
    ensures r.Some? ==> r.value < |s| && s[r.value] == c && c !in s[r.value + 1..]
    ensures r.None? <==> c !in s
  {
    if s == [] then None
    else if s[|s| - 1] == c then Some(|s| - 1)
    else
      var init := s[..|s| - 1];
      assert s == init + [s[|s| - 1]];
      match LastIndexOf(init, c)
      case None => None
      case Some(i) =>
        assert s[i + 1..] == init[i + 1..] + [s[|s| - 1]];
        Some(i)
  }

  /** The index of the first `c`, as `splitn(2, c)` splits. */
  function FirstIndexOf(s: string, c: char): (r: Option<nat>)
    ensures r.Some? ==> r.value < |s| && s[r.value] == c && forall j :: 0 <= j < r.value ==> s[j] != c
    ensures r.None? <==> c !in s
  {
    if s == [] then None
    else if s[0] == c then Some(0)
    else
      assert s == [s[0]] + s[1..];
      match FirstIndexOf(s[1..], c)
      case None => None
      case Some(i) => Some(i + 1)
  }

  /** In `a + [c] + b` with no `c` in `b`, the last `c` is the one after `a`. */
  lemma {:induction false} LastIndexOfAt(a: string, b: string, c: char)
    requires c !in b
    ensures LastIndexOf(a + [c] + b, c) == Some(|a|)
  {
    var s := a + [c] + b;
    if b != [] {
      var init := b[..|b| - 1];
      assert s[|s| - 1] == b[|b| - 1] && b[|b| - 1] in b;
      assert s[..|s| - 1] == a + [c] + init;
      assert forall ch :: ch in init ==> ch in b;
      LastIndexOfAt(a, init, c);
    }
  }

  /** In `a + [c] + b` with no `c` in `a`, the first `c` is the one after `a`. */
  lemma {:induction false} FirstIndexOfAt(a: string, b: string, c: char)
    requires c !in a
    ensures FirstIndexOf(a + [c] + b, c) == Some(|a|)
  {
    var s := a + [c] + b;
    if a != [] {
      assert s[0] == a[0] && a[0] in a;
      assert s[1..] == a[1..] + [c] + b;
      assert forall ch :: ch in a[1..] ==> ch in a;
      FirstIndexOfAt(a[1..], b, c);
    }
  }

  // ---------------------------------------------------------------------
  // `str::parse::<u16>()`

  predicate IsDigit(ch: char) {
    '0' <= ch <= '9'
  }

  predicate AllDigits(s: string) {
    forall i :: 0 <= i < |s| ==> IsDigit(s[i])
  }

  /** The value of a string of decimal digits, read left to right. */
  function DigitsValue(s: string): nat
    requires AllDigits(s)
  {
    if s == [] then 0
    else DigitsValue(s[..|s| - 1]) * 10 + (s[|s| - 1] as int - '0' as int)
  }

  /**
   * `str::parse::<u16>()`: an optional `+`, then one or more decimal digits
   * whose value fits in 16 bits. The empty string, a lone `+`, a `-`, any
   * other character and an overflow all fail.
   */
  function ParseU16(text: string): (r: Option<u16>)
    ensures r.Some? ==> text != [] && text != "+"
    ensures r.Some? ==> forall i :: 0 <= i < |text| ==> IsDigit(text[i]) || (i == 0 && text[i] == '+')
  {
    if text == [] then None
    else
      var digits := if text[0] == '+' then text[1..] else text;
      if digits == [] || !AllDigits(digits) then None
      else if DigitsValue(digits) >= 0x1_0000 then None
      else Some(DigitsValue(digits))
  }

  /** The decimal digits of `n`, without leading zeros. */
  function DecimalString(n: nat): (s: string)
    ensures s != [] && AllDigits(s)
    ensures ':' !in s
  {
    var last := ['0' + (n % 10) as char];
    if n < 10 then last else DecimalString(n / 10) + last
  }

  lemma {:induction false} DecimalStringValue(n: nat)
    ensures DigitsValue(DecimalString(n)) == n
  {
    var s := DecimalString(n);
    assert s[..|s| - 1] == if n < 10 then [] else DecimalString(n / 10);
    if n >= 10 {
      DecimalStringValue(n / 10);
    }
  }

  /** Every port prints and parses back to itself, with or without a leading `+`. */
  lemma ParseU16RoundTrip(port: u16)
    ensures ParseU16(DecimalString(port)) == Some(port)
    ensures ParseU16("+" + DecimalString(port)) == Some(port)
  {
    DecimalStringValue(port);
    assert ("+" + DecimalString(port))[1..] == DecimalString(port);
  }

  /** A number that does not fit in 16 bits is refused. */
  lemma ParseU16RejectsOverflow(n: nat)
    requires n >= 0x1_0000
    ensures ParseU16(DecimalString(n)) == None
  {
    DecimalStringValue(n);
  }

  // ---------------------------------------------------------------------
  // `unwrap_address`

  /** Why a bind address is refused; both are `io::ErrorKind::InvalidInput`. */
  datatype AddressError = InvalidPort | InvalidIp

  /** The bind address used when none is configured. */
  const DefaultBindAddress: string := "0.0.0.0:80"

  /** `cfg.address.unwrap_or_else(|| "0.0.0.0:80".into())` */
  function BindAddress(address: Option<string>): string {
    address.UnwrapOr(DefaultBindAddress)
  }

  /** Host text with the two aliases `unwrap_address` rewrites before IP parsing. */
  function HostAlias(host: string): (h: string)
    ensures host == "" ==> h == "0.0.0.0"
    ensures host == "localhost" ==> h == "127.0.0.1"
    ensures host != "" && host != "localhost" ==> h == host
  {
    if host == "" then "0.0.0.0"
    else if host == "localhost" then "127.0.0.1"
    else host
  }

  /**
   * The host text and the port text of a bind address: split at the last `:`,
   * or the whole address with port 80 when there is no `:`.
   */
  function SplitAddress(addr: string): (parts: (string, string))
    ensures ':' !in addr ==> parts == (addr, "80")
    ensures ':' in addr ==> addr == parts.0 + ":" + parts.1 && ':' !in parts.1
  {
    match LastIndexOf(addr, ':')
    case None => (addr, "80")
    case Some(i) =>
      assert addr == addr[..i] + ":" + addr[i + 1..];
      (addr[..i], addr[i + 1..])
  }

  /**
   * What `unwrap_address` computes: the port is parsed first, then the host
   * after its aliases are applied; `parseIp` stands for `IpAddr`'s parser.
   */
  function ParseBindAddress<Ip>(addr: string, parseIp: string -> Option<Ip>): (r: Result<(Ip, u16), AddressError>)
    ensures ParseU16(SplitAddress(addr).1).None? ==> r == Err(InvalidPort)
    ensures r.Err? && r.error == InvalidIp ==> parseIp(HostAlias(SplitAddress(addr).0)).None?
  {
    var (host, portText) := SplitAddress(addr);
    match ParseU16(portText)
    case None => Err(InvalidPort)
    case Some(port) =>
      match parseIp(HostAlias(host))
      case None => Err(InvalidIp)
      case Some(ip) => Ok((ip, port))
  }

  /**
   * `unwrap_address`: splits at the last `:` and reassigns the host for its two
   * aliases before parsing port and host.
   */
  method UnwrapAddress<Ip>(addr: string, parseIp: string -> Option<Ip>) returns (r: Result<(Ip, u16), AddressError>)
    ensures r == ParseBindAddress(addr, parseIp)
  {
    var ipAddr: string, port: string;
    match LastIndexOf(addr, ':') {
      case Some(lastIndex) =>
        ipAddr, port := addr[..lastIndex], addr[lastIndex..];
      case None =>
        ipAddr, port := addr, ":80";
    }
    if ipAddr == "" {
      ipAddr := "0.0.0.0";
    }
    if ipAddr == "localhost" {
      ipAddr := "127.0.0.1";
    }
    var portNumber := ParseU16(port[1..]);
    if portNumber.None? {
      return Err(InvalidPort);
    }
    var ip := parseIp(ipAddr);
    if ip.None? {
      return Err(InvalidIp);
    }
    return Ok((ip.value, portNumber.value));
  }

  /** `host:port` is read back as the aliased host and the port, whatever `:` the host holds. */
  lemma BindAddressRoundTrip<Ip>(host: string, port: u16, parseIp: string -> Option<Ip>)
    requires parseIp(HostAlias(host)).Some?
    ensures ParseBindAddress(host + ":" + DecimalString(port), parseIp) == Ok((parseIp(HostAlias(host)).value, port))
  {
    var addr := host + ":" + DecimalString(port);
    LastIndexOfAt(host, DecimalString(port), ':');
    assert addr[..|host|] == host && addr[|host| + 1..] == DecimalString(port);
    ParseU16RoundTrip(port);
  }

  /** An address without `:` is a host on port 80. */
  lemma BindAddressWithoutPort<Ip>(addr: string, parseIp: string -> Option<Ip>)
    requires ':' !in addr
    ensures ParseBindAddress(addr, parseIp) ==
      match parseIp(HostAlias(addr))
      case Some(ip) => Ok((ip, 80))
      case None => Err(InvalidIp)
  {
    assert DecimalString(80) == "80";
    ParseU16RoundTrip(80);
  }

  /** A trailing `:` leaves an empty port, which is refused. */
  lemma BindAddressTrailingColon<Ip>(host: string, parseIp: string -> Option<Ip>)
    ensures ParseBindAddress(host + ":", parseIp) == Err(InvalidPort)
  {
  }

  /** Without a configured address the server binds 0.0.0.0 on port 80. */
  lemma DefaultBindAddressParses<Ip>(parseIp: string -> Option<Ip>)
    requires parseIp("0.0.0.0").Some?
    ensures ParseBindAddress(BindAddress(None), parseIp) == Ok((parseIp("0.0.0.0").value, 80))
  {
    assert DefaultBindAddress == "0.0.0.0" + ":" + DecimalString(80);
    BindAddressRoundTrip("0.0.0.0", 80, parseIp);
  }

  // ---------------------------------------------------------------------
  // `Args::collect`

  /** A configuration value as the `config` crate holds it (its origin left out). */
  datatype Value = Str(s: string) | Table(fields: map<string, Value>) | Array(items: seq<Value>)

  /** The command-line arguments. */
  datatype Args = Args(config: Option<string>, address: Option<string>, loglevel: string, serve: seq<string>)

  /**
   * `v.splitn(2, ':')`: `<servepath>:<directory>` at the first `:`, or a bare
   * `<directory>` served at the empty servepath.
   */
  function SplitServeSpec(v: string): (parts: (string, string))
    ensures ':' !in v ==> parts == ("", v)
    ensures ':' in v ==> ':' !in parts.0 && parts.0 + ":" + parts.1 == v
  {
    match FirstIndexOf(v, ':')
    case None => ("", v)
    case Some(i) =>
      assert v == v[..i] + ":" + v[i + 1..];
      (v[..i], v[i + 1..])
  }

  /** A servepath without `:` and any directory, joined by `:`, split back apart. */
  lemma ServeSpecRoundTrip(servepath: string, directory: string)
    requires ':' !in servepath
    ensures SplitServeSpec(servepath + ":" + directory) == (servepath, directory)
  {
    var v := servepath + ":" + directory;
    FirstIndexOfAt(servepath, directory, ':');
    assert v[..|servepath|] == servepath && v[|servepath| + 1..] == directory;
  }

  /** The Local store table one `--serve` value becomes. */
  function StoreTable(v: string): (t: Value)
    ensures t.Table? && t.fields.Keys == {"type", "directory", "servepath"}
    ensures t.fields["type"] == Str("Local")
    ensures t.fields["servepath"].Str? && t.fields["directory"].Str?
    ensures ':' !in v ==> t.fields["servepath"] == Str("") && t.fields["directory"] == Str(v)
    ensures ':' in v ==>
      var servepath, directory := t.fields["servepath"].s, t.fields["directory"].s;
      ':' !in servepath && servepath + ":" + directory == v
  {
    var (servepath, directory) := SplitServeSpec(v);
    Table(map["type" := Str("Local"), "directory" := Str(directory), "servepath" := Str(servepath)])
  }

  /** The `map(...).collect()` over the `--serve` values: one table each, in argument order. */
  function ServeTables(serve: seq<string>): (vals: seq<Value>)
    ensures |vals| == |serve|
    ensures forall i :: 0 <= i < |serve| ==> vals[i] == StoreTable(serve[i])
  {
    if serve == [] then [] else [StoreTable(serve[0])] + ServeTables(serve[1..])
  }

  /**
   * `Args::collect`: the configuration layer the command line contributes. It
   * sets `address` only when one was given and `stores` only when there is at
   * least one `--serve` value.
   */
  method Collect(args: Args) returns (m: map<string, Value>)
    ensures m.Keys <= {"address", "stores"}
    ensures "address" in m <==> args.address.Some?
    ensures args.address.Some? ==> m["address"] == Str(args.address.value)
    ensures "stores" in m <==> |args.serve| > 0
    ensures "stores" in m ==> m["stores"] == Array(ServeTables(args.serve))
  {
    m := map[];
    if args.address.Some? {
      m := m["address" := Str(args.address.value)];
    }
    var vals := ServeTables(args.serve);
    if |vals| > 0 {
      m := m["stores" := Array(vals)];
    }
  }
}
