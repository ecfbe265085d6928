/** Connection strings built from the configuration (config/config.go).
    Loading the YAML file is not modelled; the configuration records keep
    only the fields the two formatters read. */
module Config {
  import opened Wrappers
  import opened Fmt
  import opened Strs

  datatype MySQLConfig = MySQLConfig(host: string, port: int, database: string, username: string, password: string)
  datatype RedisConfig = RedisConfig(host: string, port: int, password: string, db: int)

  const DsnOptions := "?charset=utf8mb4&parseTime=True&loc=Local"

  /** `"%s:%d"` of a host and a port. */
  function HostPort(host: string, port: int): string {
    host + ":" + FormatInt(port)
  }

  /** Position of the last occurrence of `c` in `s`. */
  function LastIndexOf(s: string, c: char): (r: Option<nat>)
    ensures r.Some? ==> r.value < |s| && s[r.value] == c && c !in s[r.value + 1..]
    ensures r.None? <==> c !in s
    decreases |s|
  {
    if s == [] then None
    else if s[|s| - 1] == c then Some(|s| - 1)
    else
      var r := LastIndexOf(s[..|s| - 1], c);
      assert r.Some? ==> s[r.value + 1..] == s[..|s| - 1][r.value + 1..] + [s[|s| - 1]];
      assert r.None? ==> s == s[..|s| - 1] + [s[|s| - 1]];
      r
  }

  /** Splits an address at its last colon and reads the port back. This is
      the model's own inverse of `Addr`, not Go's `net.SplitHostPort`, which
      refuses a host that contains a colon unless it is bracketed. */
  function SplitHostPort(addr: string): Option<(string, int)> {
    match LastIndexOf(addr, ':')
    case None => None
    case Some(i) =>
      match ParseInt(addr[i + 1..])
      case None => None
      case Some(p) => Some((addr[..i], p))
  }

  /** `RedisConfig.Addr`. */
  function Addr(r: RedisConfig): (a: string)
    ensures SplitHostPort(a) == Some((r.host, r.port))
  {
    HostPortRoundTrip(r.host, r.port);
    HostPort(r.host, r.port)
  }

  /** The host and port are recoverable from a formatted address by a split
      at the last colon, even when the host itself contains colons. Such an
      address (an unbracketed IPv6 host) is still not one a Redis client can
      dial. */
  lemma HostPortRoundTrip(host: string, port: int)
    ensures SplitHostPort(HostPort(host, port)) == Some((host, port))
  {
    var s := HostPort(host, port);
    var digits := FormatInt(port);
    assert s[|host|] == ':';
    assert s[|host| + 1..] == digits;
    var i := LastIndexOf(s, ':').value;
    assert forall j :: |host| < j < |s| ==> s[j] == digits[j - |host| - 1];
    assert i == |host|;
    assert s[..i] == host;
    FormatIntRoundTrip(port);
  }

  /** Two Redis configurations with the same address agree on host and port. */
  lemma AddrInjective(a: RedisConfig, b: RedisConfig)
    requires Addr(a) == Addr(b)
    ensures a.host == b.host && a.port == b.port
  {
  }

  /** `MySQLConfig.DSN`: `user:password@tcp(host:port)/database` followed by
      the fixed connection options. */
  function DSN(m: MySQLConfig): (dsn: string)
    ensures var head := m.username + ":" + m.password + "@tcp(";
      |dsn| >= |head| && dsn[..|head|] == head
    ensures var head := m.username + ":" + m.password + "@tcp(";
      var mid := HostPort(m.host, m.port) + ")/" + m.database;
      |dsn| >= |head| + |mid| && dsn[|head|..|head| + |mid|] == mid
    ensures |dsn| >= |DsnOptions| && dsn[|dsn| - |DsnOptions|..] == DsnOptions
    ensures |dsn| == |m.username + ":" + m.password + "@tcp("| + |HostPort(m.host, m.port) + ")/" + m.database| + |DsnOptions|
  {
    var head := m.username + ":" + m.password + "@tcp(";
    var mid := HostPort(m.host, m.port) + ")/" + m.database;
    var dsn := head + mid + DsnOptions;
    assert dsn[..|head|] == head;
    assert dsn[|head|..|head| + |mid|] == mid;
    dsn
  }

  /** A driver reading the user name up to the first colon gets the
      configured user back, provided the name itself has no colon. */
  lemma DsnUser(m: MySQLConfig)
    requires ':' !in m.username
    ensures SplitFirst(DSN(m), ':')[0] == m.username
  {
    var rest := m.password + "@tcp(" + HostPort(m.host, m.port) + ")/" + m.database + DsnOptions;
    assert DSN(m) == m.username + [':'] + rest;
    SplitFirstOfJoin(m.username, rest, ':');
  }
}
