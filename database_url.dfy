/** The connection URL of the PostgreSQL variant, built from the process
    environment (`get_database_url`). The environment is a parameter: a map
    from variable name to value, where an absent key is an unset variable. */
module DatabaseUrl {
  import opened Http

  type Env = map<string, string>

  datatype ConfigError = IncompleteSettings   // the ValueError raised by get_database_url

  const Scheme := "postgresql://"
  const DefaultPort := "5432"

  /** Python truthiness of `os.getenv(name)`: the variable is set and not empty. */
  predicate IsSet(env: Env, name: string) {
    name in env && env[name] != ""
  }

  /** `os.getenv(name, default)`: the default applies only to an unset
      variable; a variable set to "" yields "". */
  function GetEnv(env: Env, name: string, default: string): string {
    if name in env then env[name] else default
  }

  /** The five settings a URL is made of. */
  datatype UrlParts = UrlParts(user: string, password: string, host: string, port: string, database: string)

  /** The f-string `postgresql://{user}:{password}@{host}:{port}/{database}`. */
  function FormatUrl(p: UrlParts): string {
    Scheme + p.user + ":" + p.password + "@" + p.host + ":" + p.port + "/" + p.database
  }

  /** The settings read from the individual variables, with the port default. */
  function SettingsOf(env: Env): UrlParts {
    UrlParts(GetEnv(env, "POSTGRES_USER", ""), GetEnv(env, "POSTGRES_PASSWORD", ""),
             GetEnv(env, "POSTGRES_HOST", ""), GetEnv(env, "POSTGRES_PORT", DefaultPort),
             GetEnv(env, "POSTGRES_DB", ""))
  }

  /** True when host, database, user and password are all set and non-empty
      (`all([host, database, user, password])`). The port is not checked. */
  predicate SettingsComplete(env: Env) {
    IsSet(env, "POSTGRES_HOST") && IsSet(env, "POSTGRES_DB") &&
    IsSet(env, "POSTGRES_USER") && IsSet(env, "POSTGRES_PASSWORD")
  }

  /** get_database_url: a non-empty DATABASE_URL wins and is returned as it
      is; otherwise the URL is assembled from the individual settings, and a
      missing or empty host, database, user or password is an error. */
  function GetDatabaseUrl(env: Env): (r: Result<string, ConfigError>)
    ensures IsSet(env, "DATABASE_URL") ==> r == Ok(env["DATABASE_URL"])
    ensures !IsSet(env, "DATABASE_URL") ==> (r.Ok? <==> SettingsComplete(env))
    ensures r.Ok? ==> r.value != ""
  {
    if IsSet(env, "DATABASE_URL") then Ok(env["DATABASE_URL"])
    else if !SettingsComplete(env) then Err(IncompleteSettings)
    else Ok(FormatUrl(SettingsOf(env)))
  }

  /** The index of the first `c` in `s`. */
  function FirstIndex(s: string, c: char): (r: Option<nat>)
    ensures r.Some? ==> r.value < |s| && s[r.value] == c && c !in s[..r.value]
    ensures r.None? ==> c !in s
  {
    if s == [] then None
    else if s[0] == c then Some(0)
    else match FirstIndex(s[1..], c)
      case None => None
      case Some(i) =>
        assert s[..i + 1] == [s[0]] + s[1..][..i];
        Some(i + 1)
  }

  /** The index of the last `c` in `s`. */
  function LastIndex(s: string, c: char): (r: Option<nat>)
    ensures r.Some? ==> r.value < |s| && s[r.value] == c && c !in s[r.value + 1..]
    ensures r.None? ==> c !in s
  {
    if s == [] then None
    else if s[|s| - 1] == c then Some(|s| - 1)
    else
      var r := LastIndex(s[..|s| - 1], c);
      assert r.Some? ==> s[r.value + 1..] == s[..|s| - 1][r.value + 1..] + [s[|s| - 1]];
      assert s == s[..|s| - 1] + [s[|s| - 1]];
      r
  }

  /** A reference reading of a connection URL: the user ends at the first
      ':', the password at the last '@', the host at the next ':' and the
      port at the next '/'; the database is the rest. */
  function SplitUrl(url: string): Option<UrlParts> {
    if !(Scheme <= url) then None
    else
      var rest := url[|Scheme|..];
      match FirstIndex(rest, ':')
      case None => None
      case Some(i) =>
        match SplitCredentials(rest[i + 1..])
        case None => None
        case Some(p) => Some(p.(user := rest[..i]))
  }

  /** Reads `password@host:port/database`, the user left empty. */
  function SplitCredentials(tail: string): Option<UrlParts> {
    match LastIndex(tail, '@')
    case None => None
    case Some(j) =>
      match SplitLocation(tail[j + 1..])
      case None => None
      case Some(p) => Some(p.(password := tail[..j]))
  }

  /** Reads `host:port/database`, user and password left empty. */
  function SplitLocation(location: string): Option<UrlParts> {
    match FirstIndex(location, ':')
    case None => None
    case Some(k) =>
      var portDb := location[k + 1..];
      match FirstIndex(portDb, '/')
      case None => None
      case Some(m) => Some(UrlParts("", "", location[..k], portDb[..m], portDb[m + 1..]))
  }

  lemma FirstIndexOfJoin(a: string, c: char, b: string)
    requires c !in a
    ensures FirstIndex(a + [c] + b, c) == Some(|a|)
  {
    var s := a + [c] + b;
    assert s[|a|] == c;
    assert forall i | 0 <= i < |a| :: s[i] == a[i];
    assert forall i | |a| < i <= |s| :: s[..i][|a|] == c;
  }

  lemma LastIndexOfJoin(a: string, c: char, b: string)
    requires c !in b
    ensures LastIndex(a + [c] + b, c) == Some(|a|)
  {
    var s := a + [c] + b;
    assert s[|a|] == c;
    assert forall i | |a| < i < |s| :: s[i] == b[i - |a| - 1];
    assert forall j | 0 < j <= |a| :: s[j..][|a| - j] == c;
  }

  lemma SplitLocationOfJoin(host: string, port: string, database: string)
    requires ':' !in host && '/' !in port
    ensures SplitLocation(host + ":" + port + "/" + database) == Some(UrlParts("", "", host, port, database))
  {
    var portDb := port + "/" + database;
    var location := host + ":" + portDb;
    assert host + ":" + port + "/" + database == location;
    FirstIndexOfJoin(host, ':', portDb);
    assert location[..|host|] == host && location[|host| + 1..] == portDb;
    FirstIndexOfJoin(port, '/', database);
    assert portDb[..|port|] == port && portDb[|port| + 1..] == database;
  }

  lemma SplitCredentialsOfJoin(p: UrlParts)
    requires ':' !in p.host && '/' !in p.port
    requires '@' !in p.host && '@' !in p.port && '@' !in p.database
    ensures SplitCredentials(p.password + "@" + p.host + ":" + p.port + "/" + p.database)
         == Some(p.(user := ""))
  {
    var location := p.host + ":" + p.port + "/" + p.database;
    var tail := p.password + "@" + location;
    assert p.password + "@" + p.host + ":" + p.port + "/" + p.database == tail;
    assert '@' !in location by {
      assert location == p.host + [':'] + p.port + ['/'] + p.database;
    }
    LastIndexOfJoin(p.password, '@', location);
    assert tail[..|p.password|] == p.password && tail[|p.password| + 1..] == location;
    SplitLocationOfJoin(p.host, p.port, p.database);
  }

  /** The assembled URL can be read back into the settings it was made of,
      provided the user has no ':', the host no ':', the port no '/', and
      host, port and database no '@'. The password may contain anything. */
  lemma SplitFormatUrl(p: UrlParts)
    requires ':' !in p.user && ':' !in p.host && '/' !in p.port
    requires '@' !in p.host && '@' !in p.port && '@' !in p.database
    ensures SplitUrl(FormatUrl(p)) == Some(p)
  {
    var tail := p.password + "@" + p.host + ":" + p.port + "/" + p.database;
    var rest := p.user + ":" + tail;
    assert FormatUrl(p) == Scheme + rest;
    assert FormatUrl(p)[|Scheme|..] == rest;
    FirstIndexOfJoin(p.user, ':', tail);
    assert rest[..|p.user|] == p.user && rest[|p.user| + 1..] == tail;
    SplitCredentialsOfJoin(p);
  }

  /** When DATABASE_URL is unset or empty and the settings are complete, the
      result reads back as exactly the user, password, host, database and
      port of the environment, the port being "5432" when POSTGRES_PORT is
      unset. */
  lemma DerivedUrlCarriesSettings(env: Env)
    requires !IsSet(env, "DATABASE_URL") && SettingsComplete(env)
    requires ':' !in env["POSTGRES_USER"] && ':' !in env["POSTGRES_HOST"]
    requires '@' !in env["POSTGRES_HOST"] && '@' !in env["POSTGRES_DB"]
    requires "POSTGRES_PORT" in env ==> '/' !in env["POSTGRES_PORT"] && '@' !in env["POSTGRES_PORT"]
    ensures GetDatabaseUrl(env).Ok?
    ensures SplitUrl(GetDatabaseUrl(env).value)
         == Some(UrlParts(env["POSTGRES_USER"], env["POSTGRES_PASSWORD"], env["POSTGRES_HOST"],
                          if "POSTGRES_PORT" in env then env["POSTGRES_PORT"] else DefaultPort,
                          env["POSTGRES_DB"]))
  {
    SplitFormatUrl(SettingsOf(env));
  }
}
