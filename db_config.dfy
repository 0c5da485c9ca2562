/** Choosing and opening the backend: which driver the environment selects, where the
    SQLite file lives, and the process-wide handles that are created on first use and
    reused afterwards. The environment is a map from variable name to value; a variable
    that is not set is absent from it. */
module Db {
  import opened Wrappers
  import opened Text

  type Env = map<string, string>

  datatype Driver = Sqlite | Upstash

  datatype ConfigError = ServerlessWithoutUpstash | UpstashConfigMissing

  /** `process.env[name]` is truthy: set and not empty. */
  predicate IsSet(env: Env, name: string) {
    name in env && env[name] != ""
  }

  /** `(process.env.DB_DRIVER || "").toLowerCase()`. */
  function DriverSetting(env: Env): string {
    AsciiLower(if "DB_DRIVER" in env then env["DB_DRIVER"] else "")
  }

  predicate UpstashConfigured(env: Env) {
    IsSet(env, "UPSTASH_REDIS_REST_URL") && IsSet(env, "UPSTASH_REDIS_REST_TOKEN")
  }

  predicate IsServerless(env: Env) {
    ("VERCEL" in env && env["VERCEL"] == "1") || IsSet(env, "AWS_LAMBDA_FUNCTION_NAME")
  }

  /** `getDriver`: an explicit DB_DRIVER wins; on a serverless platform Upstash must be
      configured; elsewhere Upstash is used when configured and SQLite otherwise. */
  function GetDriver(env: Env): (r: Result<Driver, ConfigError>)
    ensures r == Success(Upstash) <==>
      DriverSetting(env) == "upstash" || (DriverSetting(env) != "sqlite" && UpstashConfigured(env))
    ensures r == Success(Sqlite) <==>
      DriverSetting(env) == "sqlite"
      || (DriverSetting(env) != "upstash" && !IsServerless(env) && !UpstashConfigured(env))
    ensures r.Failure? <==>
      DriverSetting(env) != "upstash" && DriverSetting(env) != "sqlite"
      && IsServerless(env) && !UpstashConfigured(env)
    ensures r.Failure? ==> r.error == ServerlessWithoutUpstash
  {
    var driver := DriverSetting(env);
    if driver == "upstash" then Success(Upstash)
    else if driver == "sqlite" then Success(Sqlite)
    else if IsServerless(env) then
      if UpstashConfigured(env) then Success(Upstash) else Failure(ServerlessWithoutUpstash)
    else if UpstashConfigured(env) then Success(Upstash)
    else Success(Sqlite)
  }

  /** The driver name is compared without regard to the case of its letters. */
  lemma DriverNameIgnoresCase(env: Env)
    requires "DB_DRIVER" in env && env["DB_DRIVER"] == "SQLite"
    ensures GetDriver(env) == Success(Sqlite)
  {
    assert AsciiLower("SQLite") == "sqlite" by {
      assert AsciiLower("SQLite")[0] == 's' && AsciiLower("SQLite")[1] == 'q' && AsciiLower("SQLite")[2] == 'l';
    }
  }

  /** `path.isAbsolute` on POSIX. */
  predicate IsAbsolute(p: string) {
    |p| > 0 && p[0] == '/'
  }

  /** `path.join(a, b)`, without the normalisation of `.`, `..` and repeated separators. */
  function Join(a: string, b: string): string {
    a + "/" + b
  }

  /** `p` names `rel` inside the directory `dir`: `dir`, a separator, then `rel`. */
  predicate Under(p: string, dir: string, rel: string) {
    && |p| == |dir| + 1 + |rel|
    && p[..|dir|] == dir
    && p[|dir|] == '/'
    && p[|dir| + 1..] == rel
  }

  lemma JoinIsUnder(a: string, b: string)
    ensures Under(Join(a, b), a, b)
  {
    var p := Join(a, b);
    assert p[..|a|] == a;
    assert p[|a| + 1..] == b;
  }

  const DefaultRelativePath: string := ".data/pastebin.sqlite"

  /** `SQLITE_DB_PATH` after trimming, or "" when it is not set. */
  function ConfiguredPath(env: Env): string {
    if "SQLITE_DB_PATH" in env then Trim(env["SQLITE_DB_PATH"]) else ""
  }

  /** `getSqlitePath`: a non-blank SQLITE_DB_PATH is used, trimmed, as it is when absolute
      and under the working directory when relative; otherwise `.data/pastebin.sqlite`
      under the working directory. */
  function SqlitePath(env: Env, cwd: string): (p: string)
    ensures ConfiguredPath(env) != "" && IsAbsolute(ConfiguredPath(env)) ==> p == ConfiguredPath(env)
    ensures ConfiguredPath(env) != "" && !IsAbsolute(ConfiguredPath(env)) ==> Under(p, cwd, ConfiguredPath(env))
    ensures ConfiguredPath(env) == "" ==> Under(p, cwd, DefaultRelativePath)
  {
    var configured := ConfiguredPath(env);
    if configured != "" then
      if IsAbsolute(configured) then configured
      else
        JoinIsUnder(cwd, configured);
        Join(cwd, configured)
    else
      assert Join(Join(cwd, ".data"), "pastebin.sqlite") == Join(cwd, DefaultRelativePath);
      JoinIsUnder(cwd, DefaultRelativePath);
      Join(Join(cwd, ".data"), "pastebin.sqlite")
  }

  /** A SQLite connection, opened on a file. */
  datatype SqliteHandle = SqliteHandle(path: string)

  /** A Redis REST client, bound to a URL and a token. */
  datatype RedisHandle = RedisHandle(url: string, token: string)

  /** What `getPasteDb` hands out: an adapter over one of the two handles. */
  datatype Backend = SqliteBackend(sqlite: SqliteHandle) | UpstashBackend(redis: RedisHandle)

  /** The two process-wide cache slots on `globalThis`. */
  class HandleCache {
    var sqlite: Option<SqliteHandle>
    var upstash: Option<RedisHandle>

    constructor ()
      ensures sqlite.None? && upstash.None?
    {
      sqlite := None;
      upstash := None;
    }

    /** `getSqliteDb`: the cached connection if there is one; otherwise open the file at
        `getSqlitePath()` and cache it. */
    method GetSqliteDb(env: Env, cwd: string) returns (h: SqliteHandle)
      modifies this
      ensures old(sqlite).Some? ==> h == old(sqlite).value
      ensures old(sqlite).None? ==> h == SqliteHandle(SqlitePath(env, cwd))
      ensures sqlite == Some(h) && upstash == old(upstash)
    {
      if sqlite.Some? {
        return sqlite.value;
      }
      h := SqliteHandle(SqlitePath(env, cwd));
      sqlite := Some(h);
    }

    /** `getUpstashRedis`: the cached client if there is one; otherwise a missing or empty
        URL or token is an error, and a new client is created and cached. */
    method GetUpstashRedis(env: Env) returns (r: Result<RedisHandle, ConfigError>)
      modifies this
      ensures old(upstash).Some? ==> r == Success(old(upstash).value) && upstash == old(upstash)
      ensures old(upstash).None? && !UpstashConfigured(env) ==>
        r == Failure(UpstashConfigMissing) && upstash.None?
      ensures old(upstash).None? && UpstashConfigured(env) ==>
        r == Success(RedisHandle(env["UPSTASH_REDIS_REST_URL"], env["UPSTASH_REDIS_REST_TOKEN"]))
        && upstash == Some(r.value)
      ensures sqlite == old(sqlite)
    {
      if upstash.Some? {
        return Success(upstash.value);
      }
      if !IsSet(env, "UPSTASH_REDIS_REST_URL") || !IsSet(env, "UPSTASH_REDIS_REST_TOKEN") {
        return Failure(UpstashConfigMissing);
      }
      var client := RedisHandle(env["UPSTASH_REDIS_REST_URL"], env["UPSTASH_REDIS_REST_TOKEN"]);
      upstash := Some(client);
      return Success(client);
    }

    /** `getPasteDb`: select the driver, then build its adapter over the cached handle. */
    method GetPasteDb(env: Env, cwd: string) returns (r: Result<Backend, ConfigError>)
      modifies this
      ensures GetDriver(env).Failure? ==>
        r == Failure(GetDriver(env).error) && sqlite == old(sqlite) && upstash == old(upstash)
      ensures GetDriver(env) == Success(Sqlite) ==>
        && r.Success? && r.value.SqliteBackend? && sqlite == Some(r.value.sqlite)
        && (old(sqlite).Some? ==> sqlite == old(sqlite))
        && (old(sqlite).None? ==> r.value.sqlite == SqliteHandle(SqlitePath(env, cwd)))
        && upstash == old(upstash)
      ensures GetDriver(env) == Success(Upstash) && old(upstash).Some? ==>
        r == Success(UpstashBackend(old(upstash).value)) && upstash == old(upstash)
      ensures GetDriver(env) == Success(Upstash) && old(upstash).None? ==>
        && (r.Success? <==> UpstashConfigured(env))
        && (r.Success? ==>
              && r.value == UpstashBackend(RedisHandle(env["UPSTASH_REDIS_REST_URL"], env["UPSTASH_REDIS_REST_TOKEN"]))
              && upstash == Some(r.value.redis))
        && (r.Failure? ==> r == Failure(UpstashConfigMissing) && upstash.None?)
      ensures GetDriver(env) == Success(Upstash) ==> sqlite == old(sqlite)
    {
      var driver := GetDriver(env);
      if driver.Failure? {
        return Failure(driver.error);
      }
      if driver.value == Upstash {
        var redis := GetUpstashRedis(env);
        if redis.Failure? {
          return Failure(redis.error);
        }
        return Success(UpstashBackend(redis.value));
      }
      var db := GetSqliteDb(env, cwd);
      return Success(SqliteBackend(db));
    }
  }

  /** Once opened, the same handles are returned by every later call, whatever the
      environment then says. */
  method HandlesAreCachedOnce(env1: Env, env2: Env, cwd1: string, cwd2: string)
  {
    var cache := new HandleCache();
    var a := cache.GetSqliteDb(env1, cwd1);
    var b := cache.GetSqliteDb(env2, cwd2);
    assert a == b && a.path == SqlitePath(env1, cwd1);
  }
}
