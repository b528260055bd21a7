/** Validation of the process configuration, and what an accepted one promises
    the code that is built from it. Durations are nanoseconds. */
module Config {
  import opened Wrappers
  import Shutdown

  const MILLISECOND := 1_000_000

  datatype ClientIP = ClientIP(mode: string, trustedHeader: string, trustedProxyCIDRs: seq<string>, trustedProxyCount: int)

  datatype HTTP = HTTP(
    address: string, readHeaderTimeout: int, readTimeout: int, writeTimeout: int, idleTimeout: int,
    requestTimeout: int, maxRequestBytes: int, allowedOrigins: seq<string>, allowCredentials: bool, clientIP: ClientIP)

  datatype Database = Database(
    url: string, maxConnections: int, minConnections: int, maxConnLifetime: int, maxConnIdleTime: int, statementTimeout: int)

  datatype Config = Config(http: HTTP, database: Database, shutdownDrainDelay: int, shutdownTimeout: int)

  datatype Complaint =
    | Address | ReadHeaderTimeout | ReadTimeout | WriteTimeout | IdleTimeout | RequestTimeout
    | RequestBeforeWrite | MaxRequestBytes | CredentialedWildcard
    | HeaderMissing | CIDRsMissing | CIDRInvalid(prefix: string) | ProxyCount | Mode
    | DatabaseURL | MaxConnections | MinConnections | MinAboveMax | MaxConnLifetime | MaxConnIdleTime
    | StatementTimeout | StatementWithinRequest | DrainDelay | ShutdownTimeout

  /** netip.ParsePrefix accepts a text. */
  type PrefixParser = string -> bool

  /** What validate asks of a configuration. */
  predicate Acceptable(cfg: Config, parses: PrefixParser) {
    && cfg.http.address != ""
    && cfg.http.readHeaderTimeout > 0 && cfg.http.readTimeout > 0 && cfg.http.idleTimeout > 0
    && 0 < cfg.http.requestTimeout < cfg.http.writeTimeout
    && cfg.http.maxRequestBytes >= 1
    && !(cfg.http.allowCredentials && "*" in cfg.http.allowedOrigins)
    && AcceptableClientIP(cfg.http.clientIP, parses)
    && cfg.database.url != ""
    && 0 <= cfg.database.minConnections <= cfg.database.maxConnections && cfg.database.maxConnections >= 1
    && cfg.database.maxConnLifetime > 0 && cfg.database.maxConnIdleTime > 0
    && MILLISECOND <= cfg.database.statementTimeout <= cfg.http.requestTimeout
    && cfg.shutdownDrainDelay >= 0 && cfg.shutdownTimeout > 0
  }

  predicate AcceptableClientIP(ip: ClientIP, parses: PrefixParser) {
    || ip.mode == "remote"
    || (ip.mode == "header" && ip.trustedHeader != "")
    || (ip.mode == "xff-cidrs" && ip.trustedProxyCIDRs != [] && forall p :: p in ip.trustedProxyCIDRs ==> parses(p))
    || (ip.mode == "xff-count" && ip.trustedProxyCount >= 1)
  }

  /** Which complaint stands for which broken condition. The request timeout is
      compared with other limits only where these are valid on their own; the two
      connection counts are compared in any case. */
  predicate BrokenHTTP(http: HTTP, c: Complaint) {
    || (c == Address && http.address == "")
    || (c == ReadHeaderTimeout && http.readHeaderTimeout <= 0)
    || (c == ReadTimeout && http.readTimeout <= 0)
    || (c == WriteTimeout && http.writeTimeout <= 0)
    || (c == IdleTimeout && http.idleTimeout <= 0)
    || (c == RequestTimeout && http.requestTimeout <= 0)
    || (c == RequestBeforeWrite && 0 < http.writeTimeout <= http.requestTimeout)
    || (c == MaxRequestBytes && http.maxRequestBytes < 1)
    || (c == CredentialedWildcard && http.allowCredentials && "*" in http.allowedOrigins)
  }

  predicate BrokenClientIP(ip: ClientIP, parses: PrefixParser, c: Complaint) {
    match c
    case HeaderMissing => ip.mode == "header" && ip.trustedHeader == ""
    case CIDRsMissing => ip.mode == "xff-cidrs" && ip.trustedProxyCIDRs == []
    case CIDRInvalid(prefix) => ip.mode == "xff-cidrs" && prefix in ip.trustedProxyCIDRs && !parses(prefix)
    case ProxyCount => ip.mode == "xff-count" && ip.trustedProxyCount < 1
    case Mode => ip.mode !in ["remote", "header", "xff-cidrs", "xff-count"]
    case _ => false
  }

  predicate BrokenDatabase(db: Database, requestTimeout: int, c: Complaint) {
    || (c == DatabaseURL && db.url == "")
    || (c == MaxConnections && db.maxConnections < 1)
    || (c == MinConnections && db.minConnections < 0)
    || (c == MinAboveMax && db.minConnections > db.maxConnections)
    || (c == MaxConnLifetime && db.maxConnLifetime <= 0)
    || (c == MaxConnIdleTime && db.maxConnIdleTime <= 0)
    || (c == StatementTimeout && db.statementTimeout < MILLISECOND)
    || (c == StatementWithinRequest && 0 < requestTimeout < db.statementTimeout && MILLISECOND <= db.statementTimeout)
  }

  predicate Broken(cfg: Config, parses: PrefixParser, c: Complaint) {
    || BrokenHTTP(cfg.http, c)
    || BrokenClientIP(cfg.http.clientIP, parses, c)
    || BrokenDatabase(cfg.database, cfg.http.requestTimeout, c)
    || (c.DrainDelay? && cfg.shutdownDrainDelay < 0)
    || (c.ShutdownTimeout? && cfg.shutdownTimeout <= 0)
  }

  /** errs = append(errs, c), when the condition is broken. */
  method Complain(errs: seq<Complaint>, broken: bool, c: Complaint) returns (more: seq<Complaint>)
    ensures forall x :: x in more <==> x in errs || (broken && x == c)
  {
    more := if broken then errs + [c] else errs;
  }

  method ValidateHTTP(http: HTTP) returns (errs: seq<Complaint>)
    ensures forall c :: c in errs <==> BrokenHTTP(http, c)
  {
    errs := [];
    errs := Complain(errs, http.address == "", Address);
    errs := Complain(errs, http.readHeaderTimeout <= 0, ReadHeaderTimeout);
    errs := Complain(errs, http.readTimeout <= 0, ReadTimeout);
    errs := Complain(errs, http.writeTimeout <= 0, WriteTimeout);
    errs := Complain(errs, http.idleTimeout <= 0, IdleTimeout);
    errs := Complain(errs, http.requestTimeout <= 0, RequestTimeout);
    errs := Complain(errs, http.requestTimeout > 0 && http.writeTimeout > 0 && http.requestTimeout >= http.writeTimeout, RequestBeforeWrite);
    errs := Complain(errs, http.maxRequestBytes < 1, MaxRequestBytes);
    errs := Complain(errs, http.allowCredentials && "*" in http.allowedOrigins, CredentialedWildcard);
  }

  method ValidateClientIP(ip: ClientIP, parses: PrefixParser) returns (errs: seq<Complaint>)
    ensures forall c :: c in errs <==> BrokenClientIP(ip, parses, c)
  {
    errs := [];
    if ip.mode == "remote" {
    } else if ip.mode == "header" {
      if ip.trustedHeader == "" { errs := [HeaderMissing]; }
    } else if ip.mode == "xff-cidrs" {
      var prefixes := ip.trustedProxyCIDRs;
      if prefixes == [] { errs := [CIDRsMissing]; }
      for k := 0 to |prefixes|
        invariant forall c :: c in errs <==>
                    (c.CIDRsMissing? && prefixes == []) || (c.CIDRInvalid? && c.prefix in prefixes[..k] && !parses(c.prefix))
      {
        assert prefixes[..k + 1] == prefixes[..k] + [prefixes[k]];
        if !parses(prefixes[k]) { errs := errs + [CIDRInvalid(prefixes[k])]; }
      }
      assert prefixes[..|prefixes|] == prefixes;
    } else if ip.mode == "xff-count" {
      if ip.trustedProxyCount < 1 { errs := [ProxyCount]; }
    } else {
      errs := [Mode];
    }
  }

  method ValidateDatabase(db: Database, requestTimeout: int) returns (errs: seq<Complaint>)
    ensures forall c :: c in errs <==> BrokenDatabase(db, requestTimeout, c)
  {
    errs := [];
    errs := Complain(errs, db.url == "", DatabaseURL);
    errs := Complain(errs, db.maxConnections < 1, MaxConnections);
    errs := Complain(errs, db.minConnections < 0, MinConnections);
    errs := Complain(errs, db.minConnections > db.maxConnections, MinAboveMax);
    errs := Complain(errs, db.maxConnLifetime <= 0, MaxConnLifetime);
    errs := Complain(errs, db.maxConnIdleTime <= 0, MaxConnIdleTime);
    errs := Complain(errs, db.statementTimeout < MILLISECOND, StatementTimeout);
    errs := Complain(errs, db.statementTimeout >= MILLISECOND && requestTimeout > 0 && db.statementTimeout > requestTimeout, StatementWithinRequest);
  }

  /** Appends one complaint per broken condition, and so none exactly when the
      configuration is acceptable. */
  method Validate(cfg: Config, parses: PrefixParser) returns (errs: seq<Complaint>)
    ensures forall c :: c in errs <==> Broken(cfg, parses, c)
    ensures errs == [] <==> Acceptable(cfg, parses)
  {
    hide BrokenHTTP, BrokenClientIP, BrokenDatabase, Acceptable;
    errs := ValidateHTTP(cfg.http);
    var clientIP := ValidateClientIP(cfg.http.clientIP, parses);
    var database := ValidateDatabase(cfg.database, cfg.http.requestTimeout);
    errs := errs + clientIP + database;
    errs := Complain(errs, cfg.shutdownDrainDelay < 0, DrainDelay);
    errs := Complain(errs, cfg.shutdownTimeout <= 0, ShutdownTimeout);
    AcceptableExactly(cfg, parses);
    assert errs == [] <==> forall c :: c !in errs by {
      if errs != [] {
        assert errs[0] in errs;
      }
    }
  }

  lemma AcceptableExactly(cfg: Config, parses: PrefixParser)
    ensures Acceptable(cfg, parses) <==> forall c :: !Broken(cfg, parses, c)
  {
    if forall c :: !Broken(cfg, parses, c) {
      hide Broken;
      SoundHTTP(cfg, parses);
      SoundClientIP(cfg, parses);
      SoundRest(cfg, parses);
    }
  }

  lemma SoundHTTP(cfg: Config, parses: PrefixParser)
    requires forall c :: !Broken(cfg, parses, c)
    ensures var http := cfg.http;
            && http.address != "" && http.readHeaderTimeout > 0 && http.readTimeout > 0 && http.idleTimeout > 0
            && 0 < http.requestTimeout < http.writeTimeout && http.maxRequestBytes >= 1
            && !(http.allowCredentials && "*" in http.allowedOrigins)
  {
    hide BrokenClientIP, BrokenDatabase;
    assert !Broken(cfg, parses, Address) && !Broken(cfg, parses, ReadHeaderTimeout) && !Broken(cfg, parses, ReadTimeout);
    assert !Broken(cfg, parses, WriteTimeout) && !Broken(cfg, parses, IdleTimeout) && !Broken(cfg, parses, RequestTimeout);
    assert !Broken(cfg, parses, RequestBeforeWrite) && !Broken(cfg, parses, MaxRequestBytes);
    assert !Broken(cfg, parses, CredentialedWildcard);
  }

  lemma SoundClientIP(cfg: Config, parses: PrefixParser)
    requires forall c :: !Broken(cfg, parses, c)
    ensures AcceptableClientIP(cfg.http.clientIP, parses)
  {
    hide BrokenHTTP, BrokenDatabase;
    assert !Broken(cfg, parses, HeaderMissing) && !Broken(cfg, parses, CIDRsMissing);
    assert !Broken(cfg, parses, ProxyCount) && !Broken(cfg, parses, Mode);
    forall p | p in cfg.http.clientIP.trustedProxyCIDRs && cfg.http.clientIP.mode == "xff-cidrs"
      ensures parses(p)
    {
      assert !Broken(cfg, parses, CIDRInvalid(p));
    }
  }

  lemma SoundRest(cfg: Config, parses: PrefixParser)
    requires forall c :: !Broken(cfg, parses, c)
    requires cfg.http.requestTimeout > 0
    ensures var db := cfg.database;
            && db.url != "" && 0 <= db.minConnections <= db.maxConnections && db.maxConnections >= 1
            && db.maxConnLifetime > 0 && db.maxConnIdleTime > 0
            && MILLISECOND <= db.statementTimeout <= cfg.http.requestTimeout
            && cfg.shutdownDrainDelay >= 0 && cfg.shutdownTimeout > 0
  {
    hide BrokenHTTP, BrokenClientIP;
    assert !Broken(cfg, parses, DatabaseURL) && !Broken(cfg, parses, MaxConnections) && !Broken(cfg, parses, MinConnections);
    assert !Broken(cfg, parses, MinAboveMax) && !Broken(cfg, parses, MaxConnLifetime) && !Broken(cfg, parses, MaxConnIdleTime);
    assert !Broken(cfg, parses, StatementTimeout) && !Broken(cfg, parses, StatementWithinRequest);
    assert !Broken(cfg, parses, DrainDelay) && !Broken(cfg, parses, ShutdownTimeout);
  }

  // ---- What is built from a configuration ----

  /** What Build is given besides the configuration: which of the logger, the
      service and the readiness checks are there, that is, not nil. */
  datatype Dependencies = Dependencies(logger: bool, widgetService: bool, readinessChecks: seq<bool>)

  predicate Complete(d: Dependencies) {
    d.logger && d.widgetService && d.readinessChecks != [] && forall present :: present in d.readinessChecks ==> present
  }

  /** Whether the client-IP library refuses its settings with a panic. */
  type ClientIPLibrary = ClientIP -> bool

  /** The library refuses only an empty header, a prefix that cannot be parsed,
      or a count of proxies below one. */
  ghost predicate RefusesOnlyUnusable(library: ClientIPLibrary, parses: PrefixParser) {
    forall ip :: library(ip) ==>
      || (ip.mode == "header" && ip.trustedHeader == "")
      || (ip.mode == "xff-cidrs" && exists p :: p in ip.trustedProxyCIDRs && !parses(p))
      || (ip.mode == "xff-count" && ip.trustedProxyCount < 1)
  }

  datatype Panic = MissingDependency | BodySize | NilReadinessCheck | ClientIPMode | ClientIPSettings | WildcardOrigins

  /** Build, NewJSONDecoder, then NewRouter with its middleware in order: the first
      of their panics that the configuration and the dependencies set off. */
  function BuildPanic(cfg: Config, d: Dependencies, library: ClientIPLibrary): Option<Panic> {
    if !d.logger || !d.widgetService || d.readinessChecks == [] then Some(MissingDependency)
    else if cfg.http.maxRequestBytes < 1 then Some(BodySize)
    else if false in d.readinessChecks then Some(NilReadinessCheck)
    else if cfg.http.clientIP.mode !in ["", "remote", "header", "xff-cidrs", "xff-count"] then Some(ClientIPMode)
    else if library(cfg.http.clientIP) then Some(ClientIPSettings)
    else if cfg.http.allowedOrigins != [] && cfg.http.allowCredentials && "*" in cfg.http.allowedOrigins then Some(WildcardOrigins)
    else None
  }

  /** Duration.Milliseconds(), which truncates toward zero. */
  function Milliseconds(d: int): int { if d < 0 then -(-d / MILLISECOND) else d / MILLISECOND }

  function ShutdownOptions(cfg: Config): Shutdown.Options {
    Shutdown.Options(true, cfg.shutdownDrainDelay, cfg.shutdownTimeout)
  }

  /** Whether the router installs the request deadline. */
  predicate HasRequestDeadline(cfg: Config) { cfg.http.requestTimeout > 0 }

  /** An accepted configuration is safe downstream: the limits nest, the
      statement limit that PostgreSQL gets in whole milliseconds is a limit and
      not above the request's, every request has a deadline that leaves time to
      report it, and building the application panics exactly when something that
      it depends on is missing. */
  lemma AcceptedIsSafe(cfg: Config, parses: PrefixParser, d: Dependencies, library: ClientIPLibrary)
    requires Acceptable(cfg, parses) && RefusesOnlyUnusable(library, parses)
    ensures 1 <= Milliseconds(cfg.database.statementTimeout)
    ensures Milliseconds(cfg.database.statementTimeout) * MILLISECOND <= cfg.database.statementTimeout
            <= cfg.http.requestTimeout < cfg.http.writeTimeout
    ensures HasRequestDeadline(cfg)
    ensures BuildPanic(cfg, d, library) == None <==> Complete(d)
    ensures BuildPanic(cfg, d, library).Some? ==> BuildPanic(cfg, d, library).value in {MissingDependency, NilReadinessCheck}
  {
    assert !library(cfg.http.clientIP);
  }

  /** Below one millisecond the limit would vanish: the accepted bound is the
      exact one under which PostgreSQL is given a limit at all. */
  lemma StatementLimitExactly(d: int)
    ensures Milliseconds(d) >= 1 <==> d >= 1_000_000
    ensures d >= 0 ==> Milliseconds(d) * 1_000_000 <= d < (Milliseconds(d) + 1) * 1_000_000
    ensures d <= 0 ==> (Milliseconds(d) - 1) * 1_000_000 < d <= Milliseconds(d) * 1_000_000
  {
  }

  /** What each shutdown setting is for, in every run: on the signal's path Shutdown
      is called no earlier than the drain delay after the signal, unless serving
      ended by itself, and always with the shutdown timeout before it. */
  lemma ShutdownSettings(cfg: Config, parses: PrefixParser, states: seq<Shutdown.State>, actions: seq<Shutdown.Action>)
    requires Acceptable(cfg, parses) && Shutdown.IsRun(ShutdownOptions(cfg), states, actions)
    requires states[|actions|].shutdownCalls == 1
    ensures var s := states[|actions|];
            && s.shutdownAt.Some?
            && s.shutdownContext == Shutdown.Context(false, Some(s.shutdownAt.value + cfg.shutdownTimeout))
            && Shutdown.Live(s.shutdownContext, s.shutdownAt.value)
            && (s.viaSignal && s.received != Some(Shutdown.Closed) ==>
                  && s.signalledAt.Some? && s.signalledAt.value + cfg.shutdownDrainDelay <= s.shutdownAt.value
                  && s.drainedAt.Some? && s.drainedAt.value + cfg.shutdownDrainDelay <= s.shutdownAt.value)
  {
    Shutdown.ShutdownIsOrdered(ShutdownOptions(cfg), states, actions);
  }

  /** The two shutdown settings together bound the time to stop. */
  lemma StopBudget(cfg: Config, parses: PrefixParser, states: seq<Shutdown.State>, actions: seq<Shutdown.Action>)
    requires Acceptable(cfg, parses) && Shutdown.IsPromptRun(ShutdownOptions(cfg), states, actions)
    requires states[|actions|].signalledAt.Some?
    ensures var s := states[|actions|];
            var limit := s.signalledAt.value + cfg.shutdownDrainDelay + cfg.shutdownTimeout;
            if s.phase.Finished? then s.finishedAt.Some? && s.finishedAt.value <= limit else s.now <= limit
  {
    Shutdown.StopTimeBounded(ShutdownOptions(cfg), states, actions);
  }
}
