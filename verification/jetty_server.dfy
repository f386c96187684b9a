/** The connector configuration of `JettyServer`: how the host, port, key
    material and client-authentication flag are resolved from a properties
    map, which certificates of the key store are handed to the certificate
    checker, the HTTP configuration every connector shares, and the
    class-path entry filters for a web application.

    Jetty objects become plain records. A connector is described by the
    record the returned `Server -> ServerConnector` function would build;
    the server it is attached to plays no part in it. */
module ServerConnectors {
  import opened Wrappers
  import opened JavaText
  import Fwd = ForwardedCustomizer

  const HOST_KEY: string := "jetty.host"
  const HOST_DEFAULT: string := "localhost"
  const PORT_KEY: string := "jetty.port"
  const HTTP_PORT_DEFAULT: string := "8080"
  const HTTPS_PORT_DEFAULT: string := "8443"
  const TRUSTSTORE_KEY: string := "jetty.truststore.pem"
  const KEYSTORE_KEY: string := "jetty.keystore.p12"
  const KEYSTORE_PASSWORD_KEY: string := "jetty.keystore.password"
  const NEED_CLIENT_AUTH_KEY: string := "jetty.needclientauth"
  const NEED_CLIENT_AUTH_DEFAULT: string := "false"
  const HTTP_1_1: string := "HTTP/1.1"

  type Properties = map<string, string>

  /** The exceptions leaving the `Properties` overloads of the connector
      factories. `StoreException` stands for the checked exceptions of the
      store readers (`IOException`, `CertificateException`,
      `KeyStoreException`, `NoSuchAlgorithmException`). */
  datatype Exception =
    | NumberFormatException(input: string)
    | NullPointerException
    | StoreException(message: string)
    | RuntimeException(cause: Exception)

  // ---------------------------------------------------------------------
  // Key stores and the certificate checker
  // ---------------------------------------------------------------------

  datatype StoredCertificate = X509Entry(cert: Fwd.X509) | OtherEntry(kind: string)

  datatype KeyStoreEntry = KeyStoreEntry(alias: string, certificate: StoredCertificate)

  /** A loaded key store, with its entries in the order `aliases()` lists
      them. */
  datatype KeyStore = KeyStore(entries: seq<KeyStoreEntry>)

  /** `CertificateReader.allFromCer(path)`, a library call. */
  type TrustStoreReader = string -> Result<KeyStore, string>

  /** `CertificateReader.fromPkcs12(path, password)`, a library call; the
      password is null when the property is absent. */
  type KeyStoreReader = (string, Option<string>) -> Result<KeyStore, string>

  /** One call of `checkServerCertificateAndScheduleWarning`. */
  datatype CheckCall = CheckCall(trustStore: KeyStore, cert: Fwd.X509)

  /** The checker calls `checkServerCert` makes for the given entries, in
      order: one per X.509 entry, none for any other. */
  function ServerCertChecks(trustStore: KeyStore, entries: seq<KeyStoreEntry>): seq<CheckCall>
    decreases |entries|
  {
    if |entries| == 0 then []
    else
      (match entries[0].certificate
       case X509Entry(c) => [CheckCall(trustStore, c)]
       case OtherEntry(_) => [])
      + ServerCertChecks(trustStore, entries[1..])
  }

  /** The checks for one entry. */
  lemma ServerCertChecksOne(trustStore: KeyStore, e: KeyStoreEntry)
    ensures e.certificate.X509Entry? ==> ServerCertChecks(trustStore, [e]) == [CheckCall(trustStore, e.certificate.cert)]
    ensures e.certificate.OtherEntry? ==> ServerCertChecks(trustStore, [e]) == []
  {
    assert [e][1..] == [];
  }

  /** The checks follow the alias order: those for a concatenation are
      those for the first part followed by those for the second. */
  lemma {:induction false} ServerCertChecksConcat(trustStore: KeyStore, a: seq<KeyStoreEntry>, b: seq<KeyStoreEntry>)
    ensures ServerCertChecks(trustStore, a + b) == ServerCertChecks(trustStore, a) + ServerCertChecks(trustStore, b)
    decreases |a|
  {
    if |a| == 0 {
      assert a + b == b;
    } else {
      assert (a + b)[0] == a[0];
      assert (a + b)[1..] == a[1..] + b;
      ServerCertChecksConcat(trustStore, a[1..], b);
    }
  }

  /** Exactly the X.509 certificates of the key store are checked, each
      against the trust store. */
  lemma {:induction false} ServerCertChecksMembers(trustStore: KeyStore, entries: seq<KeyStoreEntry>, c: CheckCall)
    ensures c in ServerCertChecks(trustStore, entries) <==>
            c.trustStore == trustStore &&
            exists i :: 0 <= i < |entries| && entries[i].certificate == X509Entry(c.cert)
    decreases |entries|
  {
    if |entries| > 0 {
      ServerCertChecksMembers(trustStore, entries[1..], c);
      if c.trustStore == trustStore {
        if exists i :: 0 <= i < |entries[1..]| && entries[1..][i].certificate == X509Entry(c.cert) {
          var i :| 0 <= i < |entries[1..]| && entries[1..][i].certificate == X509Entry(c.cert);
          assert entries[i + 1].certificate == X509Entry(c.cert);
        }
        if exists i :: 0 <= i < |entries| && entries[i].certificate == X509Entry(c.cert) {
          var i :| 0 <= i < |entries| && entries[i].certificate == X509Entry(c.cert);
          if i > 0 {
            assert entries[1..][i - 1].certificate == X509Entry(c.cert);
          }
        }
      }
    }
  }

  /** `checkServerCert`: walks the aliases of the key store and hands every
      X.509 certificate to the checker together with the trust store. */
  method CheckServerCert(trustStore: KeyStore, keyStore: KeyStore) returns (checks: seq<CheckCall>)
    ensures checks == ServerCertChecks(trustStore, keyStore.entries)
    ensures forall c :: c in checks <==>
                          c.trustStore == trustStore &&
                          exists i :: 0 <= i < |keyStore.entries| && keyStore.entries[i].certificate == X509Entry(c.cert)
  {
    var entries := keyStore.entries;
    checks := [];
    var i := 0;
    while i < |entries|
      invariant 0 <= i <= |entries|
      invariant checks == ServerCertChecks(trustStore, entries[..i])
    {
      var entry := entries[i];
      ServerCertChecksConcat(trustStore, entries[..i], [entry]);
      ServerCertChecksOne(trustStore, entry);
      assert entries[..i + 1] == entries[..i] + [entry];
      match entry.certificate {
        case X509Entry(c) =>
          checks := checks + [CheckCall(trustStore, c)];
        case OtherEntry(_) =>
      }
      i := i + 1;
    }
    assert entries[..i] == entries;
    forall c
      ensures c in checks <==>
              c.trustStore == trustStore &&
              exists i :: 0 <= i < |entries| && entries[i].certificate == X509Entry(c.cert)
    {
      ServerCertChecksMembers(trustStore, entries, c);
    }
  }

  // ---------------------------------------------------------------------
  // HTTP configuration and connectors
  // ---------------------------------------------------------------------

  datatype Customizer = SecureRequestCustomizer | ForwardedSecureRequestCustomizer

  datatype HttpConfiguration = HttpConfiguration(
    sendServerVersion: bool,
    sendXPoweredBy: bool,
    sendDateHeader: bool,
    customizers: seq<Customizer>)

  /** `httpConfiguration(customizer)`: the server-version, X-Powered-By and
      date headers are switched off, and the customizer is added when it is
      not null. */
  function HttpConfigurationWith(customizer: Option<Customizer>): (c: HttpConfiguration)
    ensures !c.sendServerVersion && !c.sendXPoweredBy && !c.sendDateHeader
    ensures |c.customizers| <= 1
    ensures forall x :: x in c.customizers <==> customizer == Some(x)
  {
    HttpConfiguration(false, false, false, if customizer.Some? then [customizer.value] else [])
  }

  /** `httpConfiguration()`: the same switches and no customizer. */
  function PlainHttpConfiguration(): (c: HttpConfiguration)
    ensures !c.sendServerVersion && !c.sendXPoweredBy && !c.sendDateHeader
    ensures c.customizers == []
  {
    HttpConfigurationWith(None)
  }

  datatype SslContext = SslContext(
    trustStore: KeyStore,
    keyStore: KeyStore,
    keyStorePassword: Option<string>,
    needClientAuth: bool)

  datatype ConnectionFactory =
    | SslConnectionFactory(context: SslContext, nextProtocol: string)
    | HttpConnectionFactory(configuration: HttpConfiguration)

  datatype ServerConnector = ServerConnector(host: string, port: int, factories: seq<ConnectionFactory>)

  /** The TLS settings of a connector: those of its first SSL factory. */
  function TlsSettings(factories: seq<ConnectionFactory>): Option<SslContext>
    decreases |factories|
  {
    if |factories| == 0 then None
    else if factories[0].SslConnectionFactory? then Some(factories[0].context)
    else TlsSettings(factories[1..])
  }

  /** The HTTP configuration a connector serves: that of its first HTTP
      factory. */
  function HttpSettings(factories: seq<ConnectionFactory>): Option<HttpConfiguration>
    decreases |factories|
  {
    if |factories| == 0 then None
    else if factories[0].HttpConnectionFactory? then Some(factories[0].configuration)
    else HttpSettings(factories[1..])
  }

  /** The TLS overload of `httpsConnector`: exactly two factories, the SSL
      factory first (so TLS is the connector's default protocol) speaking
      HTTP/1.1 to the HTTP factory, carrying its arguments unchanged. */
  function TlsConnector(config: HttpConfiguration, host: string, port: int, trustStore: KeyStore,
                        keyStore: KeyStore, password: Option<string>, needClientAuth: bool): (c: ServerConnector)
    ensures c.host == host && c.port == port
    ensures |c.factories| == 2 && c.factories[0].SslConnectionFactory? && c.factories[1].HttpConnectionFactory?
    ensures TlsSettings(c.factories) == Some(SslContext(trustStore, keyStore, password, needClientAuth))
    ensures HttpSettings(c.factories) == Some(config)
    ensures forall f :: f in c.factories && f.SslConnectionFactory? ==> f.nextProtocol == HTTP_1_1
  {
    var factories := [SslConnectionFactory(SslContext(trustStore, keyStore, password, needClientAuth), HTTP_1_1),
                      HttpConnectionFactory(config)];
    assert factories[1..] == [HttpConnectionFactory(config)];
    ServerConnector(host, port, factories)
  }

  /** The plain overload of `httpConnector`: one HTTP factory and no TLS. */
  function PlainConnector(config: HttpConfiguration, host: string, port: int): (c: ServerConnector)
    ensures c.host == host && c.port == port
    ensures |c.factories| == 1 && c.factories[0].HttpConnectionFactory?
    ensures TlsSettings(c.factories) == None
    ensures HttpSettings(c.factories) == Some(config)
  {
    var factories := [HttpConnectionFactory(config)];
    assert factories[1..] == [];
    ServerConnector(host, port, factories)
  }

  // ---------------------------------------------------------------------
  // Resolution from properties
  // ---------------------------------------------------------------------

  /** `Properties.getProperty(key, default)`. */
  function GetProperty(props: Properties, key: string, default: string): string {
    if key in props then props[key] else default
  }

  /** `Properties.getProperty(key)`: null when the key is absent. */
  function Lookup(props: Properties, key: string): Option<string> {
    if key in props then Some(props[key]) else None
  }

  function ParseNeedClientAuth(props: Properties): bool {
    ParseBoolean(GetProperty(props, NEED_CLIENT_AUTH_KEY, NEED_CLIENT_AUTH_DEFAULT))
  }

  /** What the `Properties` overload of `httpsConnector` yields: the
      connector and the checks `checkServerCert` made on the way. */
  datatype HttpsSetup = HttpsSetup(connector: ServerConnector, checks: seq<CheckCall>)

  /** The `Properties` overload of `httpsConnector`, in the order the
      source evaluates its steps. A bad port is wrapped in a
      `RuntimeException`; a missing store path reaches `Paths.get(null)`,
      whose `NullPointerException` is not caught; a store reader failure is
      wrapped. */
  function ResolveHttps(config: HttpConfiguration, props: Properties, readTrust: TrustStoreReader,
                        readKey: KeyStoreReader): (r: Result<HttpsSetup, Exception>)
    ensures r.Success? ==> TlsSettings(r.value.connector.factories).Some?
    ensures r.Success? ==> r.value.checks == ServerCertChecks(TlsSettings(r.value.connector.factories).value.trustStore,
                                                              TlsSettings(r.value.connector.factories).value.keyStore.entries)
    ensures r.Success? ==> HttpSettings(r.value.connector.factories) == Some(config)
    ensures r.Failure? ==> r.error.RuntimeException? || r.error == NullPointerException
  {
    var host := GetProperty(props, HOST_KEY, HOST_DEFAULT);
    var portText := GetProperty(props, PORT_KEY, HTTPS_PORT_DEFAULT);
    match ParseInt(portText)
    case None => Failure(RuntimeException(NumberFormatException(portText)))
    case Some(port) =>
      if TRUSTSTORE_KEY !in props || KEYSTORE_KEY !in props then Failure(NullPointerException)
      else
        var password := Lookup(props, KEYSTORE_PASSWORD_KEY);
        var needClientAuth := ParseNeedClientAuth(props);
        match readTrust(props[TRUSTSTORE_KEY])
        case Failure(e) => Failure(RuntimeException(StoreException(e)))
        case Success(trustStore) =>
          match readKey(props[KEYSTORE_KEY], password)
          case Failure(e) => Failure(RuntimeException(StoreException(e)))
          case Success(keyStore) =>
            Success(HttpsSetup(TlsConnector(config, host, port, trustStore, keyStore, password, needClientAuth),
                               ServerCertChecks(trustStore, keyStore.entries)))
  }

  /** The `Properties` overload of `httpConnector`: nothing catches the
      `NumberFormatException` of a bad port. */
  function ResolveHttp(config: HttpConfiguration, props: Properties): (r: Result<ServerConnector, Exception>)
    ensures r.Success? ==> TlsSettings(r.value.factories) == None && HttpSettings(r.value.factories) == Some(config)
    ensures r.Failure? ==> r.error.NumberFormatException?
  {
    var host := GetProperty(props, HOST_KEY, HOST_DEFAULT);
    var portText := GetProperty(props, PORT_KEY, HTTP_PORT_DEFAULT);
    match ParseInt(portText)
    case None => Failure(NumberFormatException(portText))
    case Some(port) => Success(PlainConnector(config, host, port))
  }

  /** Both connectors listen on the `jetty.host` value, or on "localhost"
      when it is absent. */
  lemma HostResolution(config: HttpConfiguration, props: Properties, readTrust: TrustStoreReader, readKey: KeyStoreReader)
    ensures ResolveHttps(config, props, readTrust, readKey).Success? ==>
            ResolveHttps(config, props, readTrust, readKey).value.connector.host ==
            (if HOST_KEY in props then props[HOST_KEY] else "localhost")
    ensures ResolveHttp(config, props).Success? ==>
            ResolveHttp(config, props).value.host == (if HOST_KEY in props then props[HOST_KEY] else "localhost")
  {
  }

  /** Both connectors read their port from `jetty.port` as a decimal 32-bit
      integer; only the default differs. */
  lemma PortResolution(config: HttpConfiguration, props: Properties, readTrust: TrustStoreReader, readKey: KeyStoreReader)
    ensures ResolveHttps(config, props, readTrust, readKey).Success? ==>
            var text := if PORT_KEY in props then props[PORT_KEY] else "8443";
            IsDecimal(text) && ResolveHttps(config, props, readTrust, readKey).value.connector.port == DecimalValue(text)
    ensures ResolveHttp(config, props).Success? <==>
            var text := if PORT_KEY in props then props[PORT_KEY] else "8080";
            IsDecimal(text) && INT_MIN <= DecimalValue(text) <= INT_MAX
    ensures ResolveHttp(config, props).Success? ==>
            var text := if PORT_KEY in props then props[PORT_KEY] else "8080";
            ResolveHttp(config, props).value.port == DecimalValue(text)
  {
  }

  lemma DefaultPortValues()
    ensures ParseInt(HTTPS_PORT_DEFAULT) == Some(8443)
    ensures ParseInt(HTTP_PORT_DEFAULT) == Some(8080)
  {
    ParseIntToString(8443);
    ParseIntToString(8080);
    assert IntToString(8443) == HTTPS_PORT_DEFAULT by {
      assert NatToDecimal(8) == "8";
      assert NatToDecimal(84) == "84";
      assert NatToDecimal(844) == "844";
    }
    assert IntToString(8080) == HTTP_PORT_DEFAULT by {
      assert NatToDecimal(8) == "8";
      assert NatToDecimal(80) == "80";
      assert NatToDecimal(808) == "808";
    }
  }

  /** Without `jetty.port` the HTTPS connector listens on 8443 and the HTTP
      connector on 8080. */
  lemma DefaultPorts(config: HttpConfiguration, props: Properties, readTrust: TrustStoreReader, readKey: KeyStoreReader)
    requires PORT_KEY !in props
    ensures ResolveHttps(config, props, readTrust, readKey).Success? ==>
            ResolveHttps(config, props, readTrust, readKey).value.connector.port == 8443
    ensures ResolveHttp(config, props) == Success(PlainConnector(config, GetProperty(props, HOST_KEY, HOST_DEFAULT), 8080))
  {
    DefaultPortValues();
  }

  /** Client authentication is required exactly when `jetty.needclientauth`
      is "true" in any letter case; an absent key means false. */
  lemma NeedClientAuthResolution(config: HttpConfiguration, props: Properties, readTrust: TrustStoreReader, readKey: KeyStoreReader)
    ensures ResolveHttps(config, props, readTrust, readKey).Success? ==>
            (TlsSettings(ResolveHttps(config, props, readTrust, readKey).value.connector.factories).value.needClientAuth <==>
             NEED_CLIENT_AUTH_KEY in props && LowerCase(props[NEED_CLIENT_AUTH_KEY]) == "true")
  {
    ParseBooleanIsLowerTrue(GetProperty(props, NEED_CLIENT_AUTH_KEY, NEED_CLIENT_AUTH_DEFAULT));
    if NEED_CLIENT_AUTH_KEY !in props {
      assert LowerCase(NEED_CLIENT_AUTH_DEFAULT)[0] == 'f';
    }
  }

  /** A port that is not a 32-bit decimal fails both factories before
      anything else is read: wrapped on the HTTPS path, bare on the HTTP
      path. */
  lemma BadPortFailsByPath(config: HttpConfiguration, props: Properties, readTrust: TrustStoreReader, readKey: KeyStoreReader)
    requires PORT_KEY in props && ParseInt(props[PORT_KEY]).None?
    ensures ResolveHttps(config, props, readTrust, readKey) == Failure(RuntimeException(NumberFormatException(props[PORT_KEY])))
    ensures ResolveHttp(config, props) == Failure(NumberFormatException(props[PORT_KEY]))
  {
  }

  /** A missing store path is the one failure of the HTTPS path that is not
      wrapped; the readers are never consulted. */
  lemma MissingStorePathIsUnwrapped(config: HttpConfiguration, props: Properties, readTrust: TrustStoreReader, readKey: KeyStoreReader)
    requires ParseInt(GetProperty(props, PORT_KEY, HTTPS_PORT_DEFAULT)).Some?
    ensures ResolveHttps(config, props, readTrust, readKey) == Failure(NullPointerException) <==>
            TRUSTSTORE_KEY !in props || KEYSTORE_KEY !in props
  {
  }

  /** The HTTPS connector carries exactly the stores the readers returned
      for the configured paths, the password property and the
      client-authentication flag; a reader failure is wrapped. */
  lemma HttpsCarriesStores(config: HttpConfiguration, props: Properties, readTrust: TrustStoreReader, readKey: KeyStoreReader)
    requires ParseInt(GetProperty(props, PORT_KEY, HTTPS_PORT_DEFAULT)).Some?
    requires TRUSTSTORE_KEY in props && KEYSTORE_KEY in props
    ensures readTrust(props[TRUSTSTORE_KEY]).Failure? ==>
            ResolveHttps(config, props, readTrust, readKey) ==
            Failure(RuntimeException(StoreException(readTrust(props[TRUSTSTORE_KEY]).error)))
    ensures readTrust(props[TRUSTSTORE_KEY]).Success? && readKey(props[KEYSTORE_KEY], Lookup(props, KEYSTORE_PASSWORD_KEY)).Failure? ==>
            ResolveHttps(config, props, readTrust, readKey) ==
            Failure(RuntimeException(StoreException(readKey(props[KEYSTORE_KEY], Lookup(props, KEYSTORE_PASSWORD_KEY)).error)))
    ensures ResolveHttps(config, props, readTrust, readKey).Success? <==>
            readTrust(props[TRUSTSTORE_KEY]).Success? && readKey(props[KEYSTORE_KEY], Lookup(props, KEYSTORE_PASSWORD_KEY)).Success?
    ensures ResolveHttps(config, props, readTrust, readKey).Success? ==>
            TlsSettings(ResolveHttps(config, props, readTrust, readKey).value.connector.factories) ==
            Some(SslContext(readTrust(props[TRUSTSTORE_KEY]).value,
                            readKey(props[KEYSTORE_KEY], Lookup(props, KEYSTORE_PASSWORD_KEY)).value,
                            if KEYSTORE_PASSWORD_KEY in props then Some(props[KEYSTORE_PASSWORD_KEY]) else None,
                            ParseNeedClientAuth(props)))
  {
  }

  // ---------------------------------------------------------------------
  // Class-path entry filters
  // ---------------------------------------------------------------------

  /** `Stream.filter`: the kept elements, in their order. */
  function Filter<T>(xs: seq<T>, keep: T -> bool): (r: seq<T>)
    ensures |r| <= |xs|
    ensures forall x :: x in r ==> keep(x)
    decreases |xs|
  {
    if |xs| == 0 then [] else (if keep(xs[0]) then [xs[0]] else []) + Filter(xs[1..], keep)
  }

  /** An element survives the filter exactly when it is an element that
      passes. */
  lemma {:induction false} FilterMembers<T>(xs: seq<T>, keep: T -> bool, x: T)
    ensures x in Filter(xs, keep) <==> x in xs && keep(x)
    decreases |xs|
  {
    if |xs| > 0 {
      FilterMembers(xs[1..], keep, x);
      assert xs == [xs[0]] + xs[1..];
    }
  }

  /** Filtering keeps the order: it distributes over concatenation. */
  lemma {:induction false} FilterConcat<T>(xs: seq<T>, ys: seq<T>, keep: T -> bool)
    ensures Filter(xs + ys, keep) == Filter(xs, keep) + Filter(ys, keep)
    decreases |xs|
  {
    if |xs| == 0 {
      assert xs + ys == ys;
    } else {
      assert (xs + ys)[0] == xs[0];
      assert (xs + ys)[1..] == xs[1..] + ys;
      FilterConcat(xs[1..], ys, keep);
    }
  }

  /** `webInfJars(filter)` over the given class-path entries. */
  function WebInfJars(entries: seq<string>, filter: string -> bool): (r: seq<string>)
    ensures forall e :: e in r <==> e in entries && EndsWith(e, ".jar") && filter(e)
  {
    var jars := Filter(entries, e => EndsWith(e, ".jar"));
    var r := Filter(jars, filter);
    forall e ensures e in r <==> e in entries && EndsWith(e, ".jar") && filter(e) {
      FilterMembers(entries, e => EndsWith(e, ".jar"), e);
      FilterMembers(jars, filter, e);
    }
    r
  }

  /** The test `webInfClassesDirs` applies to an entry. */
  predicate IsClassesEntry(e: string) {
    Contains(e, "classes") || Contains(e, "test-classes")
  }

  /** The second disjunct adds nothing: "test-classes" contains "classes". */
  lemma ClassesEntryIsContainsClasses(e: string)
    ensures IsClassesEntry(e) <==> Contains(e, "classes")
  {
    if Contains(e, "test-classes") {
      var i :| 0 <= i <= |e| - 12 && OccursAt(e, "test-classes", i);
      assert e[i + 5..i + 12] == e[i..i + 12][5..];
      ContainsAt(e, "classes", i + 5);
    }
  }

  /** `webInfClassesDirs(filter)` over the given class-path entries. */
  function WebInfClassesDirs(entries: seq<string>, filter: string -> bool): (r: seq<string>)
    ensures forall e :: e in r <==> e in entries && Contains(e, "classes") && filter(e)
  {
    var dirs := Filter(entries, IsClassesEntry);
    var r := Filter(dirs, filter);
    forall e ensures e in r <==> e in entries && Contains(e, "classes") && filter(e) {
      FilterMembers(entries, IsClassesEntry, e);
      FilterMembers(dirs, filter, e);
      ClassesEntryIsContainsClasses(e);
    }
    r
  }
}
