# jetty-utils in Dafny

A model of the core of `jetty-utils`, a small library for starting an
embedded Jetty server behind a TLS-terminating reverse proxy. It covers three
parts:

- **The forwarded client-certificate customizer** (`ForwardedSecureRequestCustomizer`).
  - A reverse proxy forwards the client certificate in the `X-ClientCert`
    header. It sends one of two envelopes:
    - a plain PEM envelope whose line breaks were flattened to spaces;
    - a percent-encoded envelope.
  - The customizer checks the envelope and rebuilds the PEM text.
  - It hands that text to a PEM reader and attaches the certificate it gets
    back to the request as the `javax.servlet.request.X509Certificate`
    attribute.
- **Connector configuration** (`JettyServer`).
  - Host, port, key material and the client-authentication flag are resolved
    from a `Properties` map, with their defaults and their failure modes.
  - The X.509 certificates of the key store are handed to the certificate
    checker.
  - It covers the fixed HTTP configuration and the class-path entry filters.
- **Request logging helpers** (`LoggingFilter`).
  - Control characters are removed from the logged body.
  - The request body is memoised.
  - Parameters and headers are rendered as `name=value; …` and `name: value; …`.

The Dafny modules follow that structure:

- `Wrappers`: `Option` and `Result`.
- `Bytes`: the byte type and the charset that turns bytes into text.
- `JavaText`: the JDK string and number operations the core relies on.
  - `String.replace`, `replaceAll` of a single character, `trim`,
    `equalsIgnoreCase`;
  - `Boolean.parseBoolean`, `Integer.parseInt`, `Integer.toString`.
- `UrlDecoding`: `URLDecoder.decode` as the JDK implements it.
  - Consecutive `%XY` escapes form one byte run, decoded as a whole.
  - Each escape is read with `Integer.parseInt(…, 16)`.
  - `+` becomes a space.
  - A malformed escape throws.
  - There is also an escape-by-escape reference decoder and the encoding a
    proxy applies.
- `ForwardedCustomizer`: `getClientCert` and `customize`.
- `ServerConnectors`: the connector factories of `JettyServer`.
- `RequestLogging`: the text helpers of `LoggingFilter`.

Library calls are parameters of the model:

- the PEM reader (`PemReader`);
- the trust-store and key-store readers (`TrustStoreReader`, `KeyStoreReader`);
- the charset that turns an escaped byte run or a body into text (`Charset`).

### Behaviour worth knowing

- **The two envelopes may be mixed.**
  - The begin check and the end check are two independent disjunctions
    (lines 54 and 60 of `ForwardedSecureRequestCustomizer.java`).
  - So a plain begin marker with an encoded end marker passes, and so does
    the reverse. The branch is then chosen by the prefix alone.
  - See `PlainBeginEncodedEndAccepted`, `EncodedBeginPlainEndAccepted` and
    `EncodedBeginPlainEndDecodes`.
- **The encoded markers may overlap.** The encoded begin marker ends with
  `%0A` and the encoded end marker starts with it. So a 62-character header
  made of the begin marker's encoding and the encoded end marker passes both
  checks. It reaches the reader as the two plain markers with nothing
  between them (`EncodedMarkersOverlap`).
- **A malformed escape throws.**
  - The URL decoding at line 73 is outside the `try`.
  - So a malformed `%` escape leaves the customizer as an
    `IllegalArgumentException` (`MalformedEscapeThrows`).
  - Only the PEM reader's `CertificateException` and `IOException` become
    "no certificate".
- **`+` becomes a space.**
  - The decoder turns an unescaped `+` into a space, so a base64 body with a
    literal `+` does not come back as it was sent (`PlusBecomesSpace`).
  - A proxy that escapes `+` as well gets its text back (`PercentRoundTrip`).

Startup failures in `JettyServer` are not all wrapped alike either:

- On the HTTPS path a bad port is wrapped in a `RuntimeException`. On the
  HTTP path it is not.
- A missing trust-store or key-store property reaches `Paths.get(null)`. Its
  `NullPointerException` is not in the catch list, so it is not wrapped.

## Model

| member | source | states |
|---|---|---|
| JavaText.NotContainsMissingChar | src/main/java/de/rwh/utils/jetty/ForwardedSecureRequestCustomizer.java:68-69 | a text lacking one character of a marker holds no occurrence of that marker; this is why the rebuilt body, which has no space, holds no marker |
| JavaText.ReplaceNoStartShortTail | src/main/java/de/rwh/utils/jetty/ForwardedSecureRequestCustomizer.java:69 | `replace` changes nothing when no occurrence of the target can start before a tail shorter than the target |
| JavaText.ReplaceBeforeTarget | src/main/java/de/rwh/utils/jetty/ForwardedSecureRequestCustomizer.java:69 | `replace` of a trailing target, with no earlier start of it, replaces exactly that one occurrence |
| JavaText.ReplaceLeading | src/main/java/de/rwh/utils/jetty/ForwardedSecureRequestCustomizer.java:69 | a leading occurrence is replaced and the scan resumes after it, so occurrences never overlap |
| JavaText.ReplaceChar | src/main/java/de/rwh/utils/jetty/ForwardedSecureRequestCustomizer.java:69 | `replaceAll(" ", "\n")` keeps the length and changes exactly the spaces, position by position |
| JavaText.ReplaceCharBack | src/main/java/de/rwh/utils/jetty/ForwardedSecureRequestCustomizer.java:69 | turning line breaks into spaces and back restores any text that had no space |
| JavaText.TrimOf | src/main/java/de/rwh/utils/jetty/ForwardedSecureRequestCustomizer.java:73 | `trim` removes exactly the characters up to U+0020 around a text that starts and ends with another character |
| JavaText.ParseBooleanIsLowerTrue | src/main/java/de/rwh/utils/jetty/JettyServer.java:92-93 | `Boolean.parseBoolean` is true exactly for "true" in any letter case |
| JavaText.AccumulateDigits | src/main/java/de/rwh/utils/jetty/JettyServer.java:85-86 | the JDK's negative-accumulation digit loop, with its `limit` and `multmin` guards keeping every intermediate value within 32 bits, succeeds exactly on a digit run whose value is at most the limit's magnitude, and returns that value negated |
| JavaText.ParseIntLoop | src/main/java/de/rwh/utils/jetty/JettyServer.java:85-86 | `Integer.parseInt` as the JDK runs it (sign, then the digit loop) returns exactly the value of an optional sign and decimal digits when that value is a 32-bit integer, and fails on every other text |
| JavaText.ParseIntNoDigits | src/main/java/de/rwh/utils/jetty/JettyServer.java:85-86 | the empty text and a lone `+` or `-` do not parse |
| JavaText.ParseIntNonDigit | src/main/java/de/rwh/utils/jetty/JettyServer.java:85-86 | a text with a non-digit after the optional sign does not parse |
| JavaText.ParseIntOverflow | src/main/java/de/rwh/utils/jetty/JettyServer.java:85-86 | once the digits read so far exceed 2147483647, or 2147483648 after `-`, the text does not parse, whatever follows |
| JavaText.ParseIntInRange | src/main/java/de/rwh/utils/jetty/JettyServer.java:85-86 | digits within that bound parse to their value, negated after `-` |
| JavaText.ParseIntToString | src/main/java/de/rwh/utils/jetty/JettyServer.java:85-86 | parsing the decimal rendering of any 32-bit integer gives that integer back |
| UrlDecoding.EscapeByte | src/main/java/de/rwh/utils/jetty/ForwardedSecureRequestCustomizer.java:73 | the two characters after `%` are accepted exactly when `parseInt(…, 16)` reads them as a non-negative number, so `%+A` and `%-0` are accepted; two hex digits give their value |
| UrlDecoding.DecodeFrom | src/main/java/de/rwh/utils/jetty/ForwardedSecureRequestCustomizer.java:73 | the decoding loop with a pending byte run fails exactly when the charset-independent scanner finds a malformed escape, and with its message |
| UrlDecoding.FormDecode | src/main/java/de/rwh/utils/jetty/ForwardedSecureRequestCustomizer.java:73 | `URLDecoder.decode` throws exactly when the first malformed escape is an incomplete trailing `%` or illegal hex characters, whatever the charset |
| UrlDecoding.DecodeFromAgrees | src/main/java/de/rwh/utils/jetty/ForwardedSecureRequestCustomizer.java:73 | with a charset that reads ASCII bytes as themselves, the run-wise loop produces the pending run followed by the reference decoding |
| UrlDecoding.FormDecodeMatchesReference | src/main/java/de/rwh/utils/jetty/ForwardedSecureRequestCustomizer.java:73 | for ASCII escapes the JDK's run-wise decoding equals the escape-by-escape reference decoding |
| UrlDecoding.DecodeThreeParts | src/main/java/de/rwh/utils/jetty/ForwardedSecureRequestCustomizer.java:73 | decoding a text made of three well-formed parts gives the three decodings one after the other |
| UrlDecoding.RefDecodeWellFormed | src/main/java/de/rwh/utils/jetty/ForwardedSecureRequestCustomizer.java:73 | a text the reference decodes has no malformed escape |
| UrlDecoding.RefDecodeConcat | src/main/java/de/rwh/utils/jetty/ForwardedSecureRequestCustomizer.java:73 | a decodable prefix ends on an escape boundary, so the decoding of a concatenation is the two decodings joined |
| UrlDecoding.FirstErrorConcat | src/main/java/de/rwh/utils/jetty/ForwardedSecureRequestCustomizer.java:73 | after a well-formed prefix, the first malformed escape is the suffix's |
| UrlDecoding.FirstErrorBeforeEscape | src/main/java/de/rwh/utils/jetty/ForwardedSecureRequestCustomizer.java:73 | a malformed escape stays malformed when the text continues with `%`, as the encoded end marker does |
| UrlDecoding.RefDecodeWithoutEscapes | src/main/java/de/rwh/utils/jetty/ForwardedSecureRequestCustomizer.java:73 | without escapes, decoding only turns every `+` into a space |
| UrlDecoding.PercentEncodeRoundTrip | src/main/java/de/rwh/utils/jetty/ForwardedSecureRequestCustomizer.java:22-23 | decoding undoes the proxy's encoding (space, line feed, `%` and `+` escaped, as in the encoded markers) for every text |
| UrlDecoding.FormDecodeRoundTrip | src/main/java/de/rwh/utils/jetty/ForwardedSecureRequestCustomizer.java:73 | with an ASCII-transparent charset, `URLDecoder.decode` of the proxy's encoding returns the original text |
| ForwardedCustomizer.GetHeader | src/main/java/de/rwh/utils/jetty/ForwardedSecureRequestCustomizer.java:41 | the header value is that of the first field whose name matches `X-ClientCert` ignoring case, and null exactly when no field matches |
| ForwardedCustomizer.NormalisePlain | src/main/java/de/rwh/utils/jetty/ForwardedSecureRequestCustomizer.java:68-69 | the plain branch's text starts with the begin marker and ends with the end marker, and what lies between has no space and no marker occurrence |
| ForwardedCustomizer.Prepare | src/main/java/de/rwh/utils/jetty/ForwardedSecureRequestCustomizer.java:41-74 | a missing, empty, wrongly begun or wrongly ended header is rejected for that reason; otherwise the plain prefix selects re-wrapping and anything else selects decode-then-trim, whose malformed escape is raised |
| ForwardedCustomizer.GetClientCert | src/main/java/de/rwh/utils/jetty/ForwardedSecureRequestCustomizer.java:39-84 | a certificate comes back exactly when the prepared text reaches the reader and the reader accepts it; a reader failure is "no certificate"; a decoder error is thrown as it is, the same error the preparation raised |
| ForwardedCustomizer.Customize | src/main/java/de/rwh/utils/jetty/ForwardedSecureRequestCustomizer.java:31-37 | the attribute is set, to a one-element chain holding the certificate, exactly when one is extracted; headers and other attributes are untouched and no other attribute is added; "no certificate" leaves the request as it was; the extraction's decoder error propagates unchanged |
| ForwardedCustomizer.MissingOrEmptyHeaderIsNoCertificate | src/main/java/de/rwh/utils/jetty/ForwardedSecureRequestCustomizer.java:43-52 | a missing or empty header gives "no certificate" before the reader, and the request is unchanged |
| ForwardedCustomizer.CustomizeIdempotent | src/main/java/de/rwh/utils/jetty/ForwardedSecureRequestCustomizer.java:31-37 | customizing an already customized request changes nothing |
| ForwardedCustomizer.EncodedBeginIsEncoded | src/main/java/de/rwh/utils/jetty/ForwardedSecureRequestCustomizer.java:22-25 | the encoded begin marker is the plain begin marker and a line break, percent-encoded |
| ForwardedCustomizer.EncodedEndIsEncoded | src/main/java/de/rwh/utils/jetty/ForwardedSecureRequestCustomizer.java:23-26 | the encoded end marker is the plain end marker between two line breaks, percent-encoded |
| ForwardedCustomizer.EncodedMarkersDecode | src/main/java/de/rwh/utils/jetty/ForwardedSecureRequestCustomizer.java:22-26 | both encoded markers decode to the plain markers with their line breaks |
| ForwardedCustomizer.StripMarkers | src/main/java/de/rwh/utils/jetty/ForwardedSecureRequestCustomizer.java:69 | the two `replace` calls remove exactly the leading begin marker and the trailing end marker from a flattened header |
| ForwardedCustomizer.UnflattenFramed | src/main/java/de/rwh/utils/jetty/ForwardedSecureRequestCustomizer.java:69 | turning spaces back into line breaks restores a flattened body with its framing line breaks |
| ForwardedCustomizer.NormaliseFlattened | src/main/java/de/rwh/utils/jetty/ForwardedSecureRequestCustomizer.java:68-69 | re-wrapping a flattened envelope gives the markers around the original body and its line breaks |
| ForwardedCustomizer.PlainBranchTaken | src/main/java/de/rwh/utils/jetty/ForwardedSecureRequestCustomizer.java:54-70 | a header with the plain begin and end markers is re-wrapped |
| ForwardedCustomizer.PlainRoundTrip | src/main/java/de/rwh/utils/jetty/ForwardedSecureRequestCustomizer.java:66-70 | a PEM text whose body has no space and no `-`, flattened to one line, is rebuilt exactly |
| ForwardedCustomizer.EncodedEnvelope | src/main/java/de/rwh/utils/jetty/ForwardedSecureRequestCustomizer.java:54-66 | a header in the encoded envelope passes both checks and does not take the plain branch |
| ForwardedCustomizer.PercentBranchTaken | src/main/java/de/rwh/utils/jetty/ForwardedSecureRequestCustomizer.java:66-74 | a recognised header without the plain prefix is decoded and trimmed, or raises the decoder's error |
| ForwardedCustomizer.TrimFinalBreak | src/main/java/de/rwh/utils/jetty/ForwardedSecureRequestCustomizer.java:73 | `trim` removes only the final line break after the decoded end marker |
| ForwardedCustomizer.EncodedEnvelopeDecodes | src/main/java/de/rwh/utils/jetty/ForwardedSecureRequestCustomizer.java:73 | an encoded envelope around well-formed ASCII escapes decodes to the plain markers around the decoded middle |
| ForwardedCustomizer.PercentBranch | src/main/java/de/rwh/utils/jetty/ForwardedSecureRequestCustomizer.java:71-74 | for a header in the encoded envelope with well-formed ASCII escapes, the reader gets the plain begin marker, a line break, the decoded middle, a line break and the plain end marker |
| ForwardedCustomizer.PercentRoundTrip | src/main/java/de/rwh/utils/jetty/ForwardedSecureRequestCustomizer.java:71-74 | any PEM text the proxy percent-encodes, with its final line break, reaches the reader unchanged without that line break |
| ForwardedCustomizer.PlusBecomesSpace | src/main/java/de/rwh/utils/jetty/ForwardedSecureRequestCustomizer.java:73 | an unescaped `+` in an encoded header reaches the reader as a space |
| ForwardedCustomizer.MalformedEscapeThrows | src/main/java/de/rwh/utils/jetty/ForwardedSecureRequestCustomizer.java:73-83 | a malformed escape in an encoded header makes the customizer throw instead of yielding "no certificate", and the exception is the decoder's first error in the whole header |
| ForwardedCustomizer.PlainBeginEncodedEndAccepted | src/main/java/de/rwh/utils/jetty/ForwardedSecureRequestCustomizer.java:54-70 | a plain begin marker with an encoded end marker passes the checks and is re-wrapped |
| ForwardedCustomizer.EncodedBeginPlainEndAccepted | src/main/java/de/rwh/utils/jetty/ForwardedSecureRequestCustomizer.java:54-74 | an encoded begin marker with a plain end marker passes the checks and is decoded |
| ForwardedCustomizer.MixedEnvelope | src/main/java/de/rwh/utils/jetty/ForwardedSecureRequestCustomizer.java:54-66 | a header with the encoded begin marker and the plain end marker passes both checks and does not take the plain branch |
| ForwardedCustomizer.MixedEnvelopeDecodes | src/main/java/de/rwh/utils/jetty/ForwardedSecureRequestCustomizer.java:73 | that header, around well-formed ASCII escapes, decodes without error to the plain begin marker, a line break, the decoded middle and the end marker unchanged |
| ForwardedCustomizer.OverlapEnvelope | src/main/java/de/rwh/utils/jetty/ForwardedSecureRequestCustomizer.java:54-66 | the header in which the encoded markers share their middle `%0A` passes both checks and does not take the plain branch |
| ForwardedCustomizer.OverlapDecodes | src/main/java/de/rwh/utils/jetty/ForwardedSecureRequestCustomizer.java:73 | that header decodes without error to the two plain markers on two lines and a final line break |
| ForwardedCustomizer.EncodedMarkersOverlap | src/main/java/de/rwh/utils/jetty/ForwardedSecureRequestCustomizer.java:54-74 | the encoded begin marker is the begin marker's encoding plus `%0A`, and the overlapping header reaches the reader as the two plain markers with nothing between them |
| ForwardedCustomizer.EncodedBeginPlainEndDecodes | src/main/java/de/rwh/utils/jetty/ForwardedSecureRequestCustomizer.java:71-74 | the reader then gets the plain begin marker, a line break, the decoded middle and the end marker, with no line break before the end marker |
| ServerConnectors.ServerCertChecksOne | src/main/java/de/rwh/utils/jetty/JettyServer.java:118-120 | an alias holding an X.509 certificate gives one checker call with the trust store, and any other alias none |
| ServerConnectors.ServerCertChecksConcat | src/main/java/de/rwh/utils/jetty/JettyServer.java:115-121 | the checker calls follow the alias order |
| ServerConnectors.ServerCertChecksMembers | src/main/java/de/rwh/utils/jetty/JettyServer.java:115-121 | exactly the X.509 certificates of the key store are checked, each against the trust store |
| ServerConnectors.CheckServerCert | src/main/java/de/rwh/utils/jetty/JettyServer.java:110-122 | the alias loop calls the checker once per X.509 alias, in order, and for nothing else |
| ServerConnectors.HttpConfigurationWith | src/main/java/de/rwh/utils/jetty/JettyServer.java:198-209 | the server-version, X-Powered-By and date headers are off; the customizer is added exactly when it is not null |
| ServerConnectors.PlainHttpConfiguration | src/main/java/de/rwh/utils/jetty/JettyServer.java:193-196 | the no-argument configuration has the same switches and no customizer |
| ServerConnectors.TlsConnector | src/main/java/de/rwh/utils/jetty/JettyServer.java:142-167 | the TLS connector has exactly two factories, the SSL factory first and the HTTP factory second, so HTTP/1.1 is spoken behind TLS; it carries its host, port, stores, password and client-authentication flag unchanged and serves the given configuration |
| ServerConnectors.PlainConnector | src/main/java/de/rwh/utils/jetty/JettyServer.java:178-191 | the plain connector has one HTTP factory serving the given configuration, carries host and port, and has no TLS |
| ServerConnectors.ResolveHttps | src/main/java/de/rwh/utils/jetty/JettyServer.java:79-108 | a resolved HTTPS connector comes with the checks of its own key store against its own trust store; every failure is wrapped except the null path |
| ServerConnectors.ResolveHttp | src/main/java/de/rwh/utils/jetty/JettyServer.java:169-176 | the HTTP path builds a plain connector or fails with a bare `NumberFormatException` |
| ServerConnectors.HostResolution | src/main/java/de/rwh/utils/jetty/JettyServer.java:65-66 | both paths listen on the `jetty.host` value, or on "localhost" when it is absent (lines 84 and 172) |
| ServerConnectors.PortResolution | src/main/java/de/rwh/utils/jetty/JettyServer.java:67-69 | both paths read the port from `jetty.port` as a 32-bit decimal; only the default text differs (lines 85-86 and 173) |
| ServerConnectors.DefaultPorts | src/main/java/de/rwh/utils/jetty/JettyServer.java:67-69 | without `jetty.port` the HTTPS connector listens on 8443 and the HTTP connector on 8080 |
| ServerConnectors.NeedClientAuthResolution | src/main/java/de/rwh/utils/jetty/JettyServer.java:92-93 | client authentication is required exactly when `jetty.needclientauth` is "true" in any letter case; absent means false |
| ServerConnectors.BadPortFailsByPath | src/main/java/de/rwh/utils/jetty/JettyServer.java:103-106 | a non-numeric port is a `RuntimeException` around the `NumberFormatException` on the HTTPS path and the bare exception on the HTTP path (line 173), and no connector is built |
| ServerConnectors.MissingStorePathIsUnwrapped | src/main/java/de/rwh/utils/jetty/JettyServer.java:88-89 | once the port is valid, the HTTPS path fails with an unwrapped null-pointer exception exactly when a store path property is missing |
| ServerConnectors.HttpsCarriesStores | src/main/java/de/rwh/utils/jetty/JettyServer.java:95-101 | the connector holds exactly the stores read from the configured paths, the password property and the flag; a reader failure is wrapped |
| ServerConnectors.FilterMembers | src/main/java/de/rwh/utils/jetty/JettyServer.java:221-229 | a stream filter keeps exactly the elements that pass |
| ServerConnectors.FilterConcat | src/main/java/de/rwh/utils/jetty/JettyServer.java:221-229 | a stream filter keeps the order of the entries |
| ServerConnectors.WebInfJars | src/main/java/de/rwh/utils/jetty/JettyServer.java:221-224 | the jars are exactly the entries ending in `.jar` that pass the caller's filter |
| ServerConnectors.ClassesEntryIsContainsClasses | src/main/java/de/rwh/utils/jetty/JettyServer.java:228 | the classes-directory test is equivalent to containing "classes", because "test-classes" contains it |
| ServerConnectors.WebInfClassesDirs | src/main/java/de/rwh/utils/jetty/JettyServer.java:226-229 | the class directories are exactly the entries containing "classes" that pass the caller's filter |
| RequestLogging.StripControlsConcat | src/main/java/de/rwh/utils/jetty/LoggingFilter.java:113 | deleting control characters works character by character, keeping the order |
| RequestLogging.ControlCountConcat | src/main/java/de/rwh/utils/jetty/LoggingFilter.java:104-107 | the matcher's count adds up over the parts of a text |
| RequestLogging.StripControlsDeletesOnly | src/main/java/de/rwh/utils/jetty/LoggingFilter.java:104-113 | no Cc character is left, every other character keeps its number of occurrences, and the kept and counted characters add up to the input length |
| RequestLogging.StripControlsLeavesNoControl | src/main/java/de/rwh/utils/jetty/LoggingFilter.java:40 | the result of `replaceAll("")` on `\p{Cc}` has no character of category Cc |
| RequestLogging.StripControlsKeepsOthers | src/main/java/de/rwh/utils/jetty/LoggingFilter.java:113 | every character outside Cc is kept as often as it occurs |
| RequestLogging.StripControlsLength | src/main/java/de/rwh/utils/jetty/LoggingFilter.java:104-113 | the count of matches is the input length minus the output length |
| RequestLogging.StripControlsClean | src/main/java/de/rwh/utils/jetty/LoggingFilter.java:113 | a body without control characters is logged as it is |
| RequestLogging.Sanitise | src/main/java/de/rwh/utils/jetty/LoggingFilter.java:104-113 | the deletion loop yields the body minus its control characters; the counting loop warns exactly when there were any, reports that count, and uses the suffix "s" exactly when there was more than one |
| RequestLogging.GetBody | src/main/java/de/rwh/utils/jetty/LoggingFilter.java:89-98 | the first call reads the whole stream and remembers it; later calls return what was remembered without reading |
| RequestLogging.GetBodyMemoised | src/main/java/de/rwh/utils/jetty/LoggingFilter.java:89-98 | however often the body is asked for, the stream is opened at most once and every answer is the original content |
| RequestLogging.StableAfterFirstRead | src/main/java/de/rwh/utils/jetty/LoggingFilter.java:91-97 | once the body is remembered, further calls change nothing |
| RequestLogging.BodyAsString | src/main/java/de/rwh/utils/jetty/LoggingFilter.java:100-114 | the logged body is the remembered body's text without control characters, with a warning exactly when it had any |
| RequestLogging.JoinSnoc | src/main/java/de/rwh/utils/jetty/LoggingFilter.java:216-228 | one more entry adds one separator, except after nothing |
| RequestLogging.JoinLength | src/main/java/de/rwh/utils/jetty/LoggingFilter.java:212-231 | the rendering is as long as the parts together plus one separator per gap between neighbours |
| RequestLogging.PartStartNext | src/main/java/de/rwh/utils/jetty/LoggingFilter.java:216-228 | each part starts right after the previous part and one separator |
| RequestLogging.JoinContents | src/main/java/de/rwh/utils/jetty/LoggingFilter.java:216-228 | the rendering holds every part at its place and exactly one separator after each part but the last; with the two rows above, nothing else: no leading or trailing separator |
| RequestLogging.Rendered | src/main/java/de/rwh/utils/jetty/LoggingFilter.java:224-227 | each entry renders as name, link, value, with a null value rendered as "null" |
| RequestLogging.RenderEntries | src/main/java/de/rwh/utils/jetty/LoggingFilter.java:216-230 | the loop with its `first` flag produces the entries joined by "; " |
| RequestLogging.RenderedSnoc | src/main/java/de/rwh/utils/jetty/LoggingFilter.java:216-228 | rendering one more entry appends "; " and that entry to the previous rendering |
| RequestLogging.ToParameter | src/main/java/de/rwh/utils/jetty/LoggingFilter.java:212-231 | parameters render as `name=value` joined by "; " in enumeration order |
| RequestLogging.ToRequestHeaders | src/main/java/de/rwh/utils/jetty/LoggingFilter.java:233-252 | request headers render as `name: value` joined by "; " in enumeration order |
| RequestLogging.ToResponseHeaders | src/main/java/de/rwh/utils/jetty/LoggingFilter.java:254-272 | response headers render the same way over the response's header names |

## Left out

- PEM and X.509 decoding (`PemIo.readX509CertificateFromPem`) is the
  `PemReader` parameter, and a certificate is its DER bytes. It is a library
  call. Its `CertificateException` and `IOException` are the reader's `None`.
  Unchecked exceptions it might throw are not modelled.
- Key-store loading (`CertificateReader.allFromCer`, `fromPkcs12`) is the
  reader parameters. Their checked exceptions are one `StoreException` with a
  message. Unchecked exceptions they might throw are not modelled.
- `CertificateCheckerImpl` is left out: its trust-chain and expiry checks and
  its scheduled warning thread. The model only records which certificates are
  handed to it, and with which trust store.
- Logging is left out: `logCertificateConfig` and every SLF4J call. The
  rejection reasons (`Rejection`) and the control-character warning
  (`ControlWarning`) stand for the warnings logged.
- Jetty object construction is replaced by plain records: `SslContextFactory`,
  the connection factories and `ServerConnector`. The `Server` argument of the
  returned function is left out, and so are `start`, `stop` and the
  `JettyServer` constructor.
- Class-path reading is left out: `classPathEntries`, `readManifest` and
  `pathStringFromURI`. The entries are a parameter. They come from a
  `HashSet`, so their order carries no meaning; the filters state membership
  and keep whatever order they are given.
- `secureRequestCustomizer()` and `forwardedSecureRequestCustomizer()` only
  construct objects. They are the two `Customizer` values.
- `Paths.get` is the identity on the path text. Its `InvalidPathException`
  for a malformed path is not modelled.
- `Integer.parseInt` and `URLDecoder` accept ASCII digits and ASCII hex
  letters only. The non-ASCII digits and hex letters that `Character.digit`
  also accepts (fullwidth forms, for example) are left out.
- `equalsIgnoreCase` (header names, `Boolean.parseBoolean`) folds ASCII
  letters only.
- UTF-8 decoding of escaped byte runs is the `Charset` parameter, and so is
  the platform charset of `new String(bytes)` in `bodyAsString`.
- UrlDecoding.FormDecodeMatchesReference: holds only for charsets that read
  ASCII bytes as themselves. Decoding of multi-byte UTF-8 runs is not
  modelled.
- ForwardedCustomizer.PercentBranch: stated for escapes of ASCII bytes only,
  for the same reason.
- ForwardedCustomizer.EncodedBeginPlainEndDecodes: stated for escapes of ASCII
  bytes only, for the same reason.
- ForwardedCustomizer.PlainRoundTrip: the body may contain no space and no
  `-`.
  - A space in the body cannot be told apart from a flattened line break.
  - A `-` could complete a marker inside the body.
  - Base64 text contains neither.
- `String.replace` with an empty target is not modelled. The customizer only
  replaces the two non-empty markers.
- The `LoggingFilter` stream plumbing is left out:
  - `getInputStream`, `getReader`, `ResponseWrapper`, `doFilter`;
  - the `IOException` of `toByteArray`.
  - The stream's content is a parameter of the wrapper.
- `Log4jInitializer`, `Log4jServiceProvider`, `PropertiesReader` and
  `module-info.java` are left out. They are file I/O, logging bootstrap and
  module declarations.
