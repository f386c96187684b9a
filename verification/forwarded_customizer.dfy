/** The request customizer that recovers a client certificate forwarded by a
    TLS-terminating reverse proxy in the `X-ClientCert` header. A header in
    the PEM envelope of section 5 of RFC 7468 arrives with its line breaks
    flattened to spaces and is re-wrapped. A header in the percent-encoded
    envelope is form-URL-decoded and trimmed. Either text goes to the PEM
    reader, and a certificate it returns is attached to the request. */
module ForwardedCustomizer {
  import opened Wrappers
  import opened JavaText
  import opened Bytes
  import opened UrlDecoding

  const CLIENT_CERT_HEADER: string := "X-ClientCert"
  const CLIENT_CERT_ATTRIBUTE: string := "javax.servlet.request.X509Certificate"

  const CERT_BEGIN: string := "-----BEGIN CERTIFICATE-----"
  const CERT_END: string := "-----END CERTIFICATE-----"
  const ENCODED_CERT_BEGIN: string := "-----BEGIN%20CERTIFICATE-----%0A"
  const ENCODED_CERT_END: string := "%0A-----END%20CERTIFICATE-----%0A"

  /** An X.509 certificate, kept as its DER encoding. */
  datatype X509 = X509(der: seq<Byte>)

  /** `PemIo.readX509CertificateFromPem`, a library call: `None` stands for
      the `CertificateException` or `IOException` it throws. */
  type PemReader = string -> Option<X509>

  /** Why no certificate was produced; each reason but the last is the
      warning the customizer logs. */
  datatype Rejection = HeaderMissing | HeaderEmpty | BadBegin | BadEnd | Unreadable

  /** What `getClientCert` decides before the PEM reader is consulted. */
  datatype Prepared =
    | Rejected(why: Rejection)
    | Pem(text: string)
    | Raised(error: DecodeError)

  /** What `getClientCert` ends with: a certificate, null, or the decoder's
      `IllegalArgumentException`, which nothing in the customizer catches. */
  datatype Extraction =
    | Extracted(cert: X509)
    | NoCertificate(why: Rejection)
    | Thrown(error: DecodeError)

  datatype HeaderField = HeaderField(name: string, value: string)

  /** Request attributes the model distinguishes: a certificate chain, as
      stored by this customizer, or anything else. */
  datatype Attribute = CertificateChain(chain: seq<X509>) | OtherAttribute(description: string)

  datatype Request = Request(headers: seq<HeaderField>, attributes: map<string, Attribute>)

  // ---------------------------------------------------------------------
  // Header lookup
  // ---------------------------------------------------------------------

  /** `Request.getHeader(name)`: the value of the first field whose name
      matches ignoring case, or null. */
  function GetHeader(headers: seq<HeaderField>, name: string): (r: Option<string>)
    ensures r.None? <==> forall i :: 0 <= i < |headers| ==> !EqualsIgnoreCase(headers[i].name, name)
    ensures r.Some? ==> exists i :: 0 <= i < |headers| && EqualsIgnoreCase(headers[i].name, name)
                                 && headers[i].value == r.value
                                 && forall j :: 0 <= j < i ==> !EqualsIgnoreCase(headers[j].name, name)
  {
    if |headers| == 0 then None
    else if EqualsIgnoreCase(headers[0].name, name) then Some(headers[0].value)
    else
      var r := GetHeader(headers[1..], name);
      assert forall i :: 0 < i < |headers| ==> headers[i] == headers[1..][i - 1];
      r
  }

  // ---------------------------------------------------------------------
  // Envelope check and normalisation
  // ---------------------------------------------------------------------

  predicate HasRecognisedBegin(h: string) {
    StartsWith(h, CERT_BEGIN) || StartsWith(h, ENCODED_CERT_BEGIN)
  }

  /** The end check, independent of which begin marker was found. */
  predicate HasRecognisedEnd(h: string) {
    EndsWith(h, CERT_END) || EndsWith(h, ENCODED_CERT_END)
  }

  /** The text between the plain markers of a normalised PEM text. */
  function PemBody(pem: string): string
    requires |pem| >= |CERT_BEGIN| + |CERT_END|
  {
    pem[|CERT_BEGIN|..|pem| - |CERT_END|]
  }

  /** Plain branch: every marker occurrence removed, every space turned into a
      line break, the markers put back around the result. The body then has
      no space and therefore holds no marker, as both markers contain one. */
  function NormalisePlain(h: string): (pem: string)
    ensures StartsWith(pem, CERT_BEGIN) && EndsWith(pem, CERT_END)
    ensures |pem| >= |CERT_BEGIN| + |CERT_END|
    ensures ' ' !in PemBody(pem)
    ensures !Contains(PemBody(pem), CERT_BEGIN) && !Contains(PemBody(pem), CERT_END)
  {
    var body := ReplaceChar(Replace(Replace(h, CERT_BEGIN, ""), CERT_END, ""), ' ', '\n');
    var pem := CERT_BEGIN + body + CERT_END;
    assert pem[..|CERT_BEGIN|] == CERT_BEGIN;
    assert pem[|pem| - |CERT_END|..] == CERT_END;
    assert PemBody(pem) == body;
    assert ' ' !in body by {
      forall i | 0 <= i < |body| ensures body[i] != ' ' { }
    }
    assert CERT_BEGIN[10] == ' ' && CERT_END[8] == ' ';
    NotContainsMissingChar(body, CERT_BEGIN, 10);
    NotContainsMissingChar(body, CERT_END, 8);
    pem
  }

  /** Everything `getClientCert` does before the PEM reader. No reader is
      involved, so on a rejection the reader is never invoked. */
  function Prepare(header: Option<string>, charset: Charset): (r: Prepared)
    ensures header.None? ==> r == Rejected(HeaderMissing)
    ensures header == Some("") ==> r == Rejected(HeaderEmpty)
    ensures header.Some? && header.value != "" && !HasRecognisedBegin(header.value) ==> r == Rejected(BadBegin)
    ensures header.Some? && header.value != "" && HasRecognisedBegin(header.value) && !HasRecognisedEnd(header.value) ==>
                  r == Rejected(BadEnd)
    ensures r.Rejected? ==> r.why != Unreadable
    ensures !r.Rejected? <==> header.Some? && HasRecognisedBegin(header.value) && HasRecognisedEnd(header.value)
    ensures r.Pem? && StartsWith(header.value, CERT_BEGIN) ==> r.text == NormalisePlain(header.value)
    ensures r.Raised? ==> !StartsWith(header.value, CERT_BEGIN) && FirstError(header.value) == Some(r.error)
    ensures r.Pem? && !StartsWith(header.value, CERT_BEGIN) ==>
                  FormDecode(header.value, charset).Success? && r.text == Trim(FormDecode(header.value, charset).value)
  {
    match header
    case None => Rejected(HeaderMissing)
    case Some(h) =>
      if |h| == 0 then Rejected(HeaderEmpty)
      else if !HasRecognisedBegin(h) then Rejected(BadBegin)
      else if !HasRecognisedEnd(h) then Rejected(BadEnd)
      else if StartsWith(h, CERT_BEGIN) then Pem(NormalisePlain(h))
      else match FormDecode(h, charset)
        case Failure(e) => Raised(e)
        case Success(text) => Pem(Trim(text))
  }

  /** `getClientCert`: the prepared PEM text goes to the reader, whose failure
      is the only one turned into "no certificate" after the envelope check. */
  function GetClientCert(header: Option<string>, reader: PemReader, charset: Charset): (r: Extraction)
    ensures r.Extracted? <==> Prepare(header, charset).Pem? && reader(Prepare(header, charset).text).Some?
    ensures r.Extracted? ==> reader(Prepare(header, charset).text) == Some(r.cert)
    ensures r.Thrown? <==> Prepare(header, charset).Raised?
    ensures r.Thrown? ==> r.error == Prepare(header, charset).error
    ensures Prepare(header, charset).Rejected? ==> r == NoCertificate(Prepare(header, charset).why)
    ensures r.NoCertificate? && r.why == Unreadable <==> Prepare(header, charset).Pem? && reader(Prepare(header, charset).text).None?
  {
    match Prepare(header, charset)
    case Rejected(why) => NoCertificate(why)
    case Raised(e) => Thrown(e)
    case Pem(text) =>
      match reader(text)
      case Some(cert) => Extracted(cert)
      case None => NoCertificate(Unreadable)
  }

  /** The extraction for the request's `X-ClientCert` header. */
  function ClientCertOf(req: Request, reader: PemReader, charset: Charset): Extraction {
    GetClientCert(GetHeader(req.headers, CLIENT_CERT_HEADER), reader, charset)
  }

  /** `customize`: the attribute is set to a one-element chain exactly when a
      certificate was produced, and the request is otherwise left alone. A
      decoder exception propagates out of the customizer. */
  function Customize(req: Request, reader: PemReader, charset: Charset): (r: Result<Request, DecodeError>)
    ensures r.Failure? <==> ClientCertOf(req, reader, charset).Thrown?
    ensures r.Failure? ==> r.error == ClientCertOf(req, reader, charset).error
    ensures r.Success? ==> r.value.headers == req.headers
    ensures r.Success? ==> (CLIENT_CERT_ATTRIBUTE in r.value.attributes
                            <==> CLIENT_CERT_ATTRIBUTE in req.attributes || ClientCertOf(req, reader, charset).Extracted?)
    ensures ClientCertOf(req, reader, charset).Extracted? ==>
                  r.Success? && r.value.attributes[CLIENT_CERT_ATTRIBUTE] == CertificateChain([ClientCertOf(req, reader, charset).cert])
    ensures r.Success? ==> forall k :: k in req.attributes && k != CLIENT_CERT_ATTRIBUTE ==>
                                           k in r.value.attributes && r.value.attributes[k] == req.attributes[k]
    ensures r.Success? ==> forall k :: k in r.value.attributes ==> k in req.attributes || k == CLIENT_CERT_ATTRIBUTE
    ensures ClientCertOf(req, reader, charset).NoCertificate? ==> r == Success(req)
  {
    match ClientCertOf(req, reader, charset)
    case Extracted(cert) =>
      Success(req.(attributes := req.attributes[CLIENT_CERT_ATTRIBUTE := CertificateChain([cert])]))
    case NoCertificate(_) => Success(req)
    case Thrown(e) => Failure(e)
  }

  // ---------------------------------------------------------------------
  // Properties
  // ---------------------------------------------------------------------

  /** A request without the header leaves the customizer unchanged, and one
      whose header is empty too; neither consults the reader. */
  lemma MissingOrEmptyHeaderIsNoCertificate(req: Request, reader: PemReader, charset: Charset)
    requires GetHeader(req.headers, CLIENT_CERT_HEADER).None? || GetHeader(req.headers, CLIENT_CERT_HEADER) == Some("")
    ensures ClientCertOf(req, reader, charset).NoCertificate?
    ensures ClientCertOf(req, reader, charset).why != Unreadable
    ensures Customize(req, reader, charset) == Success(req)
  {
  }

  /** Calling the customizer again on its own output changes nothing more. */
  lemma CustomizeIdempotent(req: Request, reader: PemReader, charset: Charset)
    requires Customize(req, reader, charset).Success?
    ensures Customize(Customize(req, reader, charset).value, reader, charset) == Customize(req, reader, charset)
  {
    var once := Customize(req, reader, charset).value;
    assert once.headers == req.headers;
    assert ClientCertOf(once, reader, charset) == ClientCertOf(req, reader, charset);
    match ClientCertOf(req, reader, charset)
    case Extracted(cert) =>
      var v := CertificateChain([cert]);
      assert once.attributes[CLIENT_CERT_ATTRIBUTE := v] == once.attributes;
    case NoCertificate(_) =>
    case Thrown(_) =>
  }

  /** No character of `s` is one the proxy has to escape. */
  predicate NothingToEscape(s: string) {
    forall i :: 0 <= i < |s| ==> s[i] !in " \n%+"
  }

  lemma EncodeMarker(a: string, b: string)
    requires NothingToEscape(a) && NothingToEscape(b)
    ensures PercentEncode(a + " " + b + "\n") == a + "%20" + b + "%0A"
  {
    assert a + " " + b + "\n" == a + (" " + (b + "\n"));
    PercentEncodeConcat(a, " " + (b + "\n"));
    PercentEncodeConcat(" ", b + "\n");
    PercentEncodeConcat(b, "\n");
    PercentEncodePlain(a);
    PercentEncodePlain(b);
    assert PercentEncode(" ") == "%20";
    assert PercentEncode("\n") == "%0A";
    AppendAssoc(a + "%20", b, "%0A");
    AppendAssoc(a, "%20", b + "%0A");
  }

  lemma MarkerWordsNeedNoEscape()
    ensures NothingToEscape("-----BEGIN") && NothingToEscape("-----END") && NothingToEscape("CERTIFICATE-----")
  {
  }

  lemma BeginMarkerWords()
    ensures CERT_BEGIN + "\n" == "-----BEGIN" + " " + "CERTIFICATE-----" + "\n"
  {
  }

  lemma EncodedBeginMarkerWords()
    ensures ENCODED_CERT_BEGIN == "-----BEGIN" + "%20" + "CERTIFICATE-----" + "%0A"
  {
  }

  lemma EndMarkerWords()
    ensures "\n" + CERT_END + "\n" == "\n" + ("-----END" + " " + "CERTIFICATE-----" + "\n")
  {
  }

  lemma EncodedEndMarkerWords()
    ensures ENCODED_CERT_END == "%0A" + ("-----END" + "%20" + "CERTIFICATE-----" + "%0A")
  {
  }

  lemma EncodeAfterBreak(x: string)
    ensures PercentEncode("\n" + x) == "%0A" + PercentEncode(x)
  {
    PercentEncodeConcat("\n", x);
    assert PercentEncode("\n") == "%0A";
  }

  /** The encoded begin marker is the plain one, with its line break, as a
      proxy encodes it. */
  lemma EncodedBeginIsEncoded()
    ensures PercentEncode(CERT_BEGIN + "\n") == ENCODED_CERT_BEGIN
  {
    MarkerWordsNeedNoEscape();
    BeginMarkerWords();
    EncodedBeginMarkerWords();
    EncodeMarker("-----BEGIN", "CERTIFICATE-----");
  }

  /** Likewise for the end marker between two line breaks. */
  lemma EncodedEndIsEncoded()
    ensures PercentEncode("\n" + CERT_END + "\n") == ENCODED_CERT_END
  {
    MarkerWordsNeedNoEscape();
    EndMarkerWords();
    EncodedEndMarkerWords();
    EncodeMarker("-----END", "CERTIFICATE-----");
    EncodeAfterBreak("-----END" + " " + "CERTIFICATE-----" + "\n");
  }

  /** Both encoded markers decode to the plain markers with line breaks. */
  lemma EncodedMarkersDecode()
    ensures RefDecode(ENCODED_CERT_BEGIN) == Some(CERT_BEGIN + "\n")
    ensures RefDecode(ENCODED_CERT_END) == Some("\n" + CERT_END + "\n")
  {
    EncodedBeginIsEncoded();
    EncodedEndIsEncoded();
    PercentEncodeRoundTrip(CERT_BEGIN + "\n");
    PercentEncodeRoundTrip("\n" + CERT_END + "\n");
  }

  lemma FrameAssoc(begin: string, end: string, body: string)
    ensures begin + "\n" + body + "\n" + end == begin + (("\n" + body + "\n") + end)
  {
  }

  /** Replacing a character absent from both ends touches only the middle. */
  lemma ReplaceCharInside(begin: string, m: string, end: string, from: char, to: char)
    requires from !in begin && from !in end
    ensures ReplaceChar(begin + (m + end), from, to) == begin + (ReplaceChar(m, from, to) + end)
  {
    ReplaceCharConcat(begin, m + end, from, to);
    ReplaceCharConcat(m, end, from, to);
    ReplaceCharAbsent(begin, from, to);
    ReplaceCharAbsent(end, from, to);
  }

  lemma FlattenBreaks(body: string)
    ensures ReplaceChar("\n" + body + "\n", '\n', ' ') == " " + ReplaceChar(body, '\n', ' ') + " "
  {
    ReplaceCharConcat("\n" + body, "\n", '\n', ' ');
    ReplaceCharConcat("\n", body, '\n', ' ');
  }

  /** Flattening a framed body turns its two framing line breaks into
      spaces and leaves markers without line breaks alone. */
  lemma FlattenFramed(begin: string, end: string, body: string)
    requires '\n' !in begin && '\n' !in end
    ensures ReplaceChar(begin + "\n" + body + "\n" + end, '\n', ' ')
            == begin + (" " + ReplaceChar(body, '\n', ' ') + " " + end)
  {
    FrameAssoc(begin, end, body);
    ReplaceCharInside(begin, "\n" + body + "\n", end, '\n', ' ');
    FlattenBreaks(body);
  }

  /** Removing the markers from a flattened header removes exactly the
      leading begin marker and the trailing end marker, when the middle
      never holds the character both markers start with. */
  lemma StripMarkers(begin: string, end: string, x: string)
    requires 0 < |end| < |begin| && begin[0] == end[0]
    requires forall i :: 0 <= i < |x| ==> x[i] != begin[0]
    ensures Replace(Replace(begin + (x + end), begin, ""), end, "") == x
  {
    ReplaceLeading(begin, x + end, "");
    ReplaceNoStartShortTail(x, end, begin, "");
    assert "" + (x + end) == x + end;
    ReplaceBeforeTarget(x, end, "");
    assert x + "" == x;
  }

  /** Turning the spaces of a flattened body back into line breaks restores
      the body between its framing line breaks. */
  lemma UnflattenFramed(body: string)
    requires ' ' !in body
    ensures ReplaceChar(" " + ReplaceChar(body, '\n', ' ') + " ", ' ', '\n') == "\n" + body + "\n"
  {
    var flat := ReplaceChar(body, '\n', ' ');
    ReplaceCharConcat(" " + flat, " ", ' ', '\n');
    ReplaceCharConcat(" ", flat, ' ', '\n');
    ReplaceCharBack(body, '\n', ' ');
  }

  /** A header that starts with the plain begin marker and ends with the
      plain end marker goes down the plain branch. */
  lemma PlainBranchTaken(h: string, charset: Charset)
    requires StartsWith(h, CERT_BEGIN) && EndsWith(h, CERT_END)
    ensures Prepare(Some(h), charset) == Pem(NormalisePlain(h))
  {
    assert h != [] by { assert |h| >= |CERT_BEGIN| > 0; }
  }

  lemma FramedByPlainMarkers(x: string)
    ensures StartsWith(CERT_BEGIN + (x + CERT_END), CERT_BEGIN)
    ensures EndsWith(CERT_BEGIN + (x + CERT_END), CERT_END)
  {
    var h := CERT_BEGIN + (x + CERT_END);
    assert h[..|CERT_BEGIN|] == CERT_BEGIN;
    assert h == (CERT_BEGIN + x) + CERT_END;
    assert h[|h| - |CERT_END|..] == CERT_END;
  }

  /** The plain normalisation of a flattened body restores its line breaks. */
  lemma NormaliseFlattened(body: string)
    requires ' ' !in body && '-' !in body
    ensures NormalisePlain(CERT_BEGIN + ((" " + ReplaceChar(body, '\n', ' ') + " ") + CERT_END))
            == CERT_BEGIN + ("\n" + body + "\n") + CERT_END
  {
    var x := " " + ReplaceChar(body, '\n', ' ') + " ";
    assert forall i :: 0 <= i < |x| ==> x[i] != '-';
    StripMarkers(CERT_BEGIN, CERT_END, x);
    UnflattenFramed(body);
  }

  /** Plain round trip: a PEM text whose body holds no space and no `-`,
      flattened by the proxy to one line, is rebuilt exactly. */
  lemma PlainRoundTrip(body: string, charset: Charset)
    requires ' ' !in body && '-' !in body
    ensures Prepare(Some(ReplaceChar(CERT_BEGIN + "\n" + body + "\n" + CERT_END, '\n', ' ')), charset)
            == Pem(CERT_BEGIN + "\n" + body + "\n" + CERT_END)
  {
    var x := " " + ReplaceChar(body, '\n', ' ') + " ";
    FlattenFramed(CERT_BEGIN, CERT_END, body);
    FramedByPlainMarkers(x);
    PlainBranchTaken(CERT_BEGIN + (x + CERT_END), charset);
    NormaliseFlattened(body);
    FrameAssoc(CERT_BEGIN, CERT_END, body);
    AppendAssoc(CERT_BEGIN, "\n" + body + "\n", CERT_END);
  }

  /** Facts about a header in the encoded envelope around `mid`. */
  lemma EncodedEnvelope(mid: string)
    ensures HasRecognisedBegin(ENCODED_CERT_BEGIN + mid + ENCODED_CERT_END)
    ensures HasRecognisedEnd(ENCODED_CERT_BEGIN + mid + ENCODED_CERT_END)
    ensures !StartsWith(ENCODED_CERT_BEGIN + mid + ENCODED_CERT_END, CERT_BEGIN)
  {
    var h := ENCODED_CERT_BEGIN + mid + ENCODED_CERT_END;
    assert h[..|ENCODED_CERT_BEGIN|] == ENCODED_CERT_BEGIN;
    assert h[|h| - |ENCODED_CERT_END|..] == ENCODED_CERT_END;
    assert h[10] == '%' && CERT_BEGIN[10] == ' ';
  }

  /** A header in either envelope that does not start with the plain begin
      marker goes down the percent branch; the decoder decides the outcome. */
  lemma PercentBranchTaken(h: string, charset: Charset)
    requires HasRecognisedBegin(h) && HasRecognisedEnd(h) && !StartsWith(h, CERT_BEGIN)
    ensures FirstError(h).Some? ==> Prepare(Some(h), charset) == Raised(FirstError(h).value)
    ensures FirstError(h).None? ==> Prepare(Some(h), charset) == Pem(Trim(FormDecode(h, charset).value))
  {
    assert h != "" by { assert |CERT_BEGIN| > 0 && |ENCODED_CERT_BEGIN| > 0; }
  }

  /** `trim` removes the line break a proxy appends after the end marker. */
  lemma TrimFinalBreak(t: string)
    ensures Trim(CERT_BEGIN + "\n" + t + "\n" + CERT_END + "\n") == CERT_BEGIN + "\n" + t + "\n" + CERT_END
  {
    var u := CERT_BEGIN + "\n" + t + "\n" + CERT_END;
    assert u[0] == CERT_BEGIN[0] == '-';
    assert u[|u| - 1] == CERT_END[|CERT_END| - 1] == '-';
    assert AllBlank("\n");
    TrimOf([], u, "\n");
    assert [] + u + "\n" == u + "\n";
  }

  /** Percent branch: with well-formed ASCII escapes inside the encoded
      envelope, the text handed to the reader starts with the plain begin
      marker and ends with the plain end marker; `trim` drops only the final
      line break. */
  lemma PercentBranch(mid: string, charset: Charset)
    requires AsciiTransparent(charset)
    requires RefDecode(mid).Some?
    ensures Prepare(Some(ENCODED_CERT_BEGIN + mid + ENCODED_CERT_END), charset)
            == Pem(CERT_BEGIN + "\n" + RefDecode(mid).value + "\n" + CERT_END)
  {
    var h := ENCODED_CERT_BEGIN + mid + ENCODED_CERT_END;
    var t := RefDecode(mid).value;
    EncodedEnvelopeDecodes(mid, charset);
    EncodedEnvelope(mid);
    PercentBranchTaken(h, charset);
    TrimFinalBreak(t);
  }

  lemma BreakFramingAssoc(a: string, t: string, e: string)
    ensures (a + "\n") + t + ("\n" + e + "\n") == a + "\n" + t + "\n" + e + "\n"
  {
  }

  /** The encoded envelope decodes to the plain markers around the decoded
      middle, with a final line break. */
  lemma EncodedEnvelopeDecodes(mid: string, charset: Charset)
    requires AsciiTransparent(charset)
    requires RefDecode(mid).Some?
    ensures FormDecode(ENCODED_CERT_BEGIN + mid + ENCODED_CERT_END, charset)
            == Success(CERT_BEGIN + "\n" + RefDecode(mid).value + "\n" + CERT_END + "\n")
  {
    EncodedMarkersDecode();
    DecodeThreeParts(ENCODED_CERT_BEGIN, mid, ENCODED_CERT_END, charset);
    BreakFramingAssoc(CERT_BEGIN, RefDecode(mid).value, CERT_END);
  }

  /** Percent-encoding a framed body encodes the framing and the body apart. */
  lemma EncodeFramed(a: string, body: string, e: string)
    ensures PercentEncode(a + "\n" + body + "\n" + e + "\n")
            == PercentEncode(a + "\n") + PercentEncode(body) + PercentEncode("\n" + e + "\n")
  {
    BreakFramingAssoc(a, body, e);
    AppendAssoc(a + "\n", body, "\n" + e + "\n");
    PercentEncodeConcat(a + "\n", body + ("\n" + e + "\n"));
    PercentEncodeConcat(body, "\n" + e + "\n");
    AppendAssoc(PercentEncode(a + "\n"), PercentEncode(body), PercentEncode("\n" + e + "\n"));
  }

  /** Percent round trip: whatever PEM text the proxy percent-encoded (with
      its final line break) comes back without that line break. */
  lemma PercentRoundTrip(body: string, charset: Charset)
    requires AsciiTransparent(charset)
    ensures Prepare(Some(PercentEncode(CERT_BEGIN + "\n" + body + "\n" + CERT_END + "\n")), charset)
            == Pem(CERT_BEGIN + "\n" + body + "\n" + CERT_END)
  {
    EncodeFramed(CERT_BEGIN, body, CERT_END);
    EncodedBeginIsEncoded();
    EncodedEndIsEncoded();
    PercentEncodeRoundTrip(body);
    PercentBranch(PercentEncode(body), charset);
  }

  /** A literal `+` in an encoded header reaches the reader as a space, so a
      base64 body containing `+` is corrupted. */
  lemma PlusBecomesSpace(mid: string, charset: Charset)
    requires AsciiTransparent(charset)
    requires '%' !in mid
    ensures Prepare(Some(ENCODED_CERT_BEGIN + mid + ENCODED_CERT_END), charset)
            == Pem(CERT_BEGIN + "\n" + ReplaceChar(mid, '+', ' ') + "\n" + CERT_END)
  {
    RefDecodeWithoutEscapes(mid);
    PercentBranch(mid, charset);
  }

  /** A malformed escape in an encoded header is not "no certificate": the
      decoder's exception leaves the customizer. The exception is the first
      error of the whole header, whose kind may differ from that of `mid`
      alone (a trailing `%4` followed by `%0A` is an illegal hex escape). */
  lemma MalformedEscapeThrows(mid: string, req: Request, reader: PemReader, charset: Charset)
    requires FirstError(mid).Some?
    requires GetHeader(req.headers, CLIENT_CERT_HEADER) == Some(ENCODED_CERT_BEGIN + mid + ENCODED_CERT_END)
    ensures Prepare(Some(ENCODED_CERT_BEGIN + mid + ENCODED_CERT_END), charset).Raised?
    ensures Customize(req, reader, charset) == Failure(FirstError(ENCODED_CERT_BEGIN + mid + ENCODED_CERT_END).value)
  {
    var h := ENCODED_CERT_BEGIN + mid + ENCODED_CERT_END;
    EncodedEnvelope(mid);
    EncodedMarkersDecode();
    RefDecodeWellFormed(ENCODED_CERT_BEGIN);
    assert ENCODED_CERT_END[0] == '%';
    FirstErrorBeforeEscape(mid, ENCODED_CERT_END);
    AppendAssoc(ENCODED_CERT_BEGIN, mid, ENCODED_CERT_END);
    FirstErrorConcat(ENCODED_CERT_BEGIN, mid + ENCODED_CERT_END);
    PercentBranchTaken(h, charset);
  }

  /** The begin and end checks are independent: a plain begin marker with an
      encoded end marker passes and goes down the plain branch. */
  lemma PlainBeginEncodedEndAccepted(mid: string, charset: Charset)
    ensures Prepare(Some(CERT_BEGIN + mid + ENCODED_CERT_END), charset)
            == Pem(NormalisePlain(CERT_BEGIN + mid + ENCODED_CERT_END))
  {
    var h := CERT_BEGIN + mid + ENCODED_CERT_END;
    assert h[..|CERT_BEGIN|] == CERT_BEGIN;
    assert h[|h| - |ENCODED_CERT_END|..] == ENCODED_CERT_END;
  }

  /** ... and an encoded begin marker with a plain end marker passes and goes
      down the percent branch. */
  lemma EncodedBeginPlainEndAccepted(mid: string, charset: Charset)
    ensures !Prepare(Some(ENCODED_CERT_BEGIN + mid + CERT_END), charset).Rejected?
    ensures FirstError(ENCODED_CERT_BEGIN + mid + CERT_END).None? ==>
                  Prepare(Some(ENCODED_CERT_BEGIN + mid + CERT_END), charset)
                  == Pem(Trim(FormDecode(ENCODED_CERT_BEGIN + mid + CERT_END, charset).value))
  {
    var h := ENCODED_CERT_BEGIN + mid + CERT_END;
    assert h[..|ENCODED_CERT_BEGIN|] == ENCODED_CERT_BEGIN;
    assert h[|h| - |CERT_END|..] == CERT_END;
    assert h[10] == '%' && CERT_BEGIN[10] == ' ';
  }

  /** Facts about a header with the encoded begin marker and the plain end
      marker around `mid`. */
  lemma MixedEnvelope(mid: string)
    ensures HasRecognisedBegin(ENCODED_CERT_BEGIN + mid + CERT_END)
    ensures HasRecognisedEnd(ENCODED_CERT_BEGIN + mid + CERT_END)
    ensures !StartsWith(ENCODED_CERT_BEGIN + mid + CERT_END, CERT_BEGIN)
  {
    var h := ENCODED_CERT_BEGIN + mid + CERT_END;
    assert h[..|ENCODED_CERT_BEGIN|] == ENCODED_CERT_BEGIN;
    assert h[|h| - |CERT_END|..] == CERT_END;
    assert h[10] == '%' && CERT_BEGIN[10] == ' ';
  }

  /** The plain end marker holds neither `%` nor `+`, so it decodes to itself. */
  lemma PlainEndDecodes()
    ensures RefDecode(CERT_END) == Some(CERT_END)
  {
    assert '%' !in CERT_END && '+' !in CERT_END;
    RefDecodeWithoutEscapes(CERT_END);
    ReplaceCharAbsent(CERT_END, '+', ' ');
  }

  /** The mixed envelope decodes to the plain begin marker and a line break,
      the decoded middle, and the end marker unchanged. */
  lemma MixedEnvelopeDecodes(mid: string, charset: Charset)
    requires AsciiTransparent(charset)
    requires RefDecode(mid).Some?
    ensures FirstError(ENCODED_CERT_BEGIN + mid + CERT_END).None?
    ensures FormDecode(ENCODED_CERT_BEGIN + mid + CERT_END, charset)
            == Success(CERT_BEGIN + "\n" + RefDecode(mid).value + CERT_END)
  {
    EncodedMarkersDecode();
    PlainEndDecodes();
    DecodeThreeParts(ENCODED_CERT_BEGIN, mid, CERT_END, charset);
    RefDecodeConcat(ENCODED_CERT_BEGIN, mid);
    RefDecodeConcat(ENCODED_CERT_BEGIN + mid, CERT_END);
    RefDecodeWellFormed(ENCODED_CERT_BEGIN + mid + CERT_END);
  }

  /** Percent branch for the mixed envelope: with well-formed ASCII escapes
      the reader gets the plain begin marker, a line break, the decoded middle
      and the end marker; there is no final line break for `trim` to drop. */
  lemma EncodedBeginPlainEndDecodes(mid: string, charset: Charset)
    requires AsciiTransparent(charset)
    requires RefDecode(mid).Some?
    ensures Prepare(Some(ENCODED_CERT_BEGIN + mid + CERT_END), charset)
            == Pem(CERT_BEGIN + "\n" + RefDecode(mid).value + CERT_END)
  {
    var u := CERT_BEGIN + "\n" + RefDecode(mid).value + CERT_END;
    MixedEnvelope(mid);
    MixedEnvelopeDecodes(mid, charset);
    PercentBranchTaken(ENCODED_CERT_BEGIN + mid + CERT_END, charset);
    assert u[0] == CERT_BEGIN[0] == '-';
    assert u[|u| - 1] == CERT_END[|CERT_END| - 1] == '-';
    TrimOf([], u, []);
    assert [] + u + [] == u;
  }

  /** The encoded begin marker is the begin marker's encoding followed by an
      encoded line break, which is where the encoded end marker starts. */
  lemma EncodedBeginSplit()
    ensures ENCODED_CERT_BEGIN == PercentEncode(CERT_BEGIN) + "%0A"
  {
    EncodedBeginIsEncoded();
    PercentEncodeConcat(CERT_BEGIN, "\n");
    EncodeBreak();
  }

  lemma EncodeBreak()
    ensures PercentEncode("\n") == "%0A"
  {
  }

  lemma EncodedEndStartsWithBreak()
    ensures ENCODED_CERT_END == "%0A" + ENCODED_CERT_END[3..]
  {
  }

  lemma MarkerCharsAtTen()
    ensures |ENCODED_CERT_BEGIN| == 32 && ENCODED_CERT_BEGIN[10] == '%'
    ensures |CERT_BEGIN| > 10 && CERT_BEGIN[10] == ' '
  {
  }

  /** `p + t` is a prefix of `p + (t + r)`, and `e` a suffix of `p + e`. */
  lemma ConcatEnds(p: string, t: string, r: string)
    ensures StartsWith(p + (t + r), p + t)
    ensures EndsWith(p + (t + r), t + r)
  {
    assert (p + (t + r))[..|p + t|] == p + t;
    assert (p + (t + r))[|p| ..] == t + r;
  }

  /** Two texts that share the first `|p|` characters agree before `|p|`. */
  lemma SharedPrefixChar(p: string, t: string, r: string, k: nat)
    requires k < |p|
    ensures k < |p + r| && k < |p + t| && (p + r)[k] == (p + t)[k]
  {
  }

  /** A text differing from `c` at some index of both does not start with `c`. */
  lemma DiffersAt(h: string, c: string, k: nat)
    requires k < |c| && k < |h| && h[k] != c[k]
    ensures !StartsWith(h, c)
  {
    if |c| <= |h| {
      assert h[..|c|][k] == h[k];
    }
  }

  /** Facts about the header in which the encoded markers overlap: the
      begin marker's encoding straight before the encoded end marker. */
  lemma OverlapEnvelope()
    ensures HasRecognisedBegin(PercentEncode(CERT_BEGIN) + ENCODED_CERT_END)
    ensures HasRecognisedEnd(PercentEncode(CERT_BEGIN) + ENCODED_CERT_END)
    ensures !StartsWith(PercentEncode(CERT_BEGIN) + ENCODED_CERT_END, CERT_BEGIN)
  {
    var p := PercentEncode(CERT_BEGIN);
    var r := ENCODED_CERT_END[3..];
    EncodedBeginSplit();
    EncodedEndStartsWithBreak();
    MarkerCharsAtTen();
    ConcatEnds(p, "%0A", r);
    SharedPrefixChar(p, "%0A", ENCODED_CERT_END, 10);
    DiffersAt(p + ENCODED_CERT_END, CERT_BEGIN, 10);
  }

  /** The decoded overlapping header, before `trim`. */
  lemma OverlapDecodes(charset: Charset)
    requires AsciiTransparent(charset)
    ensures FirstError(PercentEncode(CERT_BEGIN) + ENCODED_CERT_END).None?
    ensures FormDecode(PercentEncode(CERT_BEGIN) + ENCODED_CERT_END, charset)
            == Success(CERT_BEGIN + ("\n" + CERT_END + "\n"))
  {
    var h := PercentEncode(CERT_BEGIN) + ENCODED_CERT_END;
    PercentEncodeRoundTrip(CERT_BEGIN);
    EncodedMarkersDecode();
    RefDecodeConcat(PercentEncode(CERT_BEGIN), ENCODED_CERT_END);
    FormDecodeMatchesReference(h, charset);
    RefDecodeWellFormed(h);
  }

  /** `trim` of the two plain markers on two lines drops the final break. */
  lemma TrimTwoMarkers()
    ensures Trim(CERT_BEGIN + ("\n" + CERT_END + "\n")) == CERT_BEGIN + "\n" + CERT_END
  {
    var u := CERT_BEGIN + "\n" + CERT_END;
    assert CERT_BEGIN + ("\n" + CERT_END + "\n") == [] + u + "\n";
    assert u[0] == CERT_BEGIN[0] == '-';
    assert u[|u| - 1] == CERT_END[|CERT_END| - 1] == '-';
    assert AllBlank("\n");
    TrimOf([], u, "\n");
  }

  /** The header in which the encoded markers share their line break: the encoded begin marker without its final `%0A`
      (the begin marker's encoding), then the encoded end marker. It reaches
      the reader as the two plain markers on two lines, nothing between. */
  lemma EncodedMarkersOverlap(charset: Charset)
    requires AsciiTransparent(charset)
    ensures ENCODED_CERT_BEGIN == PercentEncode(CERT_BEGIN) + "%0A"
    ensures Prepare(Some(PercentEncode(CERT_BEGIN) + ENCODED_CERT_END), charset)
            == Pem(CERT_BEGIN + "\n" + CERT_END)
  {
    EncodedBeginSplit();
    OverlapEnvelope();
    OverlapDecodes(charset);
    PercentBranchTaken(PercentEncode(CERT_BEGIN) + ENCODED_CERT_END, charset);
    TrimTwoMarkers();
  }
}
