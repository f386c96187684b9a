/** The text helpers of the logging filter: the request body as a log line
    with its control characters removed, the memoised request body, and the
    renderings of request parameters and of request and response headers. */
module RequestLogging {
  import opened Wrappers
  import opened Bytes

  // ---------------------------------------------------------------------
  // Control characters
  // ---------------------------------------------------------------------

  /** A character of Unicode general category Cc: U+0000 to U+001F and
      U+007F to U+009F. */
  predicate IsControl(c: char) {
    c as int <= 0x1F || 0x7F <= c as int <= 0x9F
  }

  /** The text with every control character deleted. */
  function StripControls(s: string): string
    decreases |s|
  {
    if |s| == 0 then []
    else (if IsControl(s[0]) then [] else [s[0]]) + StripControls(s[1..])
  }

  /** The number of control characters in the text. */
  function ControlCount(s: string): nat
    decreases |s|
  {
    if |s| == 0 then 0
    else (if IsControl(s[0]) then 1 else 0) + ControlCount(s[1..])
  }

  lemma {:induction false} StripControlsConcat(a: string, b: string)
    ensures StripControls(a + b) == StripControls(a) + StripControls(b)
    decreases |a|
  {
    if |a| == 0 {
      assert a + b == b;
    } else {
      assert (a + b)[0] == a[0];
      assert (a + b)[1..] == a[1..] + b;
      StripControlsConcat(a[1..], b);
    }
  }

  lemma {:induction false} ControlCountConcat(a: string, b: string)
    ensures ControlCount(a + b) == ControlCount(a) + ControlCount(b)
    decreases |a|
  {
    if |a| == 0 {
      assert a + b == b;
    } else {
      assert (a + b)[0] == a[0];
      assert (a + b)[1..] == a[1..] + b;
      ControlCountConcat(a[1..], b);
    }
  }

  lemma StripControlsOne(c: char)
    ensures StripControls([c]) == (if IsControl(c) then [] else [c])
    ensures ControlCount([c]) == (if IsControl(c) then 1 else 0)
  {
    assert [c][1..] == [];
  }

  /** Stripping deletes exactly the counted characters and no others: no
      control character is left, every other character keeps its number of
      occurrences, and the lengths add up. */
  lemma StripControlsDeletesOnly(s: string)
    ensures forall i :: 0 <= i < |StripControls(s)| ==> !IsControl(StripControls(s)[i])
    ensures forall c :: !IsControl(c) ==> multiset(StripControls(s))[c] == multiset(s)[c]
    ensures |StripControls(s)| + ControlCount(s) == |s|
  {
    StripControlsLeavesNoControl(s);
    StripControlsKeepsOthers(s);
    StripControlsLength(s);
  }

  lemma {:induction false} StripControlsLeavesNoControl(s: string)
    ensures forall i :: 0 <= i < |StripControls(s)| ==> !IsControl(StripControls(s)[i])
    decreases |s|
  {
    if |s| > 0 {
      StripControlsLeavesNoControl(s[1..]);
    }
  }

  lemma {:induction false} StripControlsKeepsOthers(s: string)
    ensures forall c :: !IsControl(c) ==> multiset(StripControls(s))[c] == multiset(s)[c]
    decreases |s|
  {
    if |s| > 0 {
      StripControlsKeepsOthers(s[1..]);
      assert s == [s[0]] + s[1..];
      assert multiset(s) == multiset([s[0]]) + multiset(s[1..]);
      var head := if IsControl(s[0]) then [] else [s[0]];
      assert multiset(StripControls(s)) == multiset(head) + multiset(StripControls(s[1..]));
    }
  }

  lemma {:induction false} StripControlsLength(s: string)
    ensures |StripControls(s)| + ControlCount(s) == |s|
    decreases |s|
  {
    if |s| > 0 {
      StripControlsLength(s[1..]);
    }
  }

  /** A text without control characters is left as it is. */
  lemma {:induction false} StripControlsClean(s: string)
    requires forall i :: 0 <= i < |s| ==> !IsControl(s[i])
    ensures StripControls(s) == s && ControlCount(s) == 0
    decreases |s|
  {
    if |s| > 0 {
      StripControlsClean(s[1..]);
    }
  }

  /** The warning `bodyAsString` logs: the count and the plural suffix. */
  datatype ControlWarning = ControlWarning(count: nat, suffix: string)

  /** The matcher loop of `bodyAsString` counting control characters, then
      `replaceAll("")` deleting them. */
  method Sanitise(body: string) returns (text: string, warning: Option<ControlWarning>)
    ensures text == StripControls(body)
    ensures warning.Some? <==> ControlCount(body) > 0
    ensures warning.Some? ==> warning.value.count == ControlCount(body)
    ensures warning.Some? ==> (warning.value.suffix == "s" <==> warning.value.count > 1)
    ensures warning.Some? ==> (warning.value.suffix == "" <==> warning.value.count == 1)
  {
    var count := 0;
    var i := 0;
    while i < |body|
      invariant 0 <= i <= |body|
      invariant count == ControlCount(body[..i])
    {
      ControlCountConcat(body[..i], [body[i]]);
      StripControlsOne(body[i]);
      assert body[..i + 1] == body[..i] + [body[i]];
      if IsControl(body[i]) {
        count := count + 1;
      }
      i := i + 1;
    }
    assert body[..i] == body;

    if count > 0 {
      warning := Some(ControlWarning(count, if count > 1 then "s" else ""));
    } else {
      warning := None;
    }

    text := [];
    i := 0;
    while i < |body|
      invariant 0 <= i <= |body|
      invariant text == StripControls(body[..i])
    {
      StripControlsConcat(body[..i], [body[i]]);
      StripControlsOne(body[i]);
      assert body[..i + 1] == body[..i] + [body[i]];
      if !IsControl(body[i]) {
        text := text + [body[i]];
      }
      i := i + 1;
    }
    assert body[..i] == body;
    StripControlsLength(body);
  }

  // ---------------------------------------------------------------------
  // The memoised request body
  // ---------------------------------------------------------------------

  /** The request wrapper: what the underlying input stream still holds,
      the remembered body, and how often the underlying stream was opened. */
  datatype RequestWrapper = RequestWrapper(input: seq<Byte>, body: Option<seq<Byte>>, streamOpens: nat)

  /** A new wrapper around a request whose stream holds `content`. */
  function Wrap(content: seq<Byte>): RequestWrapper {
    RequestWrapper(content, None, 0)
  }

  datatype BodyRead = BodyRead(wrapper: RequestWrapper, bytes: seq<Byte>)

  /** `getBody`: the first call drains the underlying stream and remembers
      what it read; later calls return what was remembered. */
  function GetBody(w: RequestWrapper): (r: BodyRead)
    ensures w.body.None? ==> r.bytes == w.input && r.wrapper.streamOpens == w.streamOpens + 1
    ensures w.body.Some? ==> r == BodyRead(w, w.body.value)
    ensures r.wrapper.body == Some(r.bytes)
  {
    match w.body
    case None => BodyRead(RequestWrapper([], Some(w.input), w.streamOpens + 1), w.input)
    case Some(b) => BodyRead(w, b)
  }

  /** The wrapper after `n` calls of `getBody`. */
  function GetBodyTimes(w: RequestWrapper, n: nat): RequestWrapper
    decreases n
  {
    if n == 0 then w else GetBodyTimes(GetBody(w).wrapper, n - 1)
  }

  /** However often `getBody` is called on a new wrapper, the underlying
      stream is opened at most once, and every call returns the whole
      original content. */
  lemma {:induction false} GetBodyMemoised(content: seq<Byte>, n: nat)
    ensures GetBodyTimes(Wrap(content), n).streamOpens == (if n == 0 then 0 else 1)
    ensures GetBody(GetBodyTimes(Wrap(content), n)).bytes == content
  {
    if n > 0 {
      StableAfterFirstRead(GetBody(Wrap(content)).wrapper, n - 1);
    }
  }

  lemma {:induction false} StableAfterFirstRead(w: RequestWrapper, n: nat)
    requires w.body.Some?
    ensures GetBodyTimes(w, n) == w
    decreases n
  {
    if n > 0 {
      StableAfterFirstRead(GetBody(w).wrapper, n - 1);
    }
  }

  /** `bodyAsString`: the body, through the platform charset, with its
      control characters removed and a warning when any were. */
  method BodyAsString(w: RequestWrapper, charset: Charset)
    returns (next: RequestWrapper, text: string, warning: Option<ControlWarning>)
    ensures next == GetBody(w).wrapper
    ensures text == StripControls(charset(GetBody(w).bytes))
    ensures warning.Some? <==> ControlCount(charset(GetBody(w).bytes)) > 0
    ensures warning.Some? ==> warning.value.count == ControlCount(charset(GetBody(w).bytes))
  {
    var read := GetBody(w);
    next := read.wrapper;
    var decoded := charset(read.bytes);
    text, warning := Sanitise(decoded);
  }

  // ---------------------------------------------------------------------
  // Parameters and headers
  // ---------------------------------------------------------------------

  /** A name with the value the request or response reports for it; `None`
      is a null value. */
  datatype Entry = Entry(name: string, value: Option<string>)

  /** `StringBuilder.append(String)`: a null value appends "null". */
  function Appended(v: Option<string>): string {
    match v
    case None => "null"
    case Some(s) => s
  }

  const SEPARATOR: string := "; "

  /** The parts separated by `sep`, with no separator before the first or
      after the last. */
  function Join(parts: seq<string>, sep: string): string
    decreases |parts|
  {
    if |parts| == 0 then ""
    else if |parts| == 1 then parts[0]
    else parts[0] + sep + Join(parts[1..], sep)
  }

  function TotalLength(parts: seq<string>): nat
    decreases |parts|
  {
    if |parts| == 0 then 0 else |parts[0]| + TotalLength(parts[1..])
  }

  /** Appending a part adds one separator, except to nothing. */
  lemma {:induction false} JoinSnoc(parts: seq<string>, p: string, sep: string)
    ensures Join(parts + [p], sep) == if |parts| == 0 then p else Join(parts, sep) + sep + p
    decreases |parts|
  {
    if |parts| == 0 {
      assert parts + [p] == [p];
    } else if |parts| == 1 {
      assert (parts + [p])[1..] == [p];
    } else {
      assert (parts + [p])[1..] == parts[1..] + [p];
      JoinSnoc(parts[1..], p, sep);
    }
  }

  /** The joined text is as long as the parts together plus one separator
      per gap between neighbours. */
  lemma {:induction false} JoinLength(parts: seq<string>, sep: string)
    ensures |Join(parts, sep)| == TotalLength(parts) + (if |parts| == 0 then 0 else (|parts| - 1) * |sep|)
    decreases |parts|
  {
    if |parts| > 1 {
      JoinLength(parts[1..], sep);
    }
  }

  /** Where part `i` starts in the joined text: after the parts before it
      and one separator after each of them. */
  function PartStart(parts: seq<string>, sep: string, i: nat): nat
    requires i <= |parts|
  {
    TotalLength(parts[..i]) + i * |sep|
  }

  lemma PartStartShift(parts: seq<string>, sep: string, i: nat)
    requires 0 < i <= |parts|
    ensures PartStart(parts, sep, i) == |parts[0]| + |sep| + PartStart(parts[1..], sep, i - 1)
  {
    assert parts[..i][1..] == parts[1..][..i - 1];
  }

  /** Slicing past a prefix slices the rest. */
  lemma SliceAfter<T>(a: seq<T>, b: seq<T>, x: nat, y: nat)
    requires x <= y <= |b|
    ensures (a + b)[|a| + x..|a| + y] == b[x..y]
  {
  }

  /** The next part starts after this part and one separator. */
  lemma {:induction false} PartStartNext(parts: seq<string>, sep: string, i: nat)
    requires i < |parts|
    ensures PartStart(parts, sep, i + 1) == PartStart(parts, sep, i) + |parts[i]| + |sep|
    decreases i
  {
    PartStartShift(parts, sep, i + 1);
    if i == 0 {
      assert parts[..0] == [] && parts[1..][..0] == [];
    } else {
      PartStartShift(parts, sep, i);
      PartStartNext(parts[1..], sep, i - 1);
    }
  }

  /** With two parts or more the text is the first part, a separator, and
      the rest joined. */
  lemma JoinFirst(parts: seq<string>, sep: string)
    requires |parts| > 1
    ensures Join(parts, sep) == (parts[0] + sep) + Join(parts[1..], sep)
  {
  }

  /** A part found in `rest`, and the separator after it, are found again
      `|a|` further on in `a + rest`. */
  lemma ShiftedPart(a: string, rest: string, st: nat, p: string, sep: string, more: bool)
    requires st + |p| + (if more then |sep| else 0) <= |rest|
    requires rest[st..st + |p|] == p
    requires more ==> rest[st + |p|..st + |p| + |sep|] == sep
    ensures |a| + st + |p| + (if more then |sep| else 0) <= |a + rest|
    ensures (a + rest)[|a| + st..|a| + st + |p|] == p
    ensures more ==> (a + rest)[|a| + st + |p|..|a| + st + |p| + |sep|] == sep
  {
    SliceAfter(a, rest, st, st + |p|);
    if more {
      SliceAfter(a, rest, st + |p|, st + |p| + |sep|);
    }
  }

  /** The joined text starts with the first part, followed by a separator
      when there is a second part. */
  lemma JoinHead(parts: seq<string>, sep: string)
    requires 0 < |parts|
    ensures |parts[0]| + (if 1 < |parts| then |sep| else 0) <= |Join(parts, sep)|
    ensures Join(parts, sep)[..|parts[0]|] == parts[0]
    ensures 1 < |parts| ==> Join(parts, sep)[|parts[0]|..|parts[0]| + |sep|] == sep
  {
    if 1 < |parts| {
      JoinFirst(parts, sep);
      var j := Join(parts, sep);
      assert j == parts[0] + (sep + Join(parts[1..], sep));
    }
  }

  /** The joined text holds part `i` at `PartStart(i)`, followed by exactly
      one separator when another part comes after it; with `PartStartNext`
      and `JoinLength` the parts and separators cover the whole text. */
  lemma {:induction false} JoinContents(parts: seq<string>, sep: string, i: nat)
    requires i < |parts|
    ensures PartStart(parts, sep, i) + |parts[i]| + (if i + 1 < |parts| then |sep| else 0) <= |Join(parts, sep)|
    ensures Join(parts, sep)[PartStart(parts, sep, i)..PartStart(parts, sep, i) + |parts[i]|] == parts[i]
    ensures i + 1 < |parts| ==>
              Join(parts, sep)[PartStart(parts, sep, i) + |parts[i]|..PartStart(parts, sep, i) + |parts[i]| + |sep|] == sep
    decreases |parts|
  {
    if i == 0 {
      assert parts[..0] == [];
      JoinHead(parts, sep);
    } else {
      JoinFirst(parts, sep);
      JoinContents(parts[1..], sep, i - 1);
      PartStartShift(parts, sep, i);
      ShiftedPart(parts[0] + sep, Join(parts[1..], sep), PartStart(parts[1..], sep, i - 1), parts[i], sep, i + 1 < |parts|);
    }
  }

  /** The rendering of each entry: name, link, value. */
  function Rendered(entries: seq<Entry>, link: string): (r: seq<string>)
    ensures |r| == |entries|
    ensures forall i :: 0 <= i < |entries| ==> r[i] == entries[i].name + link + Appended(entries[i].value)
  {
    if |entries| == 0 then [] else [entries[0].name + link + Appended(entries[0].value)] + Rendered(entries[1..], link)
  }

  /** The loop shared by `toParameter` and both `toHeaders`: a separator
      before every entry but the first. */
  method RenderEntries(entries: seq<Entry>, link: string) returns (out: string)
    ensures out == Join(Rendered(entries, link), SEPARATOR)
  {
    ghost var parts := Rendered(entries, link);
    out := "";
    var first := true;
    var i := 0;
    while i < |entries|
      invariant 0 <= i <= |entries|
      invariant first <==> i == 0
      invariant out == Join(parts[..i], SEPARATOR)
    {
      var piece := entries[i].name + link + Appended(entries[i].value);
      assert parts[..i + 1] == parts[..i] + [piece];
      JoinSnoc(parts[..i], piece, SEPARATOR);
      if first {
        first := false;
      } else {
        out := out + SEPARATOR;
      }
      out := out + piece;
      i := i + 1;
    }
    assert parts[..i] == parts;
  }

  /** `toParameter`: `name=value` for every parameter, in enumeration order. */
  method ToParameter(parameters: seq<Entry>) returns (out: string)
    ensures out == Join(Rendered(parameters, "="), SEPARATOR)
  {
    out := RenderEntries(parameters, "=");
  }

  /** `toHeaders` for the request: `name: value` for every header name, in
      enumeration order. */
  method ToRequestHeaders(headers: seq<Entry>) returns (out: string)
    ensures out == Join(Rendered(headers, ": "), SEPARATOR)
  {
    out := RenderEntries(headers, ": ");
  }

  /** `toHeaders` for the response: the same rendering over the response's
      header names. */
  method ToResponseHeaders(headers: seq<Entry>) returns (out: string)
    ensures out == Join(Rendered(headers, ": "), SEPARATOR)
  {
    out := RenderEntries(headers, ": ");
  }

  /** The rendering of a longer list extends that of its prefix by one
      separator and the new entry. */
  lemma RenderedSnoc(entries: seq<Entry>, e: Entry, link: string)
    ensures Join(Rendered(entries + [e], link), SEPARATOR) ==
            if |entries| == 0 then e.name + link + Appended(e.value)
            else Join(Rendered(entries, link), SEPARATOR) + SEPARATOR + e.name + link + Appended(e.value)
  {
    assert Rendered(entries + [e], link) == Rendered(entries, link) + [e.name + link + Appended(e.value)];
    JoinSnoc(Rendered(entries, link), e.name + link + Appended(e.value), SEPARATOR);
  }
}
