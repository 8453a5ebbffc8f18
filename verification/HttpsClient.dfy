/**
 What a client reads in an answer: where the header ends, its status line and fields, and that the
 bytes announced are the bytes sent.
 */
module HttpsClient {
  import opened Basics
  import opened HttpsRange
  import opened HttpsText
  import opened HttpsGrammar
  import opened HttpsReply

  // ---------------------------------------------------------------------
  // Headers as status line and fields
  // ---------------------------------------------------------------------

  /** A field as the server writes it. */
  function Line(name: string, value: string): Field {
    Field(name, " ", value, "")
  }

  /** The header is this status line and these fields, and a blank line. */
  predicate Framed(header: string, line: string, fs: seq<Field>) {
    && line != "" && NoReturn(line) && (forall i | 0 <= i < |fs| :: ValidField(fs[i]))
    && header == line + RenderFields(fs) + BLANK
  }

  predicate Has(fs: seq<Field>, name: string, value: string) {
    Line(name, value) in fs
  }

  /** The bytes of an answer, cut at the first blank line, give header and body. */
  lemma HeaderEnds(header: string, body: string, line: string, fs: seq<Field>)
    requires Framed(header, line, fs)
    ensures |header| >= 4 && StrStr(header + body, 0, BLANK) == Some(|header| - 4)
  {
    hide Occurs, RenderFields, ValidField;
    var more := RenderFields(fs);
    var n := |line| + |more|;
    var all := header + body;
    Join(line + more, BLANK, body);
    Join(line, more, BLANK + body);
    assert all == line + (more + (BLANK + body));
    assert Occurs(all, n, BLANK) by { BlankOccurs(line + more, body, all); }
    forall k | 0 <= k < n
      ensures !Occurs(all, k, BLANK) && all[k] != NUL
    {
      if k < |line| {
        assert all[k] == line[k] && line[k] in line;
        BlankReturns(all, k);
      } else {
        OccursLater(line, more + (BLANK + body), k);
        RenderedFieldsEndAtBlank(fs, BLANK + body, k - |line|);
      }
    }
    NoNulBefore(all, n);
    StrStrIs(all, 0, BLANK, n);
  }

  lemma BlankOccurs(a: string, body: string, all: string)
    requires all == a + BLANK + body
    ensures Occurs(all, |a|, BLANK) && all[|a|] == '\r'
  {
    assert all[|a|..|a| + 4] == BLANK;
  }

  lemma NoNulBefore(t: string, n: nat)
    requires n < |t| && t[n] != NUL && forall k | 0 <= k < n :: t[k] != NUL
    ensures NUL !in t[0..n + 1]
  {}

  /** Fields as they are put in front of others, each with its own line end. */
  function Lines(fs: seq<Field>): string {
    if fs == [] then "" else RenderField(fs[0]) + CRLF + Lines(fs[1..])
  }

  lemma {:induction false} LinesRender(fs: seq<Field>)
    ensures CRLF + Lines(fs) == RenderFields(fs) + CRLF
    decreases |fs|
  {
    hide RenderField;
    if fs != [] {
      LinesRender(fs[1..]);
      var l := RenderField(fs[0]);
      assert CRLF + Lines(fs) == (CRLF + l) + (CRLF + Lines(fs[1..]));
      assert RenderFields(fs) + CRLF == (CRLF + l) + (RenderFields(fs[1..]) + CRLF);
    }
  }

  lemma {:induction false} LinesAppend(fs: seq<Field>, g: Field)
    ensures Lines(fs + [g]) == Lines(fs) + (RenderField(g) + CRLF)
    decreases |fs|
  {
    hide RenderField;
    if fs == [] {
      assert fs + [g] == [g] && [g][1..] == [];
    } else {
      assert (fs + [g])[0] == fs[0] && (fs + [g])[1..] == fs[1..] + [g];
      LinesAppend(fs[1..], g);
      Join(RenderField(fs[0]) + CRLF, Lines(fs[1..]), RenderField(g) + CRLF);
    }
  }

  lemma {:induction false} RenderAppend(fs: seq<Field>, g: Field)
    ensures RenderFields(fs + [g]) == RenderFields(fs) + (CRLF + RenderField(g))
    decreases |fs|
  {
    hide RenderField;
    if fs == [] {
      assert fs + [g] == [g] && [g][1..] == [];
    } else {
      assert (fs + [g])[0] == fs[0] && (fs + [g])[1..] == fs[1..] + [g];
      RenderAppend(fs[1..], g);
      Join(CRLF + RenderField(fs[0]), RenderFields(fs[1..]), CRLF + RenderField(g));
    }
  }

  lemma Chain(line: string, c: string, lines: string, fields: string, last: string, b: string)
    requires c + lines == fields + c
    ensures line + c + lines + last + b == line + (fields + (c + last)) + b
  {
    assert line + c + lines == line + (c + lines) == line + (fields + c);
    assert line + (fields + c) + last == line + (fields + (c + last));
  }

  lemma ValidMore(fs: seq<Field>, g: Field)
    requires (forall i | 0 <= i < |fs| :: ValidField(fs[i])) && ValidField(g)
    ensures forall i | 0 <= i < |fs + [g]| :: ValidField((fs + [g])[i])
  {
    hide ValidField;
  }

  /** Fields each with its line end, and a last one, are a framed header. */
  lemma FramedBy(header: string, line: string, fs: seq<Field>, g: Field)
    requires line != "" && NoReturn(line)
    requires (forall i | 0 <= i < |fs| :: ValidField(fs[i])) && ValidField(g)
    requires header == line + CRLF + Lines(fs) + RenderField(g) + BLANK
    ensures Framed(header, line, fs + [g])
  {
    hide RenderField, RenderFields, Lines, ValidField, NoReturn;
    LinesRender(fs);
    RenderAppend(fs, g);
    ValidMore(fs, g);
    Chain(line, CRLF, Lines(fs), RenderFields(fs), RenderField(g), BLANK);
  }

  // ---------------------------------------------------------------------
  // The headers of the server
  // ---------------------------------------------------------------------

  const NO_LENGTH := Line("Content-Length", "0")
  const CLOSE := Line("Connection", "close")
  const BY_BYTES := Line("Accept-Ranges", "bytes")

  function StatusLine(code: string, reason: string): string {
    "HTTP/1.1 " + code + " " + reason
  }

  predicate IsText(value: string) {
    && value != "" && !IsSpace(value[0]) && !IsSpace(value[|value| - 1])
    && forall i | 0 <= i < |value| :: IsValueChar(value[i])
  }

  lemma LineIsValid(name: string, value: string)
    requires IsToken(name) && IsText(value)
    ensures ValidField(Line(name, value)) && RenderField(Line(name, value)) == name + ": " + value
  {
    hide IsToken, IsValueChar;
  }

  lemma CloseIsValid()
    ensures ValidField(CLOSE) && RenderField(CLOSE) == "Connection: close"
  {
    assert IsToken("Connection");
    LineIsValid("Connection", "close");
  }

  lemma NoLengthIsValid()
    ensures ValidField(NO_LENGTH) && RenderField(NO_LENGTH) == "Content-Length: 0"
  {
    assert IsToken("Content-Length");
    LineIsValid("Content-Length", "0");
  }

  lemma EmptyText(code: string, reason: string, fs: seq<Field>)
    ensures Empty(code, reason, Lines(fs))
      == StatusLine(code, reason) + CRLF + (Lines(fs) + (RenderField(NO_LENGTH) + CRLF)) + RenderField(CLOSE) + BLANK
  {
    NoLengthIsValid();
    CloseIsValid();
    hide Lines, RenderField, ValidField;
    var line, extra := StatusLine(code, reason), Lines(fs);
    assert line + CRLF + extra + "Content-Length: 0" + CRLF
      == line + CRLF + (extra + ("Content-Length: 0" + CRLF));
  }

  /** A reply without a body says so, closes, and carries these fields. */
  lemma EmptyFramed(code: string, reason: string, fs: seq<Field>)
    requires NoReturn(StatusLine(code, reason)) && forall i | 0 <= i < |fs| :: ValidField(fs[i])
    ensures Framed(Empty(code, reason, Lines(fs)), StatusLine(code, reason), fs + [NO_LENGTH] + [CLOSE])
  {
    assert StatusLine(code, reason) != "";
    NoLengthIsValid();
    CloseIsValid();
    EmptyText(code, reason, fs);
    hide *;
    LinesAppend(fs, NO_LENGTH);
    ValidMore(fs, NO_LENGTH);
    FramedBy(Empty(code, reason, Lines(fs)), StatusLine(code, reason), fs + [NO_LENGTH], CLOSE);
  }

  predicate IsPlain(s: string) {
    forall i | 0 <= i < |s| :: 32 < s[i] as int < 127
  }

  lemma PlainIsText(s: string)
    requires s != "" && IsPlain(s)
    ensures IsText(s)
  {}

  lemma DigitsArePlain(n: nat)
    ensures IsPlain(Digits(n))
  {
    var s := Digits(n);
    forall i | 0 <= i < |s| ensures 32 < s[i] as int < 127 { assert IsDigit(s[i]); }
    hide Digits;
  }

  /** What is sent of a file, as it is announced. */
  function RangeText(a: nat, b: nat, size: nat): string {
    "bytes " + (Digits(a) + "-" + Digits(b) + "/" + Digits(size))
  }

  function NoRangeText(size: nat): string {
    "bytes " + ("*/" + Digits(size))
  }

  lemma BytesText(s: string)
    requires s != "" && IsPlain(s)
    ensures IsText("bytes " + s)
  {}

  lemma RangeTextIsText(a: nat, b: nat, size: nat)
    ensures IsText(RangeText(a, b, size)) && IsText(NoRangeText(size))
  {
    DigitsArePlain(a);
    DigitsArePlain(b);
    DigitsArePlain(size);
    hide Digits;
    BytesText(Digits(a) + "-" + Digits(b) + "/" + Digits(size));
    BytesText("*/" + Digits(size));
  }

  function RangeFields(selection: Selection, size: nat): seq<Field> {
    match selection
    case Whole => []
    case Part(first, length) =>
      [Line("Content-Range", RangeText(first, if length > 0 then first + length - 1 else 0, size))]
    case Unsatisfiable => [Line("Content-Range", NoRangeText(size))]
  }

  lemma RangeLine(value: string)
    requires IsText("bytes " + value)
    ensures var f := Line("Content-Range", "bytes " + value);
      ValidField(f) && Lines([f]) == "Content-Range: bytes " + value + CRLF
  {
    assert IsToken("Content-Range");
    LineIsValid("Content-Range", "bytes " + value);
    OneLine(Line("Content-Range", "bytes " + value));
    hide IsToken, IsText, ValidField, RenderField, Lines;
    assert "Content-Range" + ": " + ("bytes " + value) == "Content-Range: bytes " + value;
  }

  lemma InnerFirst(p: string, a: string, b: string, c: string, d: string, e: string, z: string)
    ensures p + a + b + c + d + e + z == p + (a + b + c + d + e) + z
  {}

  lemma PartText(first: nat, length: nat, size: nat)
    requires length > 0
    ensures ContentRange(Part(first, length), size)
      == "Content-Range: bytes " + (Digits(first) + "-" + Digits(first + length - 1) + "/" + Digits(size)) + CRLF
  {
    hide Digits;
    InnerFirst("Content-Range: bytes ", Digits(first), "-", Digits(first + length - 1), "/", Digits(size), CRLF);
  }

  lemma RefusedText(size: nat)
    ensures ContentRange(Unsatisfiable, size) == "Content-Range: bytes " + ("*/" + Digits(size)) + CRLF
  {
    hide Digits;
    assert "Content-Range: bytes " + ("*/" + Digits(size)) == "Content-Range: bytes */" + Digits(size);
  }

  lemma RangeFieldsAreRight(selection: Selection, size: nat)
    requires selection.Part? ==> selection.length > 0
    ensures forall i | 0 <= i < |RangeFields(selection, size)| :: ValidField(RangeFields(selection, size)[i])
    ensures Lines(RangeFields(selection, size)) == ContentRange(selection, size)
  {
    hide Digits, IsText, ValidField, RenderField;
    match selection
    case Whole =>
    case Unsatisfiable =>
      RangeTextIsText(0, 0, size);
      RangeLine("*/" + Digits(size));
      RefusedText(size);
      hide ContentRange, Lines;
    case Part(first, length) =>
      var b := first + length - 1;
      RangeTextIsText(first, b, size);
      RangeLine(Digits(first) + "-" + Digits(b) + "/" + Digits(size));
      PartText(first, length, size);
      hide ContentRange, Lines;
  }

  lemma OneLine(f: Field)
    ensures Lines([f]) == RenderField(f) + CRLF && Lines([]) == ""
  {
    assert [f][1..] == [];
  }

  // ---------------------------------------------------------------------
  // The header of a file
  // ---------------------------------------------------------------------

  function FileLine(selection: Selection): string {
    if selection.Part? then StatusLine("206", "Partial Content") else StatusLine("200", "OK")
  }

  function FileFields(target: string, selection: Selection, length: nat, size: nat): seq<Field> {
    [Line("Content-Length", Digits(length))] + ([Line("Content-Type", ContentType(target))] + ([BY_BYTES]
      + RangeFields(selection, size)))
  }

  lemma Nest(line: string, c: string, a1: string, a2: string, b1: string, b2: string, d: string, r: string)
    ensures line + c + a1 + a2 + c + b1 + b2 + c + d + c + r
      == line + c + ((a1 + a2) + c + ((b1 + b2) + c + (d + c + r)))
  {
    assert line + c + a1 + a2 == line + c + (a1 + a2);
    assert line + c + (a1 + a2) + c + b1 + b2 == line + c + ((a1 + a2) + c + (b1 + b2));
    assert (b1 + b2) + c + d + c + r == (b1 + b2) + c + (d + c + r);
  }

  lemma LinesCons(f: Field, fs: seq<Field>)
    ensures Lines([f] + fs) == RenderField(f) + CRLF + Lines(fs)
    ensures ValidField(f) && (forall i | 0 <= i < |fs| :: ValidField(fs[i])) ==>
      forall i | 0 <= i < |[f] + fs| :: ValidField(([f] + fs)[i])
  {
    hide RenderField, ValidField;
    assert ([f] + fs)[1..] == fs;
  }

  lemma TypeIsPlain(target: string)
    ensures ContentType(target) != "" && IsPlain(ContentType(target))
  {
    TypesArePlain();
    hide IsPlain, EndsWith, PathLength;
  }

  lemma TypesArePlain()
    ensures IsPlain("text/html") && IsPlain("text/plain") && IsPlain("application/octet-stream")
  {}

  lemma {:induction false} PathEndsAtQuery(path: string, query: string, i: nat)
    requires i <= |path| && '?' !in path && (query != "" ==> query[0] == '?')
    ensures PathLength(path + query, i) == |path|
    decreases |path| - i
  {
    if i < |path| {
      assert (path + query)[i] == path[i] && path[i] in path;
      PathEndsAtQuery(path, query, i + 1);
    }
  }

  lemma LastLetter(s: string, ending: string)
    requires ending != "" && EndsWith(s, ending)
    ensures s != "" && Lower(s[|s| - 1]) == Lower(ending[|ending| - 1])
  {
    assert s[|s| - |ending|..][|ending| - 1] == s[|s| - 1];
  }

  lemma EndsAlike(stem: string, e: string, ending: string)
    requires EqualsIgnoringCase(e, ending)
    ensures EndsWith(stem + e, ending)
  {
    assert (stem + e)[|stem|..] == e;
  }

  /** The ending of the path, in any letter case, tells the type, whatever the query. */
  lemma TypeByEnding(stem: string, e: string, query: string)
    requires '?' !in stem + e && (query != "" ==> query[0] == '?')
    ensures EqualsIgnoringCase(e, ".html") || EqualsIgnoringCase(e, ".htm") ==>
      ContentType(stem + e + query) == "text/html"
    ensures EqualsIgnoringCase(e, ".txt") ==> ContentType(stem + e + query) == "text/plain"
  {
    var path := stem + e;
    PathEndsAtQuery(path, query, 0);
    assert (path + query)[..|path|] == path;
    if EqualsIgnoringCase(e, ".html") { EndsAlike(stem, e, ".html"); }
    if EqualsIgnoringCase(e, ".htm") { EndsAlike(stem, e, ".htm"); }
    if EqualsIgnoringCase(e, ".txt") {
      EndsAlike(stem, e, ".txt");
      LastLetter(path, ".txt");
      if EndsWith(path, ".html") { LastLetter(path, ".html"); }
      if EndsWith(path, ".htm") { LastLetter(path, ".htm"); }
      assert |path| >= 4;
    }
    hide EqualsIgnoringCase, EndsWith, PathLength;
  }

  lemma FileFieldsAreValid(target: string, length: nat)
    ensures ValidField(Line("Content-Length", Digits(length))) && ValidField(Line("Content-Type", ContentType(target)))
    ensures RenderField(Line("Content-Length", Digits(length))) == "Content-Length: " + Digits(length)
    ensures RenderField(Line("Content-Type", ContentType(target))) == "Content-Type: " + ContentType(target)
  {
    assert IsToken("Content-Length") && IsToken("Content-Type");
    DigitsArePlain(length);
    PlainIsText(Digits(length));
    TypeIsPlain(target);
    PlainIsText(ContentType(target));
    hide Digits, ContentType, IsToken, IsText;
    LineIsValid("Content-Length", Digits(length));
    LineIsValid("Content-Type", ContentType(target));
    hide ValidField, RenderField;
  }

  lemma BytesFieldIsValid()
    ensures ValidField(BY_BYTES) && RenderField(BY_BYTES) == "Accept-Ranges: bytes"
  {
    assert IsToken("Accept-Ranges");
    LineIsValid("Accept-Ranges", "bytes");
  }

  lemma FileHeaderText(target: string, selection: Selection, length: nat, size: nat)
    ensures FileHeader(target, selection, length, size)
      == FileLine(selection) + CRLF
        + (("Content-Length: " + Digits(length)) + CRLF + (("Content-Type: " + ContentType(target)) + CRLF
          + ("Accept-Ranges: bytes" + CRLF + ContentRange(selection, size)))) + "Connection: close" + BLANK
  {
    hide Digits, ContentType, ContentRange;
    var x := if selection.Part? then "206 Partial Content" else "200 OK";
    assert FileLine(selection) == "HTTP/1.1 " + x;
    hide FileLine, StatusLine;
    Nest("HTTP/1.1 " + x, CRLF, "Content-Length: ", Digits(length), "Content-Type: ", ContentType(target),
      "Accept-Ranges: bytes", ContentRange(selection, size));
  }

  lemma FileFieldsText(target: string, selection: Selection, length: nat, size: nat)
    requires selection.Part? ==> selection.length > 0
    ensures var fs := FileFields(target, selection, length, size);
      && Lines(fs) == ("Content-Length: " + Digits(length)) + CRLF + (("Content-Type: " + ContentType(target)) + CRLF
          + ("Accept-Ranges: bytes" + CRLF + ContentRange(selection, size)))
      && forall i | 0 <= i < |fs| :: ValidField(fs[i])
  {
    FileFieldsAreValid(target, length);
    BytesFieldIsValid();
    RangeFieldsAreRight(selection, size);
    hide *;
    var range := RangeFields(selection, size);
    LinesCons(BY_BYTES, range);
    LinesCons(Line("Content-Type", ContentType(target)), [BY_BYTES] + range);
    LinesCons(Line("Content-Length", Digits(length)),
      [Line("Content-Type", ContentType(target))] + ([BY_BYTES] + range));
    FileFieldsAre(target, selection, length, size);
  }

  lemma FileFieldsAre(target: string, selection: Selection, length: nat, size: nat)
    ensures FileFields(target, selection, length, size) == [Line("Content-Length", Digits(length))]
      + ([Line("Content-Type", ContentType(target))] + ([BY_BYTES] + RangeFields(selection, size)))
  {}

  lemma LineIsPlain(selection: Selection)
    ensures FileLine(selection) != "" && NoReturn(FileLine(selection))
  {}

  lemma FileFramed(target: string, selection: Selection, length: nat, size: nat)
    requires selection.Part? ==> selection.length > 0
    ensures Framed(FileHeader(target, selection, length, size), FileLine(selection),
                   FileFields(target, selection, length, size) + [CLOSE])
  {
    LineIsPlain(selection);
    FileHeaderText(target, selection, length, size);
    FileFieldsText(target, selection, length, size);
    CloseIsValid();
    hide *;
    FramedBy(FileHeader(target, selection, length, size), FileLine(selection),
      FileFields(target, selection, length, size), CLOSE);
  }

  // ---------------------------------------------------------------------
  // Redirects
  // ---------------------------------------------------------------------

  lemma {:induction false} PathIsPlain(s: string, i: nat)
    requires i <= |s| && IsPlain(s)
    ensures IsPlain(FromPath(s, i))
    decreases |s| - i
  {
    if i < |s| && s[i] != '/' && s[i] != '?' { PathIsPlain(s, i + 1); }
  }

  lemma RedirectIsPlain(target: string)
    requires IsPlain(target)
    ensures IsPlain(RedirectPath(target))
  {
    if "http://" <= target { PathIsPlain(target, 7); }
    if "https://" <= target { PathIsPlain(target, 8); }
    hide FromPath;
  }

  /** Where a redirect leads. */
  function RedirectTo(target: string): string {
    ORIGIN + (if RedirectPath(target)[0] == '?' then "/" else "") + RedirectPath(target)
  }

  lemma LocationText(target: string)
    ensures Location(target) == "Location" + ": " + RedirectTo(target) + CRLF
  {
    hide RedirectPath;
    var path, slash := RedirectPath(target), if RedirectPath(target)[0] == '?' then "/" else "";
    assert "Location: " + ORIGIN + slash + path == "Location: " + (ORIGIN + slash + path);
  }

  lemma RedirectIsText(target: string)
    requires IsPlain(target)
    ensures IsText(RedirectTo(target))
  {
    assert IsPlain(ORIGIN);
    RedirectIsPlain(target);
    hide RedirectPath;
    PlainIsText(RedirectTo(target));
  }

  lemma LocationIsLine(target: string)
    requires IsPlain(target)
    ensures ValidField(Line("Location", RedirectTo(target)))
    ensures Lines([Line("Location", RedirectTo(target))]) == Location(target)
  {
    assert IsToken("Location");
    hide IsToken, IsText, RedirectTo, Location, ValidField, RenderField, Lines;
    RedirectIsText(target);
    LocationText(target);
    LineIsValid("Location", RedirectTo(target));
    OneLine(Line("Location", RedirectTo(target)));
  }

  /** A redirect leads to the origin, with the path and query asked for and neither scheme nor authority. */
  lemma RedirectLeads(authority: string, path: string)
    requires IsPath(path) && '/' !in authority && '?' !in authority
    ensures var to := "https://10.0.0.1" + (if path == "" || path[0] == '?' then "/" else "") + path;
      && RedirectTo("http://" + authority + path) == to && RedirectTo("https://" + authority + path) == to
      && (path != "" ==> RedirectTo(path) == to)
  {
    RedirectKeepsPath(authority, path);
    hide RedirectPath;
  }

  // ---------------------------------------------------------------------
  // Every answer is framed
  // ---------------------------------------------------------------------

  lemma {:induction false} CountSnoc(fs: seq<Field>, g: Field, name: string)
    ensures Count(fs + [g], name) == Count(fs, name) + if EqualsIgnoringCase(g.name, name) then 1 else 0
    decreases |fs|
  {
    hide EqualsIgnoringCase;
    if fs == [] {
      assert fs + [g] == [g] && [g][1..] == [];
    } else {
      assert (fs + [g])[0] == fs[0] && (fs + [g])[1..] == fs[1..] + [g];
      CountSnoc(fs[1..], g, name);
    }
  }

  lemma CountCons(f: Field, fs: seq<Field>, name: string)
    ensures Count([f] + fs, name) == (if EqualsIgnoringCase(f.name, name) then 1 else 0) + Count(fs, name)
  {
    hide EqualsIgnoringCase;
    assert ([f] + fs)[1..] == fs;
  }

  lemma OtherNames(name: string)
    requires name in ["Location", "Allow", "Content-Range", "Content-Type", "Accept-Ranges", "Connection"]
    ensures !EqualsIgnoringCase(name, "Content-Length") && EqualsIgnoringCase("Content-Length", "Content-Length")
  {
    assert |"Content-Length"| == 14;
    assert |"Location"| == 8 && |"Allow"| == 5 && |"Content-Range"| == 13 && |"Content-Type"| == 12;
    assert |"Accept-Ranges"| == 13 && |"Connection"| == 10;
  }

  /** The fields give the length of the body, once. */
  predicate TellsLength(fs: seq<Field>, length: nat) {
    Has(fs, "Content-Length", Digits(length)) && Count(fs, "Content-Length") == 1
  }

  lemma EmptyTellsLength(fs: seq<Field>)
    requires Count(fs, "Content-Length") == 0
    ensures TellsLength(fs + [NO_LENGTH] + [CLOSE], 0)
  {
    OtherNames("Connection");
    assert Digits(0) == "0";
    hide EqualsIgnoringCase, Count, Digits;
    CountSnoc(fs, NO_LENGTH, "Content-Length");
    CountSnoc(fs + [NO_LENGTH], CLOSE, "Content-Length");
    assert (fs + [NO_LENGTH] + [CLOSE])[|fs|] == Line("Content-Length", "0");
  }

  lemma RangeCount(selection: Selection, size: nat)
    ensures Count(RangeFields(selection, size), "Content-Length") == 0
  {
    OtherNames("Content-Range");
    hide EqualsIgnoringCase, Digits;
  }

  lemma FileTellsLength(target: string, selection: Selection, length: nat, size: nat)
    ensures TellsLength(FileFields(target, selection, length, size) + [CLOSE], length)
  {
    OtherNames("Connection");
    OtherNames("Accept-Ranges");
    OtherNames("Content-Type");
    RangeCount(selection, size);
    hide EqualsIgnoringCase, Count, Digits, ContentType, RangeFields;
    var range, fs := RangeFields(selection, size), FileFields(target, selection, length, size);
    CountCons(BY_BYTES, range, "Content-Length");
    CountCons(Line("Content-Type", ContentType(target)), [BY_BYTES] + range, "Content-Length");
    CountCons(Line("Content-Length", Digits(length)),
      [Line("Content-Type", ContentType(target))] + ([BY_BYTES] + range), "Content-Length");
    CountSnoc(fs, CLOSE, "Content-Length");
    assert (fs + [CLOSE])[0] == Line("Content-Length", Digits(length));
  }

  /** What a client reads of a file: all of it, the bytes from first to last, or a refusal. */
  datatype Read = ReadAll | ReadPart(first: nat, last: nat) | ReadNone

  function LineOf(r: Read): string {
    match r
    case ReadAll => StatusLine("200", "OK")
    case ReadPart(_, _) => StatusLine("206", "Partial Content")
    case ReadNone => StatusLine("416", "Range Not Satisfiable")
  }

  /** What the fields say about the body, and what the body is. */
  predicate ReadsFile(r: Read, fs: seq<Field>, file: string, body: string) {
    match r
    case ReadAll => body == file && Count(fs, "Content-Range") == 0
    case ReadPart(a, b) =>
      && a <= b < |file| && body == file[a..b + 1]
      && Has(fs, "Content-Range", RangeText(a, b, |file|))
    case ReadNone => body == "" && Has(fs, "Content-Range", NoRangeText(|file|))
  }

  predicate ReplyFramed(r: Reply, line: string, fs: seq<Field>) {
    Framed(r.header, line, fs) && TellsLength(fs, |r.body|)
  }

  lemma RefusalFramed(size: nat)
    ensures var fs := RangeFields(Unsatisfiable, size) + [NO_LENGTH] + [CLOSE];
      && Framed(Empty("416", "Range Not Satisfiable", ContentRange(Unsatisfiable, size)),
           StatusLine("416", "Range Not Satisfiable"), fs)
      && TellsLength(fs, 0) && Has(fs, "Content-Range", NoRangeText(size))
  {
    var range := RangeFields(Unsatisfiable, size);
    assert NoReturn(StatusLine("416", "Range Not Satisfiable"));
    RangeFieldsAreRight(Unsatisfiable, size);
    RangeCount(Unsatisfiable, size);
    EmptyFramed("416", "Range Not Satisfiable", range);
    EmptyTellsLength(range);
    assert range[0] == Line("Content-Range", NoRangeText(size));
    hide *;
    assert (range + [NO_LENGTH] + [CLOSE])[0] == range[0];
  }

  lemma PartTells(target: string, first: nat, length: nat, size: nat)
    requires length > 0
    ensures Has(FileFields(target, Part(first, length), length, size) + [CLOSE], "Content-Range",
                RangeText(first, first + length - 1, size))
  {
    hide Digits, ContentType, RangeText;
    assert (FileFields(target, Part(first, length), length, size) + [CLOSE])[3]
      == Line("Content-Range", RangeText(first, first + length - 1, size));
  }

  lemma NoContentRange(target: string, size: nat)
    ensures Count(FileFields(target, Whole, size, size) + [CLOSE], "Content-Range") == 0
  {
    NotContentRange("Content-Length");
    NotContentRange("Content-Type");
    NotContentRange("Accept-Ranges");
    NotContentRange("Connection");
    assert Count([], "Content-Range") == 0;
    hide EqualsIgnoringCase, Count, Digits, ContentType;
    CountCons(BY_BYTES, [], "Content-Range");
    CountCons(Line("Content-Type", ContentType(target)), [BY_BYTES] + [], "Content-Range");
    CountCons(Line("Content-Length", Digits(size)),
      [Line("Content-Type", ContentType(target))] + ([BY_BYTES] + []), "Content-Range");
    CountSnoc(FileFields(target, Whole, size, size), CLOSE, "Content-Range");
  }

  lemma NotContentRange(name: string)
    requires name in ["Content-Length", "Content-Type", "Accept-Ranges", "Connection"]
    ensures !EqualsIgnoringCase(name, "Content-Range")
  {
    assert |"Content-Range"| == 13 && |"Accept-Ranges"| == 13;
    assert Lower("Accept-Ranges"[0]) != Lower("Content-Range"[0]);
  }

  lemma MakeFramed(r: Reply, line: string, fs: seq<Field>)
    requires Framed(r.header, line, fs) && TellsLength(fs, |r.body|)
    ensures ReplyFramed(r, line, fs)
  {
    hide Framed, TellsLength;
  }

  lemma MakeRead(read: Read, fs: seq<Field>, file: string, body: string)
    requires match read
      case ReadAll => body == file && Count(fs, "Content-Range") == 0
      case ReadPart(a, b) =>
        a <= b < |file| && body == file[a..b + 1] && Has(fs, "Content-Range", RangeText(a, b, |file|))
      case ReadNone => body == "" && Has(fs, "Content-Range", NoRangeText(|file|))
    ensures ReadsFile(read, fs, file, body)
  {
    hide Has, Count, RangeText, NoRangeText;
  }

  lemma LinesAgree(first: nat, length: nat)
    ensures LineOf(ReadAll) == FileLine(Whole)
    ensures forall b :: LineOf(ReadPart(first, b)) == FileLine(Part(first, length))
    ensures LineOf(ReadNone) == StatusLine("416", "Range Not Satisfiable")
  {
    hide StatusLine;
  }

  lemma WholeReads(target: string, file: string) returns (fs: seq<Field>)
    ensures var r := Reply(FileHeader(target, Whole, |file|, |file|), file);
      ReplyFramed(r, LineOf(ReadAll), fs) && ReadsFile(ReadAll, fs, file, file)
  {
    hide *;
    fs := FileFields(target, Whole, |file|, |file|) + [CLOSE];
    LinesAgree(0, 0);
    FileFramed(target, Whole, |file|, |file|);
    FileTellsLength(target, Whole, |file|, |file|);
    NoContentRange(target, |file|);
    MakeFramed(Reply(FileHeader(target, Whole, |file|, |file|), file), LineOf(ReadAll), fs);
    MakeRead(ReadAll, fs, file, file);
  }

  lemma PartReads(target: string, file: string, first: nat, length: nat) returns (fs: seq<Field>)
    requires length > 0 && first + length <= |file|
    ensures var body, read := file[first..first + length], ReadPart(first, first + length - 1);
      var r := Reply(FileHeader(target, Part(first, length), length, |file|), body);
      ReplyFramed(r, LineOf(read), fs) && ReadsFile(read, fs, file, body)
  {
    hide *;
    var selection, read, body := Part(first, length), ReadPart(first, first + length - 1), file[first..first + length];
    fs := FileFields(target, selection, length, |file|) + [CLOSE];
    LinesAgree(first, length);
    FileFramed(target, selection, length, |file|);
    FileTellsLength(target, selection, length, |file|);
    PartTells(target, first, length, |file|);
    MakeFramed(Reply(FileHeader(target, selection, length, |file|), body), LineOf(read), fs);
    MakeRead(read, fs, file, body);
  }

  lemma RefusalReads(file: string) returns (fs: seq<Field>)
    ensures var r := Reply(Empty("416", "Range Not Satisfiable", ContentRange(Unsatisfiable, |file|)), "");
      ReplyFramed(r, LineOf(ReadNone), fs) && ReadsFile(ReadNone, fs, file, "")
  {
    hide *;
    fs := RangeFields(Unsatisfiable, |file|) + [NO_LENGTH] + [CLOSE];
    LinesAgree(0, 0);
    RefusalFramed(|file|);
    MakeFramed(Reply(Empty("416", "Range Not Satisfiable", ContentRange(Unsatisfiable, |file|)), ""),
      LineOf(ReadNone), fs);
    MakeRead(ReadNone, fs, file, "");
  }

  lemma FileReplies(q: Request, file: string)
    requires |file| <= OFF_MAX
    ensures var size, selection, r := |file|, Choose(Saturated(RangeOf(q.range)), |file|), FileReply(q, file);
      && (selection.Whole? ==> r == Reply(FileHeader(q.target, Whole, size, size), file))
      && (selection.Part? ==>
        && selection.length > 0 && selection.first + selection.length <= size
        && r.header == FileHeader(q.target, selection, selection.length, size)
        && r.body == file[selection.first..selection.first + selection.length])
      && (selection.Unsatisfiable? ==>
        r == Reply(Empty("416", "Range Not Satisfiable", ContentRange(Unsatisfiable, size)), ""))
  {
    ChooseIsRight(Saturated(RangeOf(q.range)), |file|);
    hide Choose, RangeOf, Saturated, Empty, FileHeader, ContentRange, Asks, Invalid;
  }

  /** The status line and fields of a file tell its length and which bytes are sent, and those are the bytes sent. */
  lemma FileIsAnnounced(q: Request, file: string) returns (read: Read, fs: seq<Field>)
    requires |file| <= OFF_MAX
    ensures ReplyFramed(FileReply(q, file), LineOf(read), fs)
    ensures ReadsFile(read, fs, file, FileReply(q, file).body)
    ensures read == match Choose(Saturated(RangeOf(q.range)), |file|)
      case Whole => ReadAll
      case Part(first, length) => ReadPart(first, if length > 0 then first + length - 1 else 0)
      case Unsatisfiable => ReadNone
  {
    hide *;
    FileReplies(q, file);
    match Choose(Saturated(RangeOf(q.range)), |file|)
    case Whole =>
      read := ReadAll;
      fs := WholeReads(q.target, file);
    case Part(first, length) =>
      read := ReadPart(first, first + length - 1);
      fs := PartReads(q.target, file, first, length);
    case Unsatisfiable =>
      read := ReadNone;
      fs := RefusalReads(file);
  }

  // ---------------------------------------------------------------------
  // What each way of writing a range gets
  // ---------------------------------------------------------------------

  /** The last so many bytes of a file, or all of it. */
  function LastBytes(file: string, n: nat): string {
    file[|file| - Min(n, |file|)..]
  }

  /** The code's choice: as the range says, but bounds in the wrong order that are both too large are refused. */
  function Chosen(r: RangeSpec, size: nat): Selection {
    if r.Between? && UINTMAX <= r.end < r.start then Unsatisfiable else Choose(r, size)
  }

  lemma ChosenIsChoice(r: RangeSpec, size: nat)
    requires size <= OFF_MAX
    ensures Choose(Saturated(r), size) == Chosen(r, size)
  {
    SaturationHarmless(r, size);
  }

  /** A file is answered as its range is chosen, whole, in part or not at all. */
  lemma FileFor(q: Request, file: string, r: RangeSpec) returns (read: Read, fs: seq<Field>)
    requires |file| <= OFF_MAX && RangeOf(q.range) == r
    ensures ReplyFramed(FileReply(q, file), LineOf(read), fs) && ReadsFile(read, fs, file, FileReply(q, file).body)
    ensures read == match Chosen(r, |file|)
      case Whole => ReadAll
      case Part(first, length) => ReadPart(first, if length > 0 then first + length - 1 else 0)
      case Unsatisfiable => ReadNone
  {
    hide *;
    ChosenIsChoice(r, |file|);
    read, fs := FileIsAnnounced(q, file);
  }

  /** The bytes that are read. */
  function BytesOf(read: Read, file: string): string {
    match read
    case ReadAll => file
    case ReadPart(a, b) => if a <= b < |file| then file[a..b + 1] else ""
    case ReadNone => ""
  }

  lemma BodyIsRead(read: Read, fs: seq<Field>, file: string, body: string)
    requires ReadsFile(read, fs, file, body)
    ensures body == BytesOf(read, file)
  {}

  /** bytes=-n gets the last n bytes, and is refused exactly if they are none. */
  lemma SuffixGets(q: Request, file: string, u: string, a: string) returns (read: Read, fs: seq<Field>)
    requires |file| <= OFF_MAX && IsUnit(u) && IsNumber(a) && q.range == Some(u + "-" + a)
    ensures ReplyFramed(FileReply(q, file), LineOf(read), fs) && ReadsFile(read, fs, file, FileReply(q, file).body)
    ensures FileReply(q, file).body == LastBytes(file, Decimal(a))
    ensures if Decimal(a) == 0 || file == "" then read == ReadNone else read.ReadPart?
  {
    hide RangeOf, Decimal, FileReply, ReplyFramed, ReadsFile, IsUnit;
    WrittenIsSuffix(u, a);
    read, fs := FileFor(q, file, Suffix(Decimal(a)));
    BodyIsRead(read, fs, file, FileReply(q, file).body);
  }

  /** bytes=a- gets everything from position a on, and is refused exactly if that is nothing. */
  lemma FromGets(q: Request, file: string, u: string, a: string) returns (read: Read, fs: seq<Field>)
    requires |file| <= OFF_MAX && IsUnit(u) && IsNumber(a) && q.range == Some(u + a + "-")
    ensures ReplyFramed(FileReply(q, file), LineOf(read), fs) && ReadsFile(read, fs, file, FileReply(q, file).body)
    ensures FileReply(q, file).body == file[Min(Decimal(a), |file|)..]
    ensures if Decimal(a) >= |file| then read == ReadNone else read.ReadPart?
  {
    hide RangeOf, Decimal, FileReply, ReplyFramed, ReadsFile, IsUnit;
    WrittenIsFrom(u, a);
    read, fs := FileFor(q, file, From(Decimal(a)));
    BodyIsRead(read, fs, file, FileReply(q, file).body);
  }

  /**
   bytes=a-b gets the bytes from position a to position b, both included, and is refused exactly if there are none.
   If b is before a it is ignored, unless both are too large to tell: then it is refused.
   */
  lemma BetweenGets(q: Request, file: string, u: string, a: string, b: string) returns (read: Read, fs: seq<Field>)
    requires |file| <= OFF_MAX && IsUnit(u) && IsNumber(a) && IsNumber(b) && q.range == Some(u + a + "-" + b)
    ensures ReplyFramed(FileReply(q, file), LineOf(read), fs) && ReadsFile(read, fs, file, FileReply(q, file).body)
    ensures Decimal(b) < Decimal(a) ==> read == if Decimal(b) < UINTMAX then ReadAll else ReadNone
    ensures Decimal(a) <= Decimal(b) ==>
      FileReply(q, file).body == file[Min(Decimal(a), |file|)..Min(Decimal(b) + 1, |file|)]
    ensures Decimal(a) <= Decimal(b) ==> if Decimal(a) >= |file| then read == ReadNone else read.ReadPart?
  {
    hide RangeOf, Decimal, FileReply, ReplyFramed, ReadsFile, IsUnit;
    WrittenIsBetween(u, a, b);
    read, fs := FileFor(q, file, Between(Decimal(a), Decimal(b)));
    BodyIsRead(read, fs, file, FileReply(q, file).body);
  }

  /** A range in none of these forms, or none at all, gets the whole file. */
  lemma OtherwiseAll(q: Request, file: string) returns (fs: seq<Field>)
    requires |file| <= OFF_MAX && (q.range.Some? ==> forall u, a, b :: !IsForm(q.range.value, u, a, b))
    ensures ReplyFramed(FileReply(q, file), LineOf(ReadAll), fs) && FileReply(q, file).body == file
  {
    if q.range.Some? { var u, a, b := OnlyWrittenForms(q.range.value); }
    hide FileReply, ReplyFramed, ReadsFile, IsForm;
    var read;
    read, fs := FileFor(q, file, NoRange);
    BodyIsRead(read, fs, file, FileReply(q, file).body);
  }

  // ---------------------------------------------------------------------
  // Every answer
  // ---------------------------------------------------------------------

  lemma NothingTellsLength()
    ensures Count([], "Content-Length") == 0 && Lines([]) == ""
  {}

  lemma OneTellsNoLength(f: Field)
    requires !EqualsIgnoringCase(f.name, "Content-Length")
    ensures Count([f], "Content-Length") == 0
  {
    assert [f][1..] == [];
  }

  /** A reply without a body and without further fields. */
  lemma PlainReply(code: string, reason: string) returns (fs: seq<Field>)
    requires NoReturn(StatusLine(code, reason))
    ensures ReplyFramed(Reply(Empty(code, reason, ""), ""), StatusLine(code, reason), fs)
  {
    hide *;
    NothingTellsLength();
    fs := [] + [NO_LENGTH] + [CLOSE];
    EmptyFramed(code, reason, []);
    EmptyTellsLength([]);
    MakeFramed(Reply(Empty(code, reason, ""), ""), StatusLine(code, reason), fs);
  }

  /** A reply without a body and with one further field. */
  lemma ReplyWith(code: string, reason: string, f: Field) returns (fs: seq<Field>)
    requires NoReturn(StatusLine(code, reason)) && ValidField(f) && !EqualsIgnoringCase(f.name, "Content-Length")
    ensures ReplyFramed(Reply(Empty(code, reason, Lines([f])), ""), StatusLine(code, reason), fs) && f in fs
  {
    hide *;
    OneTellsNoLength(f);
    fs := [f] + [NO_LENGTH] + [CLOSE];
    EmptyFramed(code, reason, [f]);
    EmptyTellsLength([f]);
    MakeFramed(Reply(Empty(code, reason, Lines([f])), ""), StatusLine(code, reason), fs);
    assert fs[0] == f;
  }

  lemma StatusIsLine(code: string, reason: string)
    requires NoReturn(code) && NoReturn(reason)
    ensures NoReturn(StatusLine(code, reason))
  {
    NoReturnJoin("HTTP/1.1 ", code);
    NoReturnJoin("HTTP/1.1 " + code, " ");
    hide NoReturn;
    NoReturnJoin("HTTP/1.1 " + code + " ", reason);
  }

  lemma ErrorLines()
    ensures NoReturn(StatusLine("400", "Bad Request")) && NoReturn(StatusLine("404", "Not Found"))
  {
    hide StatusLine;
    StatusIsLine("400", "Bad Request");
    StatusIsLine("404", "Not Found");
  }

  lemma RefusedLines()
    ensures NoReturn(StatusLine("405", "Method Not Allowed")) && NoReturn(StatusLine("301", "Moved Permanently"))
  {
    hide StatusLine;
    StatusIsLine("405", "Method Not Allowed");
    StatusIsLine("301", "Moved Permanently");
  }

  lemma TooLargeLine()
    ensures NoReturn(StatusLine("431", "Request Header Fields Too Large"))
  {
    hide StatusLine;
    StatusIsLine("431", "Request Header Fields Too Large");
  }

  lemma AllowIsLine()
    ensures ValidField(Line("Allow", "GET")) && Lines([Line("Allow", "GET")]) == "Allow: GET\r\n"
  {
    assert IsToken("Allow");
    LineIsValid("Allow", "GET");
    OneLine(Line("Allow", "GET"));
  }

  /** A target that was read has visible characters only, so it cannot smuggle a line into the reply. */
  lemma TargetIsPlain(h: string)
    ensures ParseHead(h).Some? ==> IsPlain(ParseHead(h).value.target)
  {
    hide ParseFields, LineEnd, StrChr, IsToken;
  }

  /** The status a request gets, if no file is sent: without TLS, for another method, or for a missing file. */
  function NoFileLine(request: Option<Request>, tls: bool): string {
    if request.None? then StatusLine("400", "Bad Request")
    else if !tls then StatusLine("301", "Moved Permanently")
    else if request.value.method_ != "GET" then StatusLine("405", "Method Not Allowed")
    else StatusLine("404", "Not Found")
  }

  lemma NoFileReply(request: Option<Request>, tls: bool, files: Files) returns (fs: seq<Field>)
    requires Sized(files) && (request.Some? ==> IsPlain(request.value.target))
    requires request.Some? && tls && request.value.method_ == "GET" ==> files(request.value.target).None?
    ensures ReplyFramed(Respond(request, tls, files), NoFileLine(request, tls), fs)
    ensures Respond(request, tls, files).body == ""
    ensures request.Some? && !tls ==> Has(fs, "Location", RedirectTo(request.value.target))
  {
    hide ReplyFramed, Empty, StatusLine, Location, Lines, ValidField, RenderField, IsPlain, RedirectTo,
      EqualsIgnoringCase;
    ErrorLines();
    RefusedLines();
    if request.None? {
      fs := PlainReply("400", "Bad Request");
    } else if !tls {
      OtherNames("Location");
      LocationIsLine(request.value.target);
      fs := ReplyWith("301", "Moved Permanently", Line("Location", RedirectTo(request.value.target)));
    } else if request.value.method_ != "GET" {
      OtherNames("Allow");
      AllowIsLine();
      fs := ReplyWith("405", "Method Not Allowed", Line("Allow", "GET"));
    } else {
      fs := PlainReply("404", "Not Found");
    }
  }

  /**
   The bytes of every answer, whatever was sent to the server, are a status line and fields up to the first blank
   line, with the length of the body in them once, and then the body.
   */
  lemma AnswerIsFramed(decision: Decision, tls: bool, files: Files) returns (line: string, fs: seq<Field>)
    requires !decision.Waiting? && Sized(files)
    ensures ReplyFramed(Answer(decision, tls, files), line, fs)
    ensures StrStr(AnswerBytes(decision, tls, files), 0, BLANK) == Some(|Answer(decision, tls, files).header| - 4)
  {
    hide ReplyFramed, Empty, StatusLine, ParseHead, Respond, IsPlain, NoFileLine, LineOf, StrStr;
    TooLargeLine();
    if decision.TooLarge? {
      line := StatusLine("431", "Request Header Fields Too Large");
      fs := PlainReply("431", "Request Header Fields Too Large");
    } else {
      line, fs := ResponseIsFramed(decision.head, tls, files);
    }
    FramedEnds(Answer(decision, tls, files), line, fs);
  }

  lemma FramedEnds(r: Reply, line: string, fs: seq<Field>)
    requires ReplyFramed(r, line, fs)
    ensures StrStr(r.header + r.body, 0, BLANK) == Some(|r.header| - 4)
  {
    hide Framed, TellsLength, StrStr;
    HeaderEnds(r.header, r.body, line, fs);
  }

  lemma ResponseIsFramed(head: string, tls: bool, files: Files) returns (line: string, fs: seq<Field>)
    requires Sized(files)
    ensures ReplyFramed(Respond(ParseHead(head), tls, files), line, fs)
  {
    hide ReplyFramed, Empty, FileReply, ReadsFile, ParseHead, IsPlain, NoFileLine, LineOf, Location;
    TargetIsPlain(head);
    var request := ParseHead(head);
    if request.Some? && tls && request.value.method_ == "GET" && files(request.value.target).Some? {
      var read;
      read, fs := FileIsAnnounced(request.value, files(request.value.target).value);
      line := LineOf(read);
    } else {
      line := NoFileLine(request, tls);
      fs := NoFileReply(request, tls, files);
    }
  }
}
