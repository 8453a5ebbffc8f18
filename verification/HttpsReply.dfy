/** What the server answers to a stream of bytes: the reply as a function of the stream. */
module HttpsReply {
  import opened Basics
  import opened HttpsRange
  import opened HttpsText
  import opened HttpsGrammar

  const INPUT_SIZE := 4096
  const OUTPUT_SIZE := 8192
  const ORIGIN := "https://10.0.0.1"
  const LOCATION_SIZE := INPUT_SIZE + |ORIGIN| + 1 + 32

  function Power10(k: nat): nat {
    if k == 0 then 1 else 10 * Power10(k - 1)
  }

  lemma {:induction false} DigitsLength(n: nat, k: nat)
    requires k >= 1 && n < Power10(k)
    ensures |Digits(n)| <= k
    decreases k
  {
    if n >= 10 {
      DigitsLength(n / 10, k - 1);
    }
  }

  /** A file offset is printed in at most nineteen digits. */
  lemma OffsetDigits(n: nat)
    requires n <= OFF_MAX
    ensures |Digits(n)| <= 19
  {
    assert Power10(5) == 100000;
    assert Power10(10) == 10000000000;
    assert Power10(15) == 1000000000000000;
    assert Power10(19) == 10000000000000000000;
    DigitsLength(n, 19);
  }

  // ---------------------------------------------------------------------
  // Headers
  // ---------------------------------------------------------------------

  datatype Reply = Reply(header: string, body: string)

  function Empty(status: string, reason: string, extra: string): string {
    "HTTP/1.1 " + status + " " + reason + CRLF + extra + "Content-Length: 0" + CRLF + "Connection: close" + BLANK
  }

  /** The length of a target's path, which ends at a question mark. */
  function PathLength(target: string, i: nat): (n: nat)
    requires i <= |target|
    ensures i <= n <= |target| && '?' !in target[i..n] && (n < |target| ==> target[n] == '?')
    decreases |target| - i
  {
    if i == |target| || target[i] == '?' then i else PathLength(target, i + 1)
  }

  predicate EndsWith(s: string, ending: string) {
    |s| >= |ending| && EqualsIgnoringCase(s[|s| - |ending|..], ending)
  }

  function ContentType(target: string): (r: string)
    ensures |r| <= 24
  {
    var path := target[..PathLength(target, 0)];
    if path == "/" || EndsWith(path, ".html") || EndsWith(path, ".htm") then "text/html"
    else if EndsWith(path, ".txt") then "text/plain"
    else "application/octet-stream"
  }

  /** The first slash or question mark from i on, and what follows. */
  function FromPath(s: string, i: nat): (r: string)
    requires i <= |s|
    ensures |r| <= |s| - i && (r == "" || r[0] == '/' || r[0] == '?')
    decreases |s| - i
  {
    if i == |s| || s[i] == '/' || s[i] == '?' then s[i..] else FromPath(s, i + 1)
  }

  /** Path and query of a target, without scheme and authority. */
  function RedirectPath(target: string): (r: string)
    ensures |r| <= |target| + 1 && r != ""
  {
    var path :=
      if "http://" <= target then FromPath(target, 7)
      else if "https://" <= target then FromPath(target, 8)
      else target;
    if path == "" || (path[0] != '/' && path[0] != '?') then "/" else path
  }

  function Location(target: string): string {
    var path := RedirectPath(target);
    "Location: " + ORIGIN + (if path[0] == '?' then "/" else "") + path + CRLF
  }

  function ContentRange(selection: Selection, size: nat): string {
    match selection
    case Whole => ""
    case Part(first, length) =>
      "Content-Range: bytes " + Digits(first) + "-"
      + (if first + length > 0 then Digits(first + length - 1) else "") + "/" + Digits(size) + CRLF
    case Unsatisfiable => "Content-Range: bytes */" + Digits(size) + CRLF
  }

  function FileHeader(target: string, selection: Selection, length: nat, size: nat): string {
    "HTTP/1.1 " + (if selection.Part? then "206 Partial Content" else "200 OK") + CRLF
    + "Content-Length: " + Digits(length) + CRLF
    + "Content-Type: " + ContentType(target) + CRLF
    + "Accept-Ranges: bytes" + CRLF
    + ContentRange(selection, size)
    + "Connection: close" + BLANK
  }

  // ---------------------------------------------------------------------
  // Replies
  // ---------------------------------------------------------------------

  /** The regular files that targets lead to, with their contents. */
  type Files = string -> Option<string>

  ghost predicate Sized(files: Files) {
    forall target :: files(target).Some? ==> |files(target).value| <= OFF_MAX
  }

  function FileReply(q: Request, file: string): Reply
    requires |file| <= OFF_MAX
  {
    var size := |file|;
    var selection := Choose(Saturated(RangeOf(q.range)), size);
    ChooseIsRight(Saturated(RangeOf(q.range)), size);
    match selection
    case Whole => Reply(FileHeader(q.target, Whole, size, size), file)
    case Part(first, length) => Reply(FileHeader(q.target, selection, length, size), file[first..first + length])
    case Unsatisfiable => Reply(Empty("416", "Range Not Satisfiable", ContentRange(selection, size)), "")
  }

  /** The body is made of exactly the bytes that the range asks for, in order. */
  ghost predicate AskedBytes(r: RangeSpec, file: string, body: string) {
    exists first: nat, length: nat :: IsAskedPart(r, file, body, first, length)
  }

  ghost predicate IsAskedPart(r: RangeSpec, file: string, body: string, first: nat, length: nat) {
    && first + length <= |file| && body == file[first..first + length]
    && forall p: nat :: Asks(r, |file|, p) <==> first <= p < first + length
  }

  /** A file is sent whole, in part or not at all, just as its range header is written. */
  lemma BodyIsWhatWasAsked(q: Request, file: string)
    requires |file| <= OFF_MAX
    requires var r := RangeOf(q.range); !(r.Between? && r.end < r.start && r.end >= UINTMAX)
    ensures Invalid(RangeOf(q.range)) ==> FileReply(q, file).body == file
    ensures !Invalid(RangeOf(q.range)) ==> AskedBytes(RangeOf(q.range), file, FileReply(q, file).body)
  {
    var r, size := RangeOf(q.range), |file|;
    SaturationHarmless(r, size);
    ChooseIsRight(r, size);
    var selection := Choose(r, size);
    hide RangeOf, Choose, Saturated, Empty, FileHeader, ContentRange;
    if selection.Part? {
      assert IsAskedPart(r, file, FileReply(q, file).body, selection.first, selection.length);
    } else if selection.Unsatisfiable? {
      assert IsAskedPart(r, file, FileReply(q, file).body, 0, 0);
    }
  }

  ghost function Respond(request: Option<Request>, tls: bool, files: Files): Reply
    requires Sized(files)
  {
    match request
    case None => Reply(Empty("400", "Bad Request", ""), "")
    case Some(q) =>
      if !tls then Reply(Empty("301", "Moved Permanently", Location(q.target)), "")
      else if q.method_ != "GET" then Reply(Empty("405", "Method Not Allowed", "Allow: GET\r\n"), "")
      else match files(q.target)
        case None => Reply(Empty("404", "Not Found", ""), "")
        case Some(file) => FileReply(q, file)
  }

  /** What the bytes received so far call for. */
  datatype Decision = Waiting | TooLarge | Complete(head: string)

  /** A header counts if its blank line lies in the first 4095 bytes, with no NUL before it. */
  function Decide(stream: string): Decision {
    var seen := stream[..Min(|stream|, INPUT_SIZE - 1)];
    match StrStr(seen, 0, BLANK)
    case Some(end) => Complete(seen[..end])
    case None => if |stream| < INPUT_SIZE - 1 then Waiting else TooLarge
  }

  ghost function Answer(decision: Decision, tls: bool, files: Files): Reply
    requires !decision.Waiting? && Sized(files)
  {
    if decision.TooLarge? then Reply(Empty("431", "Request Header Fields Too Large", ""), "")
    else Respond(ParseHead(decision.head), tls, files)
  }

  /** All the bytes of an answer. */
  ghost function AnswerBytes(decision: Decision, tls: bool, files: Files): string
    requires !decision.Waiting? && Sized(files)
  {
    Answer(decision, tls, files).header + Answer(decision, tls, files).body
  }

  // ---------------------------------------------------------------------
  // However the stream is cut, the decision is the same
  // ---------------------------------------------------------------------

  lemma {:induction false} StrStrExtends(s: string, t: string, i: nat, pattern: string)
    requires i <= |s| && s <= t && StrStr(s, i, pattern).Some?
    ensures StrStr(t, i, pattern) == StrStr(s, i, pattern)
    decreases |s| - i
  {
    var j := StrStr(s, i, pattern).value;
    StrStrFirst(s, i, pattern);
    if !Occurs(s, i, pattern) {
      assert !Occurs(t, i, pattern) || i + |pattern| > |s|;
      assert i < j && j + |pattern| <= |s|;
      assert i + |pattern| <= |s| ==> s[i..i + |pattern|] == t[i..i + |pattern|];
      StrStrExtends(s, t, i + 1, pattern);
    } else {
      assert t[i..i + |pattern|] == s[i..i + |pattern|];
    }
  }

  /** More bytes never change a decision once it is made. */
  lemma DecisionIsFinal(s: string, t: string)
    requires s <= t && !Decide(s).Waiting?
    ensures Decide(t) == Decide(s)
  {
    var a, b := s[..Min(|s|, INPUT_SIZE - 1)], t[..Min(|t|, INPUT_SIZE - 1)];
    assert a <= b;
    if StrStr(a, 0, BLANK).Some? {
      StrStrExtends(a, b, 0, BLANK);
    } else {
      assert a == b;
    }
  }

  /** A NUL behind the bytes received hides whatever the buffer holds after it. */
  lemma {:induction false} StrStrTerminated(t: string, n: nat, i: nat, pattern: string)
    requires i <= n < |t| && t[n] == NUL && NUL !in pattern && pattern != ""
    ensures StrStr(t, i, pattern) == StrStr(t[..n], i, pattern)
    decreases n - i
  {
    if i < n {
      OccursBeforeNul(t, n, i, pattern);
      StrStrTerminated(t, n, i + 1, pattern);
    }
  }

  lemma OccursBeforeNul(t: string, n: nat, i: nat, pattern: string)
    requires i <= n < |t| && t[n] == NUL && NUL !in pattern
    ensures Occurs(t, i, pattern) <==> Occurs(t[..n], i, pattern)
  {
    if i + |pattern| <= n {
      assert t[i..i + |pattern|] == t[..n][i..i + |pattern|];
    } else {
      OccursAt(t, i, pattern, n - i);
      assert pattern[n - i] in pattern;
    }
  }

  lemma OccursAt(t: string, i: nat, pattern: string, k: nat)
    requires k < |pattern|
    ensures Occurs(t, i, pattern) ==> t[i + k] == pattern[k]
  {
    if Occurs(t, i, pattern) {
      assert t[i..i + |pattern|][k] == t[i + k];
    }
  }

  /** Whoever sends a written header and a blank line is understood, whatever comes after. */
  lemma WrittenIsUnderstood(m: Head, rest: string)
    requires ValidHead(m) && |Render(m)| + 4 < INPUT_SIZE
    ensures Decide(Render(m) + BLANK + rest) == Complete(Render(m))
  {
    var h := Render(m);
    var s := h + BLANK;
    RenderedEndsAtBlank(m);
    hide RenderLine, RenderFields, ValidLine, ValidField;
    assert s[0..|h| + 1] == h + ['\r'];
    assert s[|h|..|h| + 4] == BLANK;
    StrStrIs(s, 0, BLANK, |h|);
    var seen := (s + rest)[..Min(|s + rest|, INPUT_SIZE - 1)];
    assert s <= seen;
    StrStrExtends(s, seen, 0, BLANK);
  }

  // ---------------------------------------------------------------------
  // Replies are well formed
  // ---------------------------------------------------------------------

  ghost predicate Announces(header: string, length: nat) {
    exists a, b :: header == a + "Content-Length: " + Digits(length) + CRLF + b
  }

  /** Every reply announces the length of its body. */
  lemma LengthIsAnnounced(decision: Decision, tls: bool, files: Files)
    requires !decision.Waiting? && Sized(files)
    ensures Announces(Answer(decision, tls, files).header, |Answer(decision, tls, files).body|)
  {
    EmptyAnnounces("431", "Request Header Fields Too Large", "");
    if decision.Complete? {
      var request := ParseHead(decision.head);
      EmptyAnnounces("400", "Bad Request", "");
      EmptyAnnounces("405", "Method Not Allowed", "Allow: GET\r\n");
      EmptyAnnounces("404", "Not Found", "");
      if request.Some? {
        EmptyAnnounces("301", "Moved Permanently", Location(request.value.target));
        var file := files(request.value.target);
        if file.Some? { FileAnnounces(request.value, file.value); }
      }
    }
    hide Empty, FileReply, Announces, Location, ParseHead;
  }

  lemma EmptyAnnounces(status: string, reason: string, extra: string)
    ensures Announces(Empty(status, reason, extra), 0)
  {
    var a := "HTTP/1.1 " + status + " " + reason + CRLF + extra;
    var b := "Connection: close" + BLANK;
    assert Digits(0) == "0";
    assert Empty(status, reason, extra) == a + "Content-Length: " + Digits(0) + CRLF + b;
  }

  lemma FileAnnounces(q: Request, file: string)
    requires |file| <= OFF_MAX
    ensures Announces(FileReply(q, file).header, |FileReply(q, file).body|)
  {
    hide Empty, FileHeader, Announces, Choose, RangeOf, ContentRange;
    var size := |file|;
    var selection := Choose(Saturated(RangeOf(q.range)), size);
    ChooseIsRight(Saturated(RangeOf(q.range)), size);
    if selection.Unsatisfiable? {
      EmptyAnnounces("416", "Range Not Satisfiable", ContentRange(selection, size));
    } else {
      FileHeaderAnnounces(q.target, selection, if selection.Part? then selection.length else size, size);
    }
  }

  lemma FileHeaderAnnounces(target: string, selection: Selection, length: nat, size: nat)
    ensures Announces(FileHeader(target, selection, length, size), length)
  {
    var a := "HTTP/1.1 " + (if selection.Part? then "206 Partial Content" else "200 OK") + CRLF;
    var b := "Content-Type: " + ContentType(target) + CRLF + "Accept-Ranges: bytes" + CRLF
      + ContentRange(selection, size) + "Connection: close" + BLANK;
    hide Digits, ContentType, ContentRange;
    assert FileHeader(target, selection, length, size) == a + "Content-Length: " + Digits(length) + CRLF + b;
  }

  // ---------------------------------------------------------------------
  // Headers fit the output buffer
  // ---------------------------------------------------------------------

  /** The length checks before a header is put into the buffer succeed. */
  ghost predicate Fits(request: Option<Request>, tls: bool, files: Files)
    requires Sized(files)
  {
    && |Respond(request, tls, files).header| < OUTPUT_SIZE
    && (request.Some? && !tls ==> |Location(request.value.target)| < LOCATION_SIZE)
  }

  lemma TargetIsPart(h: string)
    ensures ParseHead(h).Some? ==> |ParseHead(h).value.target| < |h|
  {
    hide ParseFields, LineEnd, StrChr, ValidLine;
    var l := h[..LineEnd(h, 0)];
    if ParseHead(h).Some? {
      assert ParseRequestLine(l).Some? && |ParseRequestLine(l).value.target| < |l|;
    }
  }

  lemma EmptyLength(status: string, reason: string, extra: string)
    ensures |Empty(status, reason, extra)| == |status| + |reason| + |extra| + 52
  {}

  lemma ContentRangeLength(selection: Selection, size: nat)
    requires size <= OFF_MAX && (selection.Part? ==> selection.first + selection.length <= size)
    ensures |ContentRange(selection, size)| < 160
  {
    OffsetDigits(size);
    if selection.Part? {
      OffsetDigits(selection.first);
      if selection.first + selection.length > 0 { OffsetDigits(selection.first + selection.length - 1); }
    }
    hide Digits;
  }

  lemma FileHeaderLength(target: string, selection: Selection, length: nat, size: nat)
    requires length <= size <= OFF_MAX && (selection.Part? ==> selection.first + selection.length <= size)
    ensures |FileHeader(target, selection, length, size)| < 400
  {
    OffsetDigits(length);
    ContentRangeLength(selection, size);
    hide Digits, ContentRange, ContentType;
  }

  /** A header that arrived within the input buffer never makes the reply overflow. */
  lemma HeaderFits(head: string, tls: bool, files: Files)
    requires |head| < INPUT_SIZE && Sized(files)
    ensures Fits(ParseHead(head), tls, files)
  {
    TargetIsPart(head);
    EmptyLength("400", "Bad Request", "");
    EmptyLength("405", "Method Not Allowed", "Allow: GET\r\n");
    EmptyLength("404", "Not Found", "");
    var request := ParseHead(head);
    hide ParseHead, Empty, FileReply, ContentRange, FileHeader;
    if request.Some? {
      var q := request.value;
      EmptyLength("301", "Moved Permanently", Location(q.target));
      hide RedirectPath;
      assert |Location(q.target)| <= |q.target| + 30;
      if files(q.target).Some? { FileReplyFits(q, files(q.target).value); }
    }
  }

  lemma FileReplyFits(q: Request, file: string)
    requires |file| <= OFF_MAX
    ensures |FileReply(q, file).header| < 400
  {
    var size := |file|;
    var selection := Choose(Saturated(RangeOf(q.range)), size);
    ChooseIsRight(Saturated(RangeOf(q.range)), size);
    hide Choose, RangeOf, Empty, ContentRange, FileHeader;
    if selection.Unsatisfiable? {
      ContentRangeLength(selection, size);
      EmptyLength("416", "Range Not Satisfiable", ContentRange(selection, size));
    } else {
      FileHeaderLength(q.target, selection, if selection.Part? then selection.length else size, size);
    }
  }

  // ---------------------------------------------------------------------
  // Redirects
  // ---------------------------------------------------------------------

  predicate IsPath(path: string) {
    path != "" ==> path[0] == '/' || path[0] == '?'
  }

  lemma {:induction false} FromPathSkips(s: string, i: nat, authority: string, path: string)
    requires i <= |s| && s[i..] == authority + path && IsPath(path) && '/' !in authority && '?' !in authority
    ensures FromPath(s, i) == path
    decreases |authority|
  {
    if authority != "" {
      assert s[i] == s[i..][0] == authority[0] && authority[0] in authority;
      assert s[i + 1..] == s[i..][1..] == authority[1..] + path;
      FromPathSkips(s, i + 1, authority[1..], path);
    } else {
      assert s[i..] == path;
      assert path != "" ==> s[i] == path[0];
    }
  }

  /** A redirect keeps path and query, and drops scheme and authority. */
  lemma RedirectKeepsPath(authority: string, path: string)
    requires IsPath(path) && '/' !in authority && '?' !in authority
    ensures RedirectPath("http://" + authority + path) == (if path == "" then "/" else path)
    ensures RedirectPath("https://" + authority + path) == (if path == "" then "/" else path)
    ensures path != "" ==> RedirectPath(path) == path
  {
    var s, t := "http://" + authority + path, "https://" + authority + path;
    assert s[7..] == authority + path && t[8..] == authority + path;
    FromPathSkips(s, 7, authority, path);
    FromPathSkips(t, 8, authority, path);
    assert s[..7] == "http://" && t[..8] == "https://" && t[4] == 's';
    hide FromPath;
  }

  /** The length checks on the way to an answer. */
  ghost predicate AnswerFits(decision: Decision, tls: bool, files: Files)
    requires !decision.Waiting? && Sized(files)
  {
    if decision.TooLarge? then |Answer(decision, tls, files).header| < OUTPUT_SIZE
    else Fits(ParseHead(decision.head), tls, files)
  }

  lemma AnswerAlwaysFits(stream: string, tls: bool, files: Files)
    requires Sized(files) && !Decide(stream).Waiting?
    ensures AnswerFits(Decide(stream), tls, files)
  {
    EmptyLength("431", "Request Header Fields Too Large", "");
    var decision := Decide(stream);
    if decision.Complete? { HeaderFits(decision.head, tls, files); }
  }
}
