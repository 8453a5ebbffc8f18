/**
 C strings inside a buffer, and the request grammar the server accepts.
 A char stands for a byte; an index into the buffer stands for a pointer.
 */
module HttpsText {
  import opened Basics
  import opened HttpsRange

  const NUL := '\0'
  const CRLF := "\r\n"
  const BLANK := "\r\n\r\n"

  /** Where the C string at i ends: at a NUL, or at the end of the text. */
  function StrEnd(t: string, i: nat): (n: nat)
    requires i <= |t|
    ensures i <= n <= |t| && NUL !in t[i..n] && (n < |t| ==> t[n] == NUL)
    decreases |t| - i
  {
    if i == |t| || t[i] == NUL then i else StrEnd(t, i + 1)
  }

  /** The C string at i. */
  function Str(t: string, i: nat): string
    requires i <= |t|
  {
    t[i..StrEnd(t, i)]
  }

  /** The buffer holds the C string v at i. */
  predicate Holds(t: string, i: nat, v: string) {
    i + |v| < |t| && t[i..i + |v|] == v && t[i + |v|] == NUL && NUL !in v
  }

  /** A char missing from a stretch of text is missing from every part of it. */
  lemma MissingInPart(t: string, i: nat, j: nat, i': nat, j': nat, c: char)
    requires i <= i' <= j' <= j <= |t| && c !in t[i..j]
    ensures c !in t[i'..j']
  {
    forall k | 0 <= k < j' - i'
      ensures t[i'..j'][k] != c
    {
      assert t[i..j][k + i' - i] in t[i..j];
    }
  }

  lemma {:induction false} StrEndIs(t: string, i: nat, n: nat)
    requires i <= n <= |t| && NUL !in t[i..n] && (n < |t| ==> t[n] == NUL)
    ensures StrEnd(t, i) == n
    decreases n - i
  {
    if i < n {
      assert t[i] in t[i..n];
      MissingInPart(t, i, n, i + 1, n, NUL);
      StrEndIs(t, i + 1, n);
    }
  }

  lemma HoldsIsStr(t: string, i: nat, v: string)
    requires Holds(t, i, v)
    ensures Str(t, i) == v
  {
    StrEndIs(t, i, i + |v|);
  }

  /** The first c of the C string at i. */
  function StrChr(t: string, i: nat, c: char): (r: Option<nat>)
    requires i <= |t|
    ensures r.Some? ==> i <= r.value < |t| && t[r.value] == c
    decreases |t| - i
  {
    if i == |t| || t[i] == NUL then None
    else if t[i] == c then Some(i)
    else StrChr(t, i + 1, c)
  }

  lemma {:induction false} StrChrFirst(t: string, i: nat, c: char)
    requires i <= |t|
    ensures var r := StrChr(t, i, c);
      if r.Some? then r.value < StrEnd(t, i) && c !in t[i..r.value] else c !in t[i..StrEnd(t, i)]
    decreases |t| - i
  {
    if i < |t| && t[i] != NUL && t[i] != c {
      StrChrFirst(t, i + 1, c);
      var r := StrChr(t, i + 1, c);
      var n := if r.Some? then r.value else StrEnd(t, i + 1);
      assert t[i..n] == [t[i]] + t[i + 1..n];
    }
  }

  predicate Occurs(t: string, i: nat, pattern: string) {
    i + |pattern| <= |t| && t[i..i + |pattern|] == pattern
  }

  /** The first occurrence of a pattern that starts inside the C string at i. */
  function StrStr(t: string, i: nat, pattern: string): (r: Option<nat>)
    requires i <= |t|
    ensures r.Some? ==> i <= r.value < |t| && Occurs(t, r.value, pattern)
    decreases |t| - i
  {
    if i == |t| || t[i] == NUL then None
    else if Occurs(t, i, pattern) then Some(i)
    else StrStr(t, i + 1, pattern)
  }

  lemma {:induction false} StrStrFirst(t: string, i: nat, pattern: string)
    requires i <= |t|
    ensures var r := StrStr(t, i, pattern);
      var n := if r.Some? then r.value else StrEnd(t, i);
      (r.Some? ==> n < StrEnd(t, i)) && forall k | i <= k < n :: !Occurs(t, k, pattern)
    decreases |t| - i
  {
    if i < |t| && t[i] != NUL && !Occurs(t, i, pattern) {
      StrStrFirst(t, i + 1, pattern);
      hide Occurs;
    }
  }

  lemma {:induction false} StrStrIs(t: string, i: nat, pattern: string, j: nat)
    requires i <= j < |t| && NUL !in t[i..j + 1]
    requires Occurs(t, j, pattern) && forall k | i <= k < j :: !Occurs(t, k, pattern)
    ensures StrStr(t, i, pattern) == Some(j)
    decreases j - i
  {
    assert t[i] in t[i..j + 1];
    if i < j {
      MissingInPart(t, i, j + 1, i + 1, j + 1, NUL);
      StrStrIs(t, i + 1, pattern, j);
    }
  }

  lemma {:induction false} StrChrIs(t: string, i: nat, c: char, j: nat)
    requires i <= j < |t| && NUL !in t[i..j + 1]
    requires t[j] == c && c !in t[i..j]
    ensures StrChr(t, i, c) == Some(j)
    decreases j - i
  {
    assert t[i] in t[i..j + 1];
    if i < j {
      assert t[i] in t[i..j];
      MissingInPart(t, i, j + 1, i + 1, j + 1, NUL);
      MissingInPart(t, i, j, i + 1, j, c);
      StrChrIs(t, i + 1, c, j);
    }
  }

  lemma SliceOfSlice(t: string, i: nat, n: nat, a: nat, b: nat)
    requires a <= b <= n && i + n <= |t|
    ensures t[i..i + n][a..b] == t[i + a..i + b]
  {
    var part := t[i..i + n];
    forall k | 0 <= k < b - a
      ensures part[a..b][k] == t[i + a..i + b][k]
    {
      assert part[a..b][k] == part[a + k] == t[i + a + k];
    }
  }

  lemma PrefixOfRest(l: string, i: nat, n: nat)
    requires i + n <= |l|
    ensures l[i..][..n] == l[i..i + n]
  {}

  lemma SuffixOfRest(l: string, i: nat, n: nat)
    requires i + n <= |l|
    ensures l[i..][n..] == l[i + n..]
  {}

  /** Searching a string held in the buffer is searching the string. */
  lemma StrChrInHeld(t: string, i: nat, v: string, c: char)
    requires Holds(t, i, v)
    ensures StrChr(t, i, c) == match StrChr(v, 0, c) case None => None case Some(k) => Some(i + k)
  {
    StrEndIs(t, i, i + |v|);
    StrEndIs(v, 0, |v|);
    assert v[0..|v|] == v;
    StrChrFirst(v, 0, c);
    var r := StrChr(v, 0, c);
    if r.Some? {
      var k := r.value;
      SliceOfSlice(t, i, |v|, 0, k);
      SliceOfSlice(t, i, |v|, 0, k + 1);
      assert t[i..i + |v|][k] == v[k] == c;
      MissingInPart(v, 0, |v|, 0, k + 1, NUL);
      StrChrIs(t, i, c, i + k);
    } else {
      assert t[i..StrEnd(t, i)] == v == v[0..StrEnd(v, 0)];
      StrChrMissing(t, i, c);
    }
  }

  lemma {:induction false} StrChrMissing(t: string, i: nat, c: char)
    requires i <= |t| && c !in t[i..StrEnd(t, i)]
    ensures StrChr(t, i, c) == None
    decreases |t| - i
  {
    if i < |t| && t[i] != NUL {
      var n := StrEnd(t, i);
      assert t[i] in t[i..n];
      MissingInPart(t, i, n, i + 1, n, c);
      StrChrMissing(t, i + 1, c);
    }
  }

  /** What a write elsewhere leaves alone. */
  lemma HoldsFrame(t: string, u: string, n: nat, i: nat, v: string)
    requires Holds(t, i, v) && i + |v| < n <= |t| && |t| == |u| && t[..n] == u[..n]
    ensures Holds(u, i, v)
  {
    assert t[i..i + |v|] == t[..n][i..i + |v|] == u[..n][i..i + |v|] == u[i..i + |v|];
    assert t[i + |v|] == t[..n][i + |v|] == u[..n][i + |v|] == u[i + |v|];
  }

  // ---------------------------------------------------------------------
  // Characters
  // ---------------------------------------------------------------------

  const TOKEN_MARKS := "!#$%&'*+-.^_`|~"

  predicate IsTokenChar(c: char) {
    'a' <= c <= 'z' || 'A' <= c <= 'Z' || '0' <= c <= '9' || c in TOKEN_MARKS
  }

  predicate IsToken(s: string) {
    s != "" && forall i | 0 <= i < |s| :: IsTokenChar(s[i])
  }

  predicate IsTargetChar(c: char) {
    32 < c as int < 127 && c != '#'
  }

  predicate IsSpace(c: char) {
    c == ' ' || c == '\t'
  }

  predicate IsValueChar(c: char) {
    (c as int >= 32 || c == '\t') && c as int != 127
  }

  const DELIMITERS := "\"(),/:;<=>?@[\\]{}"

  /**
   A token is made of visible characters other than delimiters (section 5.6.2 of RFC 9110), a target of visible
   characters other than #, and a value of visible characters, blanks, tabs and bytes beyond ASCII.
   */
  lemma CharacterClasses(c: char)
    ensures var visible := '!' <= c <= '~';
      && (IsTokenChar(c) <==> visible && c !in DELIMITERS)
      && (IsTargetChar(c) <==> visible && c != '#')
      && (IsValueChar(c) <==> visible || c == ' ' || c == '\t' || c as int >= 0x80)
  {}

  // ---------------------------------------------------------------------
  // The parse of a header text, line by line
  // ---------------------------------------------------------------------

  datatype RequestLine = RequestLine(method_: string, target: string, version: string)

  datatype Named = Named(name: string, value: string)

  /** What the fields read so far say. */
  datatype Seen = Seen(host: bool, ranges: nat, range: Option<string>, ifRange: bool)

  datatype Request = Request(method_: string, target: string, range: Option<string>)

  predicate IsVersion(s: string) {
    s == "HTTP/1.0" || s == "HTTP/1.1"
  }

  /** A request line cut at its first two spaces. */
  function SplitLine(l: string): Option<RequestLine> {
    match StrChr(l, 0, ' ')
    case None => None
    case Some(a) =>
      match StrChr(l, a + 1, ' ')
      case None => None
      case Some(b) => Some(RequestLine(l[..a], l[a + 1..b], l[b + 1..]))
  }

  predicate ValidLine(q: RequestLine) {
    && IsToken(q.method_) && q.target != "" && IsVersion(q.version)
    && forall i | 0 <= i < |q.target| :: IsTargetChar(q.target[i])
  }

  function ParseRequestLine(l: string): Option<RequestLine> {
    match SplitLine(l)
    case None => None
    case Some(q) => if ValidLine(q) then Some(q) else None
  }

  function SkipSpaces(l: string, i: nat): (j: nat)
    requires i <= |l|
    ensures i <= j <= |l| && (forall k | i <= k < j :: IsSpace(l[k])) && (j < |l| ==> !IsSpace(l[j]))
    decreases |l| - i
  {
    if i < |l| && IsSpace(l[i]) then SkipSpaces(l, i + 1) else i
  }

  function TrimSpaces(l: string, low: nat, high: nat): (j: nat)
    requires low <= high <= |l|
    ensures low <= j <= high && (forall k | j <= k < high :: IsSpace(l[k])) && (low < j ==> !IsSpace(l[j - 1]))
  {
    if low < high && IsSpace(l[high - 1]) then TrimSpaces(l, low, high - 1) else high
  }

  function Accept(f: Named): Option<Named> {
    if IsToken(f.name) && forall i | 0 <= i < |f.value| :: IsValueChar(f.value[i]) then Some(f) else None
  }

  function ParseField(l: string): Option<Named> {
    match StrChr(l, 0, ':')
    case None => None
    case Some(k) =>
      var v := SkipSpaces(l, k + 1);
      Accept(Named(l[..k], l[v..TrimSpaces(l, v, |l|)]))
  }

  /** Takes one field into account; a second or empty Host is refused. */
  function Note(seen: Seen, f: Named): Option<Seen> {
    if EqualsIgnoringCase(f.name, "Host") then
      if seen.host || f.value == "" then None else Some(seen.(host := true))
    else if EqualsIgnoringCase(f.name, "Range") then
      Some(seen.(ranges := seen.ranges + 1, range := Some(f.value)))
    else if EqualsIgnoringCase(f.name, "If-Range") then
      Some(seen.(ifRange := true))
    else Some(seen)
  }

  /** The end of the line starting at i: the next CRLF, or the end of the text. */
  function LineEnd(h: string, i: nat): (e: nat)
    requires i <= |h|
    ensures i <= e <= |h| && (forall k | i <= k < e :: !Occurs(h, k, CRLF)) && (e < |h| ==> Occurs(h, e, CRLF))
    decreases |h| - i
  {
    if i == |h| || Occurs(h, i, CRLF) then i else LineEnd(h, i + 1)
  }

  function ParseFields(h: string, i: nat, seen: Seen): Option<Seen>
    decreases |h| - i
  {
    if i >= |h| then Some(seen)
    else
      var e := LineEnd(h, i);
      match ParseField(h[i..e])
      case None => None
      case Some(f) =>
        match Note(seen, f)
        case None => None
        case Some(seen') => ParseFields(h, e + 2, seen')
  }

  const NOTHING_SEEN := Seen(false, 0, None, false)

  function Conclude(q: RequestLine, seen: Seen): Option<Request> {
    if q.version == "HTTP/1.1" && !seen.host then None
    else Some(Request(q.method_, q.target, if seen.ranges > 1 || seen.ifRange then None else seen.range))
  }

  /** The request written by a header text (without the blank line that ends it). */
  function ParseHead(h: string): Option<Request> {
    var e := LineEnd(h, 0);
    match ParseRequestLine(h[..e])
    case None => None
    case Some(q) =>
      match ParseFields(h, e + 2, NOTHING_SEEN)
      case None => None
      case Some(seen) => Conclude(q, seen)
  }

  // ---------------------------------------------------------------------
  // The grammar, and the parse as its inverse
  // ---------------------------------------------------------------------

  datatype Field = Field(name: string, lead: string, value: string, trail: string)

  datatype Head = Head(line: RequestLine, fields: seq<Field>)

  predicate AllSpaces(s: string) {
    forall i | 0 <= i < |s| :: IsSpace(s[i])
  }

  predicate ValidField(f: Field) {
    && IsToken(f.name) && AllSpaces(f.lead) && AllSpaces(f.trail)
    && (forall i | 0 <= i < |f.value| :: IsValueChar(f.value[i]))
    && (f.value == "" ==> f.trail == "")
    && (f.value != "" ==> !IsSpace(f.value[0]) && !IsSpace(f.value[|f.value| - 1]))
  }

  predicate ValidHead(m: Head) {
    ValidLine(m.line) && forall i | 0 <= i < |m.fields| :: ValidField(m.fields[i])
  }

  function RenderLine(q: RequestLine): string {
    q.method_ + " " + q.target + " " + q.version
  }

  function RenderField(f: Field): string {
    f.name + ":" + f.lead + f.value + f.trail
  }

  function RenderFields(fs: seq<Field>): string {
    if fs == [] then "" else CRLF + RenderField(fs[0]) + RenderFields(fs[1..])
  }

  function Render(m: Head): string {
    RenderLine(m.line) + RenderFields(m.fields)
  }

  /** How many fields bear a name. */
  function Count(fs: seq<Field>, name: string): nat {
    if fs == [] then 0 else (if EqualsIgnoringCase(fs[0].name, name) then 1 else 0) + Count(fs[1..], name)
  }

  predicate RightHosts(m: Head) {
    && Count(m.fields, "Host") <= 1
    && (m.line.version == "HTTP/1.1" ==> Count(m.fields, "Host") == 1)
    && forall i | 0 <= i < |m.fields| && EqualsIgnoringCase(m.fields[i].name, "Host") :: m.fields[i].value != ""
  }

  /** The range taken from a header: of its only Range field, if no If-Range is present. */
  predicate IsRange(fs: seq<Field>, range: Option<string>) {
    if Count(fs, "Range") == 1 && Count(fs, "If-Range") == 0 then
      range.Some? && exists i :: 0 <= i < |fs| && EqualsIgnoringCase(fs[i].name, "Range") && fs[i].value == range.value
    else range.None?
  }

  /** A request is what a valid header with acceptable Host fields says. */
  predicate Says(m: Head, r: Request) {
    && ValidHead(m) && RightHosts(m) && r.method_ == m.line.method_ && r.target == m.line.target
    && IsRange(m.fields, r.range)
  }

  predicate NoReturn(s: string) {
    '\r' !in s && NUL !in s
  }

  lemma NoReturnJoin(a: string, b: string)
    requires NoReturn(a) && NoReturn(b)
    ensures NoReturn(a + b)
  {}

  lemma TokenHasNoReturn(s: string)
    requires IsToken(s)
    ensures NoReturn(s)
  {}

  lemma SpacesHaveNoReturn(s: string)
    requires AllSpaces(s)
    ensures NoReturn(s)
  {}

  lemma ValueHasNoReturn(s: string)
    requires forall i | 0 <= i < |s| :: IsValueChar(s[i])
    ensures NoReturn(s)
  {}

  lemma FieldParts(f: Field)
    requires ValidField(f)
    ensures NoReturn(f.name) && NoReturn(f.lead) && NoReturn(f.value) && NoReturn(f.trail) && NoReturn(":")
  {
    assert NoReturn(":");
    hide NoReturn, IsToken, AllSpaces, IsValueChar;
    TokenHasNoReturn(f.name);
    SpacesHaveNoReturn(f.lead);
    ValueHasNoReturn(f.value);
    SpacesHaveNoReturn(f.trail);
  }

  lemma FieldHasNoReturn(f: Field)
    requires ValidField(f)
    ensures NoReturn(RenderField(f))
  {
    FieldParts(f);
    hide NoReturn, ValidField;
    NoReturnJoin(f.name, ":");
    NoReturnJoin(f.name + ":", f.lead);
    NoReturnJoin(f.name + ":" + f.lead, f.value);
    NoReturnJoin(f.name + ":" + f.lead + f.value, f.trail);
  }

  lemma LineParts(q: RequestLine)
    requires ValidLine(q)
    ensures NoReturn(q.method_) && NoReturn(q.target) && NoReturn(q.version) && NoReturn(" ")
  {}

  lemma LineHasNoReturn(q: RequestLine)
    requires ValidLine(q)
    ensures NoReturn(RenderLine(q))
  {
    LineParts(q);
    hide NoReturn, ValidLine;
    NoReturnJoin(q.method_, " ");
    NoReturnJoin(q.method_ + " ", q.target);
    NoReturnJoin(q.method_ + " " + q.target, " ");
    NoReturnJoin(q.method_ + " " + q.target + " ", q.version);
  }

  lemma {:induction false} SkipSpacesIs(l: string, i: nat, j: nat)
    requires i <= j <= |l| && AllSpaces(l[i..j]) && (j < |l| ==> !IsSpace(l[j]))
    ensures SkipSpaces(l, i) == j
    decreases j - i
  {
    if i < j {
      assert IsSpace(l[i..j][0]);
      assert l[i + 1..j] == l[i..j][1..];
      SkipSpacesIs(l, i + 1, j);
    }
  }

  lemma {:induction false} TrimSpacesIs(l: string, low: nat, j: nat, high: nat)
    requires low <= j <= high <= |l| && AllSpaces(l[j..high]) && (low < j ==> !IsSpace(l[j - 1]))
    ensures TrimSpaces(l, low, high) == j
    decreases high - j
  {
    if j < high {
      assert IsSpace(l[j..high][high - 1 - j]);
      assert l[j..high - 1] == l[j..high][..high - 1 - j];
      TrimSpacesIs(l, low, j, high - 1);
    }
  }

  lemma SpacesOf(l: string, i: nat, j: nat)
    requires i <= j <= |l| && forall k | i <= k < j :: IsSpace(l[k])
    ensures AllSpaces(l[i..j])
  {}

  /** The parts of a rendered field lie where they were put. */
  lemma FieldLayout(f: Field, l: string, k: nat, v: nat, w: nat)
    requires l == RenderField(f) && k == |f.name| && v == k + 1 + |f.lead| && w == v + |f.value|
    ensures k < v <= w <= |l|
    ensures l[0..k] == f.name && l[k] == ':' && l[k + 1..v] == f.lead && l[v..w] == f.value && l[w..|l|] == f.trail
  {}

  lemma ParseRenderedField(f: Field)
    requires ValidField(f)
    ensures ParseField(RenderField(f)) == Some(Named(f.name, f.value))
  {
    var l := RenderField(f);
    FieldHasNoReturn(f);
    var k := |f.name|;
    var v := k + 1 + |f.lead|;
    var w := v + |f.value|;
    FieldLayout(f, l, k, v, w);
    hide RenderField;
    assert l[0..|l|] == l;
    MissingInPart(l, 0, |l|, 0, k + 1, NUL);
    StrChrIs(l, 0, ':', k);
    SpacesAround(f, l, k, v, w);
    SkipSpacesIs(l, k + 1, v);
    TrimSpacesIs(l, v, w, |l|);
  }

  lemma SpacesAround(f: Field, l: string, k: nat, v: nat, w: nat)
    requires ValidField(f) && k < v <= w <= |l|
    requires l[k + 1..v] == f.lead && l[v..w] == f.value && l[w..|l|] == f.trail
    ensures v < |l| ==> !IsSpace(l[v])
    ensures v < w ==> !IsSpace(l[w - 1])
  {
    if v < w {
      assert l[v] == f.value[0] && l[w - 1] == f.value[w - v - 1];
    } else {
      assert f.value == "";
    }
  }

  lemma LineLayout(q: RequestLine, l: string, a: nat, b: nat)
    requires l == RenderLine(q) && a == |q.method_| && b == a + 1 + |q.target|
    ensures a < b < |l| && l[0..a] == l[..a] == q.method_ && l[a] == ' '
    ensures l[a + 1..b] == q.target && l[b] == ' ' && l[b + 1..] == q.version
  {}

  lemma ParseRenderedLine(q: RequestLine)
    requires ValidLine(q)
    ensures ParseRequestLine(RenderLine(q)) == Some(q)
  {
    var l := RenderLine(q);
    LineHasNoReturn(q);
    var a := |q.method_|;
    var b := a + 1 + |q.target|;
    LineLayout(q, l, a, b);
    assert l[0..|l|] == l;
    assert ' ' !in q.method_ && ' ' !in q.target;
    hide RenderLine, ValidLine, IsToken, StrChr, IsTargetChar;
    MissingInPart(l, 0, |l|, 0, a + 1, NUL);
    MissingInPart(l, 0, |l|, a + 1, b + 1, NUL);
    StrChrIs(l, 0, ' ', a);
    StrChrIs(l, a + 1, ' ', b);
    assert SplitLine(l) == Some(q);
  }
}
