/** The request parser, which cuts the header into C strings inside the input buffer. */
module HttpsRequest {
  import opened Basics
  import opened HttpsRange
  import opened HttpsText

  /** Where the parts of a request lie in the buffer. */
  datatype Pointers = Pointers(method_: nat, target: nat, range: Option<nat>)

  /** A NUL written into a held string cuts it in two. */
  lemma CutHeld(t: string, i: nat, v: string, k: nat)
    requires Holds(t, i, v) && k < |v|
    ensures Holds(t[i + k := NUL], i, v[..k])
    ensures Holds(t[i + k := NUL], i + k + 1, v[k + 1..])
  {
    var u := t[i + k := NUL];
    forall j | 0 <= j < |v|
      ensures t[i + j] == v[j]
    {
      assert t[i..i + |v|][j] == v[j];
    }
    assert u[i..i + k] == v[..k];
    assert u[i + k + 1..i + |v|] == v[k + 1..];
    assert v[0..|v|] == v;
    MissingInPart(v, 0, |v|, 0, k, NUL);
    MissingInPart(v, 0, |v|, k + 1, |v|, NUL);
  }

  lemma HeldSlice(t: string, i: nat, n: nat)
    requires i <= n < |t| && NUL !in t[i..n] && t[n] == NUL
    ensures Holds(t, i, t[i..n])
  {}

  lemma StrChrSuffix(l: string, j: nat, c: char)
    requires j <= |l| && NUL !in l
    ensures StrChr(l, j, c) == match StrChr(l[j..], 0, c) case None => None case Some(k) => Some(j + k)
  {
    var v := l[j..];
    assert l[0..|l|] == l && l[j..|l|] == v == v[0..|v|];
    MissingInPart(l, 0, |l|, j, |l|, NUL);
    StrEndIs(l, j, |l|);
    StrEndIs(v, 0, |v|);
    StrChrFirst(v, 0, c);
    var r := StrChr(v, 0, c);
    if r.Some? {
      var k := r.value;
      SliceOfSlice(l, j, |v|, 0, k);
      MissingInPart(l, 0, |l|, j, j + k + 1, NUL);
      StrChrIs(l, j, c, j + k);
    } else {
      StrChrMissing(l, j, c);
    }
  }

  lemma HeldChar(t: string, start: nat, v: string, j: nat)
    requires Holds(t, start, v) && j <= |v|
    ensures j < |v| ==> t[start + j] == v[j] && v[j] != NUL
    ensures t[start + |v|] == NUL
  {
    if j < |v| {
      assert t[start..start + |v|][j] == v[j] && v[j] in v;
    }
  }

  method CheckToken(input: array<char>, start: nat, ghost v: string) returns (ok: bool)
    requires Holds(input[..], start, v)
    ensures ok <==> IsToken(v)
  {
    var p := start;
    HeldChar(input[..], start, v, 0);
    if input[start] == NUL { return false; }
    while input[p] != NUL
      invariant start <= p <= start + |v|
      invariant forall k | 0 <= k < p - start :: IsTokenChar(v[k])
      invariant input[p] == NUL <==> p == start + |v|
      decreases start + |v| - p
    {
      HeldChar(input[..], start, v, p - start);
      HeldChar(input[..], start, v, p - start + 1);
      if !IsTokenChar(input[p]) { return false; }
      p := p + 1;
    }
    return true;
  }

  method CheckTarget(input: array<char>, start: nat, ghost v: string) returns (ok: bool)
    requires Holds(input[..], start, v)
    ensures ok <==> forall k | 0 <= k < |v| :: IsTargetChar(v[k])
  {
    var p := start;
    HeldChar(input[..], start, v, 0);
    while input[p] != NUL
      invariant start <= p <= start + |v|
      invariant forall k | 0 <= k < p - start :: IsTargetChar(v[k])
      invariant input[p] == NUL <==> p == start + |v|
      decreases start + |v| - p
    {
      HeldChar(input[..], start, v, p - start);
      HeldChar(input[..], start, v, p - start + 1);
      if !IsTargetChar(input[p]) { return false; }
      p := p + 1;
    }
    return true;
  }

  method CheckValue(input: array<char>, start: nat, ghost v: string) returns (ok: bool)
    requires Holds(input[..], start, v)
    ensures ok <==> forall k | 0 <= k < |v| :: IsValueChar(v[k])
  {
    var p := start;
    HeldChar(input[..], start, v, 0);
    while input[p] != NUL
      invariant start <= p <= start + |v|
      invariant forall k | 0 <= k < p - start :: IsValueChar(v[k])
      invariant input[p] == NUL <==> p == start + |v|
      decreases start + |v| - p
    {
      HeldChar(input[..], start, v, p - start);
      HeldChar(input[..], start, v, p - start + 1);
      if !IsValueChar(input[p]) { return false; }
      p := p + 1;
    }
    return true;
  }

  /** Where a C string is cut, and what is on both sides of the cut. */
  method CutAt(input: array<char>, start: nat, c: char, ghost v: string) returns (r: Option<nat>)
    requires Holds(input[..], start, v)
    modifies input
    ensures match StrChr(v, 0, c) {
      case None => r.None? && input[..] == old(input[..])
      case Some(k) =>
        && r == Some(start + k) && k < |v| && input[..] == old(input[..])[start + k := NUL]
        && Holds(input[..], start, v[..k]) && Holds(input[..], start + k + 1, v[k + 1..])
    }
  {
    StrChrInHeld(input[..], start, v, c);
    r := StrChr(input[..], start, c);
    if r.Some? {
      var k := r.value - start;
      assert k < |v|;
      CutHeld(input[..], start, v, k);
      input[r.value] := NUL;
    }
  }

  /** The parts of a request line lie in the buffer before lineEnd, or it was refused. */
  predicate LineCut(t: string, lineEnd: nat, q: Option<RequestLine>, r: Option<(nat, nat)>) {
    match q
    case None => r.None?
    case Some(q) =>
      && r.Some? && Holds(t, 0, q.method_) && |q.method_| < lineEnd
      && Holds(t, r.value.0, q.target) && r.value.0 + |q.target| < lineEnd
      && Holds(t, r.value.1, q.version) && r.value.1 + |q.version| <= lineEnd
  }

  lemma SplitLineParts(l: string)
    ensures StrChr(l, 0, ' ').None? ==> SplitLine(l).None?
    ensures StrChr(l, 0, ' ').Some? ==>
      var a := StrChr(l, 0, ' ').value;
      a < |l| &&
      var b := StrChr(l, a + 1, ' ');
      (b.None? ==> SplitLine(l).None?) && (b.Some? ==>
        a < b.value < |l| && SplitLine(l) == Some(RequestLine(l[..a], l[a + 1..b.value], l[b.value + 1..])))
  {
    hide StrChr;
  }

  lemma NoSecondSpace(l: string, a: nat)
    requires NUL !in l && StrChr(l, 0, ' ') == Some(a) && a < |l| && StrChr(l[a + 1..], 0, ' ').None?
    ensures SplitLine(l).None?
  {
    hide StrChr, SplitLine;
    StrChrSuffix(l, a + 1, ' ');
    SplitLineParts(l);
  }

  lemma SecondSpace(l: string, a: nat, b: nat)
    requires NUL !in l && StrChr(l, 0, ' ') == Some(a) && a < |l|
    requires a < b && StrChr(l[a + 1..], 0, ' ') == Some(b - (a + 1))
    ensures b < |l| && SplitLine(l) == Some(RequestLine(l[..a], l[a + 1..b], l[b + 1..]))
  {
    hide StrChr, SplitLine;
    StrChrSuffix(l, a + 1, ' ');
    SplitLineParts(l);
  }

  lemma UpdateFrame(t: string, k: nat, n: nat)
    requires k < |t| && n <= |t|
    ensures n <= k ==> t[k := NUL][..n] == t[..n]
    ensures n > k ==> t[k := NUL][n..] == t[n..]
  {}

  /** What two cuts at spaces leave of a buffer that held a line with these parts. */
  lemma LineIsCut(t0: string, t1: string, t2: string, q: RequestLine)
    requires var a, b := |q.method_|, |q.method_| + 1 + |q.target|;
      && b + 1 + |q.version| < |t0| && t1 == t0[a := NUL] && t2 == t1[b := NUL] && Holds(t1, 0, q.method_)
      && Holds(t2, a + 1, q.target) && Holds(t2, b + 1, q.version)
    ensures var n := |q.method_| + |q.target| + |q.version| + 2;
      && LineCut(t2, n, Some(q), Some((|q.method_| + 1, |q.method_| + |q.target| + 2)))
      && t2[n..] == t0[n..]
  {
    hide Holds;
    var a, b := |q.method_|, |q.method_| + 1 + |q.target|;
    UpdateFrame(t0, a, b + 1 + |q.version|);
    UpdateFrame(t1, b, b + 1 + |q.version|);
    UpdateFrame(t1, b, a + 1);
    HoldsFrame(t1, t2, a + 1, 0, q.method_);
  }

  /** Two spaces cut a request line in three. */
  method SplitRequestLine(input: array<char>, ghost l: string) returns (r: Option<(nat, nat)>)
    requires Holds(input[..], 0, l)
    modifies input
    ensures input[|l|..] == old(input[|l|..])
    ensures LineCut(input[..], |l|, SplitLine(l), r)
  {
    hide Holds, StrChr, StrEnd, SplitLine;
    HeldIsText(input[..], 0, l);
    ghost var t0 := input[..];
    var a := CutAt(input, 0, ' ', l);
    if a.None? {
      SplitLineParts(l);
      return None;
    }
    var target := a.value + 1;
    ghost var t1 := input[..];
    var b := CutAt(input, target, ' ', l[target..]);
    if b.None? {
      NoSecondSpace(l, a.value);
      return None;
    }
    hide LineCut;
    SecondSpace(l, a.value, b.value);
    PrefixOfRest(l, target, b.value - target);
    SuffixOfRest(l, target, b.value - target + 1);
    LineIsCut(t0, t1, input[..], SplitLine(l).value);
    return Some((target, b.value + 1));
  }

  lemma HeldIsText(t: string, i: nat, v: string)
    requires Holds(t, i, v)
    ensures NUL !in v && i + |v| < |t|
  {}

  /** Cuts off and checks the request line; gives the places of the target and the version. */
  method CutRequestLine(input: array<char>, lineEnd: nat) returns (r: Option<(nat, nat)>)
    requires lineEnd < input.Length && NUL !in input[..lineEnd]
    modifies input
    ensures input[lineEnd + 1..] == old(input[lineEnd + 1..])
    ensures LineCut(input[..], lineEnd, ParseRequestLine(old(input[..lineEnd])), r)
  {
    hide Holds, SplitLine, IsToken, IsTargetChar, StrEnd;
    ghost var l := input[..lineEnd];
    input[lineEnd] := NUL;
    assert input[..][0..lineEnd] == l;
    HeldSlice(input[..], 0, lineEnd);
    ghost var t := input[..];
    r := SplitRequestLine(input, l);
    assert input[lineEnd + 1..] == t[lineEnd + 1..] by { Later(t, input[..], lineEnd); }
    if r.Some? {
      ghost var q := SplitLine(l).value;
      var target, version := r.value.0, r.value.1;
      var acceptable := CheckToken(input, 0, q.method_);
      HoldsIsStr(input[..], version, q.version);
      HeldChar(input[..], target, q.target, 0);
      acceptable := acceptable && input[target] != NUL && IsVersion(Str(input[..], version));
      if acceptable {
        acceptable := CheckTarget(input, target, q.target);
      }
      if !acceptable { r := None; }
    }
  }

  // ---------------------------------------------------------------------
  // Header fields
  // ---------------------------------------------------------------------

  lemma HeldSuffix(t: string, i: nat, v: string, j: nat)
    requires Holds(t, i, v) && j <= |v|
    ensures Holds(t, i + j, v[j..])
  {
    assert v[0..|v|] == v && v[j..|v|] == v[j..];
    MissingInPart(v, 0, |v|, j, |v|, NUL);
    SliceOfSlice(t, i, |v|, j, |v|);
  }

  method SkipLeading(input: array<char>, start: nat, ghost v: string) returns (value: nat)
    requires Holds(input[..], start, v)
    ensures value == start + SkipSpaces(v, 0)
    ensures Holds(input[..], value, v[value - start..])
  {
    hide Holds, SkipSpaces;
    value := start;
    HeldIsText(input[..], start, v);
    HeldChar(input[..], start, v, 0);
    while IsSpace(input[value])
      invariant start <= value <= start + |v|
      invariant forall k | 0 <= k < value - start :: IsSpace(v[k])
      invariant input[value] == if value == start + |v| then NUL else v[value - start]
      decreases start + |v| - value
    {
      value := value + 1;
      HeldChar(input[..], start, v, value - start);
    }
    SkipSpacesIs(v, 0, value - start);
    HeldSuffix(input[..], start, v, value - start);
  }

  method TrimTrailing(input: array<char>, value: nat, lineEnd: nat, ghost v: string)
    requires Holds(input[..], value, v) && lineEnd == value + |v|
    modifies input
    ensures input[..value] == old(input[..value]) && input[lineEnd..] == old(input[lineEnd..])
    ensures Holds(input[..], value, v[..TrimSpaces(v, 0, |v|)])
  {
    hide Holds, TrimSpaces;
    ghost var t := input[..];
    HeldIsText(t, value, v);
    HeldChar(t, value, v, |v|);
    var tail := lineEnd;
    while tail > value && IsSpace(input[tail - 1])
      invariant value <= tail <= lineEnd
      invariant forall k | tail - value <= k < |v| :: IsSpace(v[k])
      invariant input[..tail] == t[..tail] && input[lineEnd..] == t[lineEnd..] && input[tail] == NUL
    {
      tail := tail - 1;
      HeldChar(t, value, v, tail - value);
      assert input[tail] == input[..tail + 1][tail] == t[tail];
      input[tail] := NUL;
    }
    if tail > value {
      HeldChar(t, value, v, tail - 1 - value);
      assert input[tail - 1] == input[..tail][tail - 1] == t[tail - 1];
    }
    TrimSpacesIs(v, 0, tail - value, |v|);
    TrimmedHolds(t, input[..], value, v, tail - value);
    assert input[..value] == input[..tail][..value];
  }

  lemma TrimmedHolds(t: string, u: string, i: nat, v: string, n: nat)
    requires Holds(t, i, v) && n <= |v| && |u| == |t| && u[..i + n] == t[..i + n] && u[i + n] == NUL
    ensures Holds(u, i, v[..n])
  {
    SliceOfSlice(t, i, |v|, 0, n);
    assert v[0..|v|] == v;
    MissingInPart(v, 0, |v|, 0, n, NUL);
    assert u[i..i + n] == u[..i + n][i..] == t[..i + n][i..] == t[i..i + n];
  }

  lemma {:induction false} SkipSuffix(l: string, j: nat, i: nat)
    requires j + i <= |l|
    ensures SkipSpaces(l, j + i) == j + SkipSpaces(l[j..], i)
    decreases |l| - i
  {
    hide IsSpace;
    if j + i < |l| {
      SkipSuffix(l, j, i + 1);
      assert l[j..][i] == l[j + i];
    }
  }

  lemma {:induction false} TrimSuffix(l: string, j: nat, n: nat)
    requires j + n <= |l|
    ensures TrimSpaces(l, j, j + n) == j + TrimSpaces(l[j..], 0, n)
    decreases n
  {
    hide IsSpace;
    if n > 0 {
      TrimSuffix(l, j, n - 1);
      assert l[j..][n - 1] == l[j + n - 1];
    }
  }

  lemma FieldOnce(l: string, k: nat, v: nat, w: nat)
    requires StrChr(l, 0, ':') == Some(k) && k < v <= w <= |l|
    requires v == SkipSpaces(l, k + 1) && w == TrimSpaces(l, v, |l|)
    ensures ParseField(l) == Accept(Named(l[..k], l[v..w]))
  {
    hide StrChr, Accept, SkipSpaces, TrimSpaces;
  }

  /** Trimming the two ends of what follows the colon, one after the other. */
  lemma FieldBySuffix(l: string, k: nat, rest: string, v: nat, tail: string, n: nat)
    requires StrChr(l, 0, ':') == Some(k) && k < |l| && rest == l[k + 1..]
    requires v == SkipSpaces(rest, 0) && tail == rest[v..] && n == TrimSpaces(tail, 0, |tail|)
    ensures ParseField(l) == Accept(Named(l[..k], tail[..n]))
  {
    hide StrChr, Accept, SkipSpaces, TrimSpaces, ParseField, IsSpace;
    var from := k + 1 + v;
    assert from == SkipSpaces(l, k + 1) by { SkipSuffix(l, k + 1, 0); }
    assert tail == l[from..] by { SuffixOfRest(l, k + 1, v); }
    assert from + n == TrimSpaces(l, from, |l|) by { TrimSuffix(l, from, |tail|); }
    assert tail[..n] == l[from..from + n] by { PrefixOfRest(l, from, n); }
    FieldOnce(l, k, from, from + n);
  }

  /** The name lies at the line's start and the value at r, or the field was refused. */
  predicate FieldCut(t: string, line: nat, lineEnd: nat, f: Option<Named>, r: Option<nat>) {
    match f
    case None => r.None?
    case Some(f) =>
      && r.Some? && Holds(t, line, f.name) && line + |f.name| < r.value
      && Holds(t, r.value, f.value) && r.value + |f.value| <= lineEnd
  }

  /** Cuts a field line at its colon and finds the value, not yet trimmed at the end. */
  method CutName(input: array<char>, line: nat, lineEnd: nat, ghost l: string) returns (r: Option<nat>)
    requires Holds(input[..], line, l) && lineEnd == line + |l|
    modifies input
    ensures input[..line] == old(input[..line]) && input[lineEnd..] == old(input[lineEnd..])
    ensures match StrChr(l, 0, ':') {
      case None => r.None?
      case Some(k) => k < |l| && Holds(input[..], line, l[..k]) &&
        var v := SkipSpaces(l[k + 1..], 0);
        r == Some(line + k + 1 + v) && Holds(input[..], line + k + 1 + v, l[k + 1..][v..])
    }
  {
    hide Holds, StrChr, SkipSpaces;
    HeldIsText(input[..], line, l);
    var colon := CutAt(input, line, ':', l);
    if colon.None? { return None; }
    var value := SkipLeading(input, colon.value + 1, l[colon.value - line + 1..]);
    return Some(value);
  }

  /** Cuts a field line into name and value. */
  method CutField(input: array<char>, line: nat, lineEnd: nat) returns (r: Option<nat>)
    requires line <= lineEnd < input.Length && NUL !in input[line..lineEnd]
    modifies input
    ensures input[..line] == old(input[..line]) && input[lineEnd + 1..] == old(input[lineEnd + 1..])
    ensures FieldCut(input[..], line, lineEnd, ParseField(old(input[line..lineEnd])), r)
  {
    hide Holds, StrChr, StrEnd, IsToken, IsValueChar, IsSpace, SkipSpaces, TrimSpaces, ParseField;
    ghost var l := input[line..lineEnd];
    input[lineEnd] := NUL;
    assert input[..][line..lineEnd] == l;
    HeldSlice(input[..], line, lineEnd);
    ghost var t := input[..];
    r := CutName(input, line, lineEnd, l);
    assert input[lineEnd + 1..] == t[lineEnd + 1..] by { Later(t, input[..], lineEnd); }
    if r.None? {
      NoColon(l);
      return;
    }
    ghost var k := StrChr(l, 0, ':').value;
    r := TrimField(input, line, lineEnd, l, k, l[k + 1..], r.value);
    assert input[lineEnd + 1..] == t[lineEnd + 1..] by { Later(t, input[..], lineEnd); }
  }

  /** Checks the name, trims the value and checks it. */
  method TrimField(input: array<char>, line: nat, lineEnd: nat, ghost l: string, ghost k: nat,
                   ghost rest: string, value: nat)
    returns (r: Option<nat>)
    requires lineEnd == line + |l| && StrChr(l, 0, ':') == Some(k) && k < |l| && rest == l[k + 1..]
    requires value == line + k + 1 + SkipSpaces(rest, 0)
    requires Holds(input[..], line, l[..k]) && Holds(input[..], value, rest[SkipSpaces(rest, 0)..])
    modifies input
    ensures input[..line] == old(input[..line]) && input[lineEnd..] == old(input[lineEnd..])
    ensures FieldCut(input[..], line, lineEnd, ParseField(l), r)
  {
    hide Holds, StrChr, StrEnd, IsToken, IsValueChar, IsSpace, SkipSpaces, TrimSpaces, ParseField;
    ghost var tail := rest[SkipSpaces(rest, 0)..];
    ghost var text := tail[..TrimSpaces(tail, 0, |tail|)];
    FieldBySuffix(l, k, rest, SkipSpaces(rest, 0), tail, TrimSpaces(tail, 0, |tail|));
    var nameOk := CheckToken(input, line, l[..k]);
    if !nameOk { return None; }
    ghost var t := input[..];
    HeldIsText(t, value, tail);
    TrimTrailing(input, value, lineEnd, tail);
    HoldsFrame(t, input[..], value, line, l[..k]);
    assert input[..line] == t[..line] by { Earlier(t, input[..], value, line); }
    var valueOk := CheckValue(input, value, text);
    r := if valueOk then Some(value) else None;
  }

  lemma Later(t: string, u: string, n: nat)
    requires n < |t| == |u| && t[n..] == u[n..]
    ensures t[n + 1..] == u[n + 1..]
  {
    assert t[n + 1..] == t[n..][1..] && u[n + 1..] == u[n..][1..];
  }

  lemma Earlier(t: string, u: string, n: nat, m: nat)
    requires m <= n <= |t| == |u| && t[..n] == u[..n]
    ensures t[..m] == u[..m]
  {
    assert t[..m] == t[..n][..m] && u[..m] == u[..n][..m];
  }

  lemma NoColon(l: string)
    requires StrChr(l, 0, ':').None?
    ensures ParseField(l) == None
  {}

  // ---------------------------------------------------------------------
  // The whole header
  // ---------------------------------------------------------------------

  /** The request in a buffer text: what stands before its first blank line, parsed. */
  function Parsed(t: string): Option<Request> {
    match StrStr(t, 0, BLANK)
    case None => None
    case Some(end) => ParseHead(t[..end])
  }

  predicate RangeCut(t: string, limit: nat, range: Option<string>, r: Option<nat>) {
    match range
    case None => r.None?
    case Some(v) => r.Some? && Holds(t, r.value, v) && r.value + |v| < limit
  }

  predicate RequestCut(t: string, q: Option<Request>, r: Option<Pointers>) {
    match q
    case None => r.None?
    case Some(q) =>
      && r.Some? && Holds(t, r.value.method_, q.method_) && Holds(t, r.value.target, q.target)
      && RangeCut(t, |t|, q.range, r.value.range)
  }

  /** Searching for the next CRLF finds the end of the line, as long as the text from there on is untouched. */
  lemma NextLine(t: string, t0: string, end: nat, i: nat)
    requires i <= end && end + 4 <= |t| == |t0| && t[i..] == t0[i..]
    requires Occurs(t0, end, BLANK) && NUL !in t0[..end]
    ensures StrStr(t, i, CRLF) == Some(LineEnd(t0[..end], i))
    ensures NUL !in t[i..LineEnd(t0[..end], i)] && t[i..LineEnd(t0[..end], i)] == t0[..end][i..LineEnd(t0[..end], i)]
  {
    hide StrStr, LineEnd, Occurs;
    var h := t0[..end];
    var e := LineEnd(h, i);
    SameFrom(t, t0, i);
    SameStart(t0, end);
    BlankChars(t0, end);
    forall k | i <= k < e
      ensures !Occurs(t, k, CRLF)
    {
      assert !Occurs(h, k, CRLF);
      CrlfAt(t, k);
      CrlfAt(h, k);
    }
    CrlfAt(t, e);
    CrlfAt(h, e);
    assert t[e] == '\r';
    StrStrIs(t, i, CRLF, e);
  }

  lemma SameStart(t0: string, end: nat)
    requires end <= |t0| && NUL !in t0[..end]
    ensures forall k | 0 <= k < end :: t0[..end][k] == t0[k] && t0[k] != NUL
  {
    forall k | 0 <= k < end
      ensures t0[..end][k] == t0[k] && t0[k] != NUL
    {
      assert t0[..end][k] in t0[..end];
    }
  }

  lemma BlankChars(t: string, k: nat)
    requires Occurs(t, k, BLANK)
    ensures k + 4 <= |t| && t[k] == '\r' && t[k + 1] == '\n'
  {
    assert t[k] == t[k..k + 4][0] && t[k + 1] == t[k..k + 4][1];
  }

  lemma SameFrom(t: string, u: string, i: nat)
    requires i <= |t| == |u| && t[i..] == u[i..]
    ensures forall k | i <= k < |t| :: t[k] == u[k]
  {
    forall k | i <= k < |t|
      ensures t[k] == u[k]
    {
      assert t[k] == t[i..][k - i] == u[i..][k - i];
    }
  }

  lemma CrlfAt(t: string, k: nat)
    ensures Occurs(t, k, CRLF) <==> k + 2 <= |t| && t[k] == '\r' && t[k + 1] == '\n'
  {
    if k + 2 <= |t| {
      assert t[k..k + 2] == [t[k], t[k + 1]];
    }
  }

  /** What the parser's flags and pointers have to do with the fields read. */
  predicate Tracks(t: string, limit: nat, seen: Seen, host: bool, ranges: nat, range: Option<nat>, ifRange: bool) {
    seen.host == host && seen.ranges == ranges && seen.ifRange == ifRange && RangeCut(t, limit, seen.range, range)
  }

  lemma RangeFrame(t: string, u: string, n: nat, m: nat, range: Option<string>, r: Option<nat>)
    requires RangeCut(t, n, range, r) && n <= m && n <= |t| == |u| && t[..n] == u[..n]
    ensures RangeCut(u, m, range, r)
  {
    if range.Some? { HoldsFrame(t, u, n, r.value, range.value); }
  }

  lemma LineFrame(t: string, u: string, n: nat, m: nat, q: RequestLine, r: (nat, nat))
    requires LineCut(t, n, Some(q), Some(r)) && n < m <= |t| == |u| && t[..m] == u[..m]
    ensures LineCut(u, n, Some(q), Some(r))
  {
    HoldsFrame(t, u, m, 0, q.method_);
    HoldsFrame(t, u, m, r.0, q.target);
    HoldsFrame(t, u, m, r.1, q.version);
  }

  /** Cuts and checks one field line and takes note of it. */
  method TakeField(input: array<char>, line: nat, lineEnd: nat, host: bool, ranges: nat, range: Option<nat>,
                   ifRange: bool, ghost seen: Seen)
    returns (ok: bool, host': bool, ranges': nat, range': Option<nat>, ifRange': bool, ghost seen': Seen)
    requires line <= lineEnd < input.Length && NUL !in input[line..lineEnd]
    requires Tracks(input[..], line, seen, host, ranges, range, ifRange)
    modifies input
    ensures input[..line] == old(input[..line]) && input[lineEnd + 1..] == old(input[lineEnd + 1..])
    ensures match ParseField(old(input[line..lineEnd])) {
      case None => !ok
      case Some(f) =>
        match Note(seen, f)
        case None => !ok
        case Some(s) => ok && seen' == s && Tracks(input[..], lineEnd + 1, s, host', ranges', range', ifRange')
    }
  {
    hide Holds, ParseField, EqualsIgnoringCase, StrEnd;
    ok, host', ranges', range', ifRange', seen' := false, host, ranges, range, ifRange, seen;
    ghost var t, parsed := input[..], ParseField(input[line..lineEnd]);
    var cut := CutField(input, line, lineEnd);
    if cut.None? { return; }
    ghost var f := parsed.value;
    var value := cut.value;
    RangeFrame(t, input[..], line, lineEnd + 1, seen.range, range);
    HoldsIsStr(input[..], line, f.name);
    HoldsIsStr(input[..], value, f.value);
    HeldChar(input[..], value, f.value, 0);
    var name := Str(input[..], line);
    if EqualsIgnoringCase(name, "Host") {
      if host || input[value] == NUL { return; }
      host' := true;
    } else if EqualsIgnoringCase(name, "Range") {
      ranges' := ranges + 1;
      range' := Some(value);
    } else if EqualsIgnoringCase(name, "If-Range") {
      ifRange' := true;
    }
    ok := true;
    seen' := Note(seen, f).value;
  }

  /** The text before a blank line, as a search for the blank line leaves it. */
  lemma BeforeBlank(t: string, end: nat)
    requires StrStr(t, 0, BLANK) == Some(end)
    ensures Occurs(t, end, BLANK) && end + 4 <= |t| && NUL !in t[..end] && NUL !in t[..end + 4]
  {
    StrStrFirst(t, 0, BLANK);
    hide StrStr;
    assert t[end..end + 4] == BLANK;
    MissingInPart(t, 0, StrEnd(t, 0), 0, end, NUL);
    hide StrEnd, Occurs;
    WithBlank(t, end);
  }

  lemma WithBlank(t: string, end: nat)
    requires end + 4 <= |t| && t[end..end + 4] == BLANK && NUL !in t[0..end]
    ensures NUL !in t[..end] && NUL !in t[..end + 4]
  {
    assert t[..end] == t[0..end] && t[..end + 4] == t[0..end] + BLANK;
  }

  /** The buffer is untouched from i on. */
  predicate Untouched(t0: string, t: string, i: nat) {
    i <= |t| == |t0| && t[i..] == t0[i..]
  }

  lemma UntouchedLater(t0: string, t: string, u: string, i: nat, j: nat)
    requires Untouched(t0, t, i) && i <= j <= |t| == |u| && u[j..] == t[j..]
    ensures forall k | j <= k <= |t| :: Untouched(t0, u, k)
  {
    forall k | j <= k <= |t|
      ensures Untouched(t0, u, k)
    {
      assert u[k..] == u[j..][k - j..] == t[j..][k - j..] == t[k..] == t[i..][k - i..] == t0[i..][k - i..] == t0[k..];
    }
  }

  lemma ParseFieldsStep(h: string, i: nat, seen: Seen)
    ensures i >= |h| ==> ParseFields(h, i, seen) == Some(seen)
    ensures i < |h| ==> (ParseFields(h, i, seen) ==
      match ParseField(h[i..LineEnd(h, i)])
      case None => None
      case Some(f) =>
        match Note(seen, f) case None => None case Some(seen') => ParseFields(h, LineEnd(h, i) + 2, seen'))
  {
    hide ParseField, LineEnd, Note;
  }

  /** Reads field after field up to the blank line. */
  method TakeFields(input: array<char>, end: nat, start: nat, ghost t0: string, ghost q: RequestLine,
                    ghost cut: (nat, nat))
    returns (ok: bool, host: bool, ranges: nat, range: Option<nat>, ifRange: bool, ghost seen: Seen)
    requires 2 <= start <= end + 2 && end + 4 <= |t0| && Occurs(t0, end, BLANK) && NUL !in t0[..end]
    requires Untouched(t0, input[..], start) && LineCut(input[..], start - 2, Some(q), Some(cut))
    modifies input
    ensures LineCut(input[..], start - 2, Some(q), Some(cut)) || !ok
    ensures match ParseFields(t0[..end], start, NOTHING_SEEN) {
      case None => !ok
      case Some(s) => ok && seen == s && Tracks(input[..], end + 3, s, host, ranges, range, ifRange)
    }
  {
    hide Holds, ParseField, ParseFields, StrStr, StrEnd, Note, LineEnd, Occurs, LineCut, RangeCut, Untouched;
    ghost var h := t0[..end];
    ok, host, ranges, range, ifRange, seen := true, false, 0, None, false, NOTHING_SEEN;
    NoRange(input[..], start);
    SameLength(t0, input[..], start);
    var line := start;
    while line < end
      invariant start <= line <= end + 2 && input.Length == |t0| && ok
      invariant Untouched(t0, input[..], line)
      invariant ParseFields(h, line, seen) == ParseFields(h, start, NOTHING_SEEN)
      invariant Tracks(input[..], line, seen, host, ranges, range, ifRange)
      invariant LineCut(input[..], start - 2, Some(q), Some(cut))
    {
      ghost var t := input[..];
      UntouchedIs(t0, t, line);
      NextLine(t, t0, end, line);
      ParseFieldsStep(h, line, seen);
      var lineEnd := StrStr(input[..], line, CRLF).value;
      assert input[line..lineEnd] == t[line..lineEnd] == h[line..lineEnd];
      ok, host, ranges, range, ifRange, seen := TakeField(input, line, lineEnd, host, ranges, range, ifRange, seen);
      if !ok { return; }
      LineFrame(t, input[..], start - 2, line, q, cut);
      UntouchedLater(t0, t, input[..], line, lineEnd + 1);
      line := lineEnd + 2;
      RangeLater(input[..], lineEnd + 1, line, seen.range, range);
    }
    ParseFieldsStep(h, line, seen);
    RangeLater(input[..], line, end + 3, seen.range, range);
  }

  lemma UntouchedIs(t0: string, t: string, i: nat)
    requires Untouched(t0, t, i)
    ensures i <= |t| == |t0| && t[i..] == t0[i..]
  {}

  lemma SameLength(t0: string, t: string, i: nat)
    requires Untouched(t0, t, i)
    ensures |t| == |t0|
  {}

  lemma NoRange(t: string, n: nat)
    ensures RangeCut(t, n, None, None)
  {}

  lemma RangeLater(t: string, n: nat, m: nat, range: Option<string>, r: Option<nat>)
    requires RangeCut(t, n, range, r) && n <= m
    ensures RangeCut(t, m, range, r)
  {}

  /** Splits the complete header in place. */
  method ParseRequest(input: array<char>) returns (r: Option<Pointers>)
    modifies input
    ensures RequestCut(input[..], Parsed(old(input[..])), r)
  {
    hide Holds, ParseRequestLine, ParseFields, StrStr, StrEnd, LineEnd, Occurs;
    ghost var t0 := input[..];
    var blank := StrStr(input[..], 0, BLANK);
    if blank.Some? { BeforeBlank(t0, blank.value); }
    if blank.None? || NUL in input[..blank.value + 4] { return None; }
    var end := blank.value;
    ghost var h := t0[..end];
    NextLine(t0, t0, end, 0);
    var lineEnd := StrStr(input[..], 0, CRLF).value;
    assert input[..lineEnd] == t0[0..lineEnd] == h[..lineEnd];
    var cut := CutRequestLine(input, lineEnd);
    if cut.None? { return None; }
    ghost var q := ParseRequestLine(h[..lineEnd]).value;
    UntouchedLater(t0, t0, input[..], 0, lineEnd + 1);
    var ok, host, ranges, range, ifRange, seen := TakeFields(input, end, lineEnd + 2, t0, q, cut.value);
    if !ok { return None; }
    HoldsIsStr(input[..], cut.value.1, q.version);
    if Str(input[..], cut.value.1) == "HTTP/1.1" && !host { return None; }
    if ranges > 1 || ifRange {
      range := None;
    }
    return Some(Pointers(0, cut.value.0, range));
  }
}
