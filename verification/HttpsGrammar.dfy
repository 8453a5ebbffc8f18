/** The parse of a request header is exactly the inverse of writing one down. */
module HttpsGrammar {
  import opened Basics
  import opened HttpsRange
  import opened HttpsText

  lemma {:induction false} LineEndIs(h: string, i: nat, e: nat)
    requires i <= e <= |h| && (forall k | i <= k < e :: !Occurs(h, k, CRLF)) && (e < |h| ==> Occurs(h, e, CRLF))
    ensures LineEnd(h, i) == e
    decreases e - i
  {
    if i < e { LineEndIs(h, i + 1, e); }
  }

  /** The fields of a header, one after the other. */
  function NoteAll(seen: Seen, fs: seq<Field>): Option<Seen>
    decreases |fs|
  {
    if fs == [] then Some(seen)
    else match Note(seen, Named(fs[0].name, fs[0].value))
      case None => None
      case Some(seen') => NoteAll(seen', fs[1..])
  }

  /** A line without a carriage return, followed by the end or by CRLF, ends where it should. */
  lemma LineEndAfter(pre: string, l: string, rest: string)
    requires '\r' !in l && (rest == "" || CRLF <= rest)
    ensures LineEnd(pre + l + rest, |pre|) == |pre| + |l|
  {
    var h := pre + l + rest;
    forall k | |pre| <= k < |pre| + |l|
      ensures !Occurs(h, k, CRLF)
    {
      assert h[k] == l[k - |pre|] && l[k - |pre|] in l;
      assert k + 2 <= |h| ==> h[k..k + 2][0] == h[k];
    }
    if rest != "" {
      assert h[|pre| + |l|..|pre| + |l| + 2] == rest[..2] == CRLF;
    }
    LineEndIs(h, |pre|, |pre| + |l|);
  }

  lemma RenderFieldsStart(fs: seq<Field>)
    ensures RenderFields(fs) == "" || CRLF <= RenderFields(fs)
  {}

  /** One line of the fields, read off the front of what is left. */
  lemma ParseOneField(pre: string, l: string, rest: string, seen: Seen, f: Named)
    requires '\r' !in l && (rest == "" || CRLF <= rest) && ParseField(l) == Some(f)
    ensures ParseFields(pre + l + rest, |pre|, seen) ==
      match Note(seen, f) case None => None case Some(seen') => ParseFields(pre + l + rest, |pre + l| + 2, seen')
  {
    hide ParseField, LineEnd, Note;
    var h := pre + l + rest;
    ParsedIsNotEmpty(l);
    LineEndAfter(pre, l, rest);
    var e := LineEnd(h, |pre|);
    assert e == |pre + l| && |pre| < |h|;
    assert h[|pre|..e] == l;
  }

  lemma Regroup(a: string, b: string, c: string, d: string)
    ensures a + (b + c + d) == (a + b) + c + d == (a + b + c) + d
  {}

  lemma RenderFieldsCons(pre: string, fs: seq<Field>)
    requires fs != []
    ensures pre + RenderFields(fs) == pre + CRLF + RenderField(fs[0]) + RenderFields(fs[1..])
  {
    hide RenderField;
    Regroup(pre, CRLF, RenderField(fs[0]), RenderFields(fs[1..]));
  }

  lemma ParseNoField(pre: string, seen: Seen)
    ensures ParseFields(pre + RenderFields([]), |pre| + 2, seen) == Some(seen)
  {}

  lemma ParseNextField(pre: string, fs: seq<Field>, seen: Seen)
    requires fs != [] && ValidField(fs[0])
    ensures ParseFields(pre + RenderFields(fs), |pre| + 2, seen) ==
      match Note(seen, Named(fs[0].name, fs[0].value))
      case None => None
      case Some(seen') =>
        var l := pre + CRLF + RenderField(fs[0]);
        ParseFields(l + RenderFields(fs[1..]), |l| + 2, seen')
  {
    hide ParseField, ValidField, RenderField, RenderFields, Note, LineEnd, ParseFields;
    var l, rest := RenderField(fs[0]), RenderFields(fs[1..]);
    RenderFieldsCons(pre, fs);
    assert '\r' !in l by { FieldHasNoReturn(fs[0]); }
    assert rest == "" || CRLF <= rest by { RenderFieldsStart(fs[1..]); }
    ParseRenderedField(fs[0]);
    ParseOneField(pre + CRLF, l, rest, seen, Named(fs[0].name, fs[0].value));
  }

  lemma {:induction false} ParseRenderedFields(pre: string, fs: seq<Field>, seen: Seen)
    requires forall i | 0 <= i < |fs| :: ValidField(fs[i])
    ensures ParseFields(pre + RenderFields(fs), |pre| + 2, seen) == NoteAll(seen, fs)
    decreases |fs|
  {
    hide RenderField, RenderFields, ParseFields, ValidField, Note;
    if fs == [] {
      ParseNoField(pre, seen);
    } else {
      ParseNextField(pre, fs, seen);
      RenderFieldsCons(pre, fs);
      var next := Note(seen, Named(fs[0].name, fs[0].value));
      if next.Some? {
        ParseRenderedFields(pre + CRLF + RenderField(fs[0]), fs[1..], next.value);
      }
    }
  }

  lemma ParsedIsNotEmpty(l: string)
    requires ParseField(l).Some?
    ensures l != ""
  {}

  /** What the fields come to, counted. */
  lemma {:induction false} NoteAllCounts(seen: Seen, fs: seq<Field>)
    ensures NoteAll(seen, fs).Some? <==>
      && (if seen.host then 1 else 0) + Count(fs, "Host") <= 1
      && forall i | 0 <= i < |fs| && EqualsIgnoringCase(fs[i].name, "Host") :: fs[i].value != ""
    ensures NoteAll(seen, fs).Some? ==>
      var r := NoteAll(seen, fs).value;
      && r.host == (seen.host || Count(fs, "Host") > 0)
      && r.ranges == seen.ranges + Count(fs, "Range")
      && r.ifRange == (seen.ifRange || Count(fs, "If-Range") > 0)
      && (Count(fs, "Range") == 0 ==> r.range == seen.range)
      && (Count(fs, "Range") > 0 ==> r.range.Some? && IsValueOf(fs, "Range", r.range.value))
    decreases |fs|
  {
    if fs != [] {
      var f := Named(fs[0].name, fs[0].value);
      NamesDiffer(f.name);
      var next := Note(seen, f);
      if next.Some? {
        NoteAllCounts(next.value, fs[1..]);
        ValueOfTail(fs, "Range");
        if EqualsIgnoringCase(f.name, "Range") && Count(fs[1..], "Range") == 0 && NoteAll(seen, fs).Some? {
          assert NoteAll(seen, fs).value.range == Some(fs[0].value);
        }
        assert forall i | 0 <= i < |fs[1..]| :: fs[1..][i] == fs[i + 1];
        assert forall i | 0 < i < |fs| :: fs[i] == fs[1..][i - 1];
      } else if seen.host {
      } else {
        assert fs[0].value == "";
      }
    }
  }

  predicate IsValueOf(fs: seq<Field>, name: string, value: string) {
    exists i :: 0 <= i < |fs| && EqualsIgnoringCase(fs[i].name, name) && fs[i].value == value
  }

  lemma ValueOfTail(fs: seq<Field>, name: string)
    requires fs != []
    ensures forall v | IsValueOf(fs[1..], name, v) :: IsValueOf(fs, name, v)
    ensures EqualsIgnoringCase(fs[0].name, name) ==> IsValueOf(fs, name, fs[0].value)
  {
    forall v | IsValueOf(fs[1..], name, v)
      ensures IsValueOf(fs, name, v)
    {
      var i :| 0 <= i < |fs[1..]| && EqualsIgnoringCase(fs[1..][i].name, name) && fs[1..][i].value == v;
      assert fs[i + 1] == fs[1..][i];
    }
  }

  /** The three names that matter are different names. */
  lemma NamesDiffer(s: string)
    ensures !(EqualsIgnoringCase(s, "Host") && EqualsIgnoringCase(s, "Range"))
    ensures !(EqualsIgnoringCase(s, "Host") && EqualsIgnoringCase(s, "If-Range"))
    ensures !(EqualsIgnoringCase(s, "Range") && EqualsIgnoringCase(s, "If-Range"))
  {
    assert |"Host"| == 4 && |"Range"| == 5 && |"If-Range"| == 8;
  }

  lemma {:induction false} CountsAny(fs: seq<Field>, name: string, i: nat)
    requires i < |fs| && EqualsIgnoringCase(fs[i].name, name)
    ensures Count(fs, name) >= 1
    decreases |fs|
  {
    if i > 0 { CountsAny(fs[1..], name, i - 1); }
  }

  lemma {:induction false} CountOne(fs: seq<Field>, name: string, i: nat, j: nat)
    requires i < |fs| && EqualsIgnoringCase(fs[i].name, name)
    requires j < |fs| && EqualsIgnoringCase(fs[j].name, name)
    requires Count(fs, name) == 1
    ensures i == j
    decreases |fs|
  {
    if i == 0 && j > 0 {
      CountsAny(fs[1..], name, j - 1);
    } else if j == 0 && i > 0 {
      CountsAny(fs[1..], name, i - 1);
    } else if i > 0 && j > 0 {
      if EqualsIgnoringCase(fs[0].name, name) { CountsAny(fs[1..], name, i - 1); }
      CountOne(fs[1..], name, i - 1, j - 1);
    }
  }

  lemma RangeIsUnique(fs: seq<Field>, a: string, b: string)
    requires IsValueOf(fs, "Range", a) && IsValueOf(fs, "Range", b) && Count(fs, "Range") == 1
    ensures a == b
  {
    var i :| 0 <= i < |fs| && EqualsIgnoringCase(fs[i].name, "Range") && fs[i].value == a;
    var j :| 0 <= j < |fs| && EqualsIgnoringCase(fs[j].name, "Range") && fs[j].value == b;
    CountOne(fs, "Range", i, j);
  }

  /** Parsing what was written down gives what was meant, and nothing if the Host fields are wrong. */
  lemma ParseRendered(m: Head)
    requires ValidHead(m)
    ensures ParseHead(Render(m)).Some? <==> RightHosts(m)
    ensures forall r :: ParseHead(Render(m)) == Some(r) <==> Says(m, r)
  {
    ParseRenderedParts(m);
    SayIsConclusion(m);
    hide *;
  }

  /** The request that comes of noting the fields one after the other. */
  function Conclusion(m: Head): Option<Request> {
    match NoteAll(NOTHING_SEEN, m.fields)
    case None => None
    case Some(seen) => Conclude(m.line, seen)
  }

  lemma ParseRenderedParts(m: Head)
    requires ValidHead(m)
    ensures ParseHead(Render(m)) == Conclusion(m)
  {
    hide ParseRequestLine, RenderLine, RenderFields, ParseFields, NoteAll, LineEnd, ValidLine, ValidField;
    var l, rest := RenderLine(m.line), RenderFields(m.fields);
    assert '\r' !in l by { LineHasNoReturn(m.line); }
    assert rest == "" || CRLF <= rest by { RenderFieldsStart(m.fields); }
    assert "" + l + rest == Render(m);
    LineEndAfter("", l, rest);
    assert Render(m)[..|l|] == l;
    ParseRenderedLine(m.line);
    ParseRenderedFields(l, m.fields, NOTHING_SEEN);
  }

  lemma SayIsConclusion(m: Head)
    requires ValidHead(m)
    ensures forall r :: Conclusion(m) == Some(r) <==> Says(m, r)
    ensures Conclusion(m).Some? <==> RightHosts(m)
  {
    hide ValidHead, EqualsIgnoringCase, Count;
    NoteAllCounts(NOTHING_SEEN, m.fields);
    forall r
      ensures Conclusion(m) == Some(r) <==> Says(m, r)
    {
      var n := NoteAll(NOTHING_SEEN, m.fields);
      if RightHosts(m) && Count(m.fields, "Range") == 1 && Count(m.fields, "If-Range") == 0 && r.range.Some? {
        if IsValueOf(m.fields, "Range", r.range.value) {
          RangeIsUnique(m.fields, r.range.value, n.value.range.value);
        }
      }
    }
  }

  // ---------------------------------------------------------------------
  // The letter case of names and the blanks around values do not matter
  // ---------------------------------------------------------------------

  /** The same fields, but for letter case of names and blanks around values. */
  predicate SameFields(fs: seq<Field>, gs: seq<Field>) {
    |fs| == |gs| && forall i | 0 <= i < |fs| ::
      EqualsIgnoringCase(fs[i].name, gs[i].name) && fs[i].value == gs[i].value
  }

  lemma SameNote(seen: Seen, a: string, b: string, value: string)
    requires EqualsIgnoringCase(a, b)
    ensures Note(seen, Named(a, value)) == Note(seen, Named(b, value))
  {
    SameName(a, b, "Host");
    SameName(a, b, "Range");
    SameName(a, b, "If-Range");
    hide EqualsIgnoringCase;
  }

  lemma SameName(a: string, b: string, name: string)
    requires EqualsIgnoringCase(a, b)
    ensures EqualsIgnoringCase(a, name) <==> EqualsIgnoringCase(b, name)
  {
    hide Lower;
  }

  lemma {:induction false} SameNotes(seen: Seen, fs: seq<Field>, gs: seq<Field>)
    requires SameFields(fs, gs)
    ensures NoteAll(seen, fs) == NoteAll(seen, gs)
    decreases |fs|
  {
    if fs != [] {
      hide EqualsIgnoringCase, Note;
      SameNote(seen, fs[0].name, gs[0].name, fs[0].value);
      var next := Note(seen, Named(fs[0].name, fs[0].value));
      if next.Some? { SameNotes(next.value, fs[1..], gs[1..]); }
    }
  }

  /** Headers that differ in the letter case of field names and in blanks around values make the same request. */
  lemma NameCaseIsIgnored(m: Head, w: Head)
    requires ValidHead(m) && ValidHead(w) && m.line == w.line && SameFields(m.fields, w.fields)
    ensures ParseHead(Render(m)) == ParseHead(Render(w))
  {
    hide *;
    ParseRenderedParts(m);
    ParseRenderedParts(w);
    SameNotes(NOTHING_SEEN, m.fields, w.fields);
    ConclusionIs(m);
    ConclusionIs(w);
  }

  lemma ConclusionIs(m: Head)
    ensures Conclusion(m)
      == match NoteAll(NOTHING_SEEN, m.fields) case None => None case Some(seen) => Conclude(m.line, seen)
  {
    hide NoteAll, Conclude;
  }

  // ---------------------------------------------------------------------
  // Whatever parses was written down by the grammar
  // ---------------------------------------------------------------------

  function FieldOf(l: string): Field {
    match StrChr(l, 0, ':')
    case None => Field("", "", "", "")
    case Some(k) =>
      var v := SkipSpaces(l, k + 1);
      var w := TrimSpaces(l, v, |l|);
      Field(l[..k], l[k + 1..v], l[v..w], l[w..])
  }

  lemma FieldOfIsRight(l: string)
    requires ParseField(l).Some?
    ensures ValidField(FieldOf(l)) && RenderField(FieldOf(l)) == l
    ensures ParseField(l) == Some(Named(FieldOf(l).name, FieldOf(l).value))
  {
    hide RenderField, StrChr, SkipSpaces, TrimSpaces, IsToken, IsValueChar, IsSpace;
    StrChrFirst(l, 0, ':');
    var k := StrChr(l, 0, ':').value;
    var v := SkipSpaces(l, k + 1);
    var w := TrimSpaces(l, v, |l|);
    PartsMakeTheLine(l, k, v, w);
    SpacesOf(l, k + 1, v);
    SpacesOf(l, w, |l|);
    hide AllSpaces;
    var f := FieldOf(l);
    assert |f.value| == w - v;
    assert f.value != "" ==> f.value[0] == l[v] && f.value[|f.value| - 1] == l[w - 1];
  }

  lemma PartsMakeTheLine(l: string, k: nat, v: nat, w: nat)
    requires k < v <= w <= |l| && l[k] == ':'
    ensures RenderField(Field(l[..k], l[k + 1..v], l[v..w], l[w..])) == l
  {
    assert l[..k] + ":" == l[..k + 1];
    assert l[..k + 1] + l[k + 1..v] == l[..v];
    assert l[..v] + l[v..w] == l[..w];
  }

  /** Nothing of a blank line begins inside a header text that a blank line ends. */
  predicate EndsAtBlank(h: string) {
    forall k | 0 <= k < |h| :: !Occurs(h + BLANK, k, BLANK)
  }

  function FieldsOf(h: string, i: nat): seq<Field>
    decreases |h| - i
  {
    if i >= |h| then [] else [FieldOf(h[i..LineEnd(h, i)])] + FieldsOf(h, LineEnd(h, i) + 2)
  }

  lemma CutAtLine(h: string, i: nat, e: nat)
    requires 2 <= i <= e <= |h| && Occurs(h, i - 2, CRLF)
    ensures h[i - 2..] == CRLF + h[i..e] + h[e..]
  {
    assert h[i - 2..] == h[i - 2..i] + h[i..e] + h[e..];
  }

  /** A successful parse of the fields went through one line and then through the others. */
  lemma ParseFieldsNext(h: string, i: nat, seen: Seen) returns (seen': Seen)
    requires i < |h| && ParseFields(h, i, seen).Some?
    ensures ParseField(h[i..LineEnd(h, i)]).Some? && ParseFields(h, LineEnd(h, i) + 2, seen').Some?
  {
    hide ParseField, LineEnd, Note;
    var l := h[i..LineEnd(h, i)];
    assert ParseField(l).Some?;
    assert Note(seen, ParseField(l).value).Some?;
    seen' := Note(seen, ParseField(l).value).value;
  }

  lemma {:induction false} FieldsOfIsRight(h: string, i: nat, seen: Seen)
    requires EndsAtBlank(h) && 2 <= i <= |h| + 2
    requires i - 2 == |h| || (i < |h| && Occurs(h, i - 2, CRLF))
    requires ParseFields(h, i, seen).Some?
    ensures RenderFields(FieldsOf(h, i)) == h[i - 2..]
    ensures forall k | 0 <= k < |FieldsOf(h, i)| :: ValidField(FieldsOf(h, i)[k])
    decreases |h| + 2 - i
  {
    hide ParseField, FieldOf, ValidField, RenderField, EndsAtBlank, Occurs, ParseFields, LineEnd;
    if i < |h| {
      var e := LineEnd(h, i);
      var seen' := ParseFieldsNext(h, i, seen);
      if e < |h| { NoBlankInside(h, e); }
      CutAtLine(h, i, e);
      FieldOfIsRight(h[i..e]);
      FieldsOfIsRight(h, e + 2, seen');
      assert FieldsOf(h, i) == [FieldOf(h[i..e])] + FieldsOf(h, e + 2);
      assert FieldsOf(h, i)[1..] == FieldsOf(h, e + 2);
      hide FieldsOf;
    }
  }

  lemma CrlfMakesBlank(h: string)
    requires |h| >= 2 && Occurs(h, |h| - 2, CRLF)
    ensures Occurs(h + BLANK, |h| - 2, BLANK)
  {
    assert (h + BLANK)[|h| - 2..|h| + 2] == h[|h| - 2..] + CRLF;
  }

  lemma NoBlankInside(h: string, e: nat)
    requires EndsAtBlank(h) && e < |h| && Occurs(h, e, CRLF)
    ensures e + 2 < |h|
  {
    if e + 2 == |h| {
      CrlfMakesBlank(h);
    }
  }

  function HeadOf(h: string): Head
    requires ParseRequestLine(h[..LineEnd(h, 0)]).Some?
  {
    var e := LineEnd(h, 0);
    Head(ParseRequestLine(h[..e]).value, FieldsOf(h, e + 2))
  }

  lemma LineOfIsRight(l: string)
    requires ParseRequestLine(l).Some?
    ensures ValidLine(ParseRequestLine(l).value) && RenderLine(ParseRequestLine(l).value) == l
  {}

  lemma HeadOfIsRight(h: string)
    requires EndsAtBlank(h) && ParseHead(h).Some?
    ensures ValidHead(HeadOf(h)) && Render(HeadOf(h)) == h
  {
    hide EndsAtBlank, LineEnd, Occurs, ParseRequestLine, ParseFields, FieldsOf;
    hide ValidLine, ValidField, RenderLine, RenderFields;
    var e := LineEnd(h, 0);
    LineOfIsRight(h[..e]);
    if e < |h| { NoBlankInside(h, e); }
    FieldsOfIsRight(h, e + 2, NOTHING_SEEN);
    assert h[..e] + h[e..] == h;
  }

  /** A header text parses to a request exactly when it is a valid way of writing that request down. */
  lemma ParsesExactly(h: string, r: Request)
    requires EndsAtBlank(h)
    ensures ParseHead(h) == Some(r) <==> exists m :: Render(m) == h && Says(m, r)
  {
    if ParseHead(h) == Some(r) {
      HeadOfIsRight(h);
      ParseRendered(HeadOf(h));
    }
    forall m | Render(m) == h && Says(m, r)
      ensures ParseHead(h) == Some(r)
    {
      ParseRendered(m);
    }
  }

  // ---------------------------------------------------------------------
  // A written header ends at its blank line
  // ---------------------------------------------------------------------

  lemma BlankReturns(t: string, k: nat)
    ensures Occurs(t, k, BLANK) ==> t[k] == '\r' && t[k + 2] == '\r'
  {
    if Occurs(t, k, BLANK) {
      assert t[k] == t[k..k + 4][0] && t[k + 2] == t[k..k + 4][2];
    }
  }

  /** No blank line begins in CRLF and a line that is not empty and has no carriage return. */
  lemma NoBlankInLine(l: string, rest: string, k: nat)
    requires l != "" && NoReturn(l) && k < |CRLF + l|
    ensures !Occurs(CRLF + l + rest, k, BLANK) && (CRLF + l)[k] != NUL
  {
    var t := CRLF + l + rest;
    BlankReturns(t, k);
    assert t[2] == l[0] && l[0] in l;
    if k >= 2 { assert t[k] == (CRLF + l)[k] == l[k - 2] && l[k - 2] in l; }
    hide Occurs;
  }

  lemma OccursLater(a: string, b: string, k: nat)
    requires |a| <= k
    ensures Occurs(a + b, k, BLANK) <==> Occurs(b, k - |a|, BLANK)
  {
    if k + 4 <= |a + b| {
      assert (a + b)[k..k + 4] == b[k - |a|..k - |a| + 4];
    }
  }

  lemma {:induction false} RenderedFieldsEndAtBlank(fs: seq<Field>, rest: string, k: nat)
    requires forall i | 0 <= i < |fs| :: ValidField(fs[i])
    requires k < |RenderFields(fs)|
    ensures !Occurs(RenderFields(fs) + rest, k, BLANK) && RenderFields(fs)[k] != NUL
    decreases |fs|
  {
    var l, more := RenderField(fs[0]), RenderFields(fs[1..]);
    FieldHasNoReturn(fs[0]);
    assert l != "";
    hide Occurs, ValidField, NoReturn, RenderField;
    var first := CRLF + l;
    assert RenderFields(fs) == first + more;
    Join(first, more, rest);
    if k < |first| {
      NoBlankInLine(l, more + rest, k);
    } else {
      OccursLater(first, more + rest, k);
      RenderedFieldsEndAtBlank(fs[1..], rest, k - |first|);
    }
  }

  lemma Join(a: string, b: string, c: string)
    ensures a + b + c == a + (b + c)
  {}

  lemma RenderedEndsAtBlank(m: Head)
    requires ValidHead(m)
    ensures EndsAtBlank(Render(m)) && NUL !in Render(m)
  {
    hide Occurs, RenderLine, RenderFields, ValidLine, ValidField;
    var l, more := RenderLine(m.line), RenderFields(m.fields);
    LineHasNoReturn(m.line);
    Join(l, more, BLANK);
    forall k | 0 <= k < |Render(m)|
      ensures !Occurs(Render(m) + BLANK, k, BLANK) && Render(m)[k] != NUL
    {
      if k < |l| {
        assert Render(m)[k] == l[k] && l[k] in l;
        BlankReturns(Render(m) + BLANK, k);
      } else {
        OccursLater(l, more + BLANK, k);
        RenderedFieldsEndAtBlank(m.fields, BLANK, k - |l|);
      }
    }
  }
}
