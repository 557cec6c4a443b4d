/**
 * The Live Tail filter twice: on the server, which parses a query and matches it against traces, and
 * in the browser, which has a parser of its own and only summaries. Text is ASCII.
 */
module LiveTail {
  import opened Wrappers
  import opened Pdata
  import opened TraceTypes
  import opened Messages

  datatype Op = NoOp | Colon | Gt | Ge | Lt | Le
  datatype Term = Term(key: string, op: Op, text: string)

  /** Parsing and printing of numbers, as the two libraries do it. */
  datatype Texts = Texts(
    goDuration: string -> Option<int>,      // nanoseconds
    jsDuration: string -> Option<real>,     // milliseconds
    formatInt: int -> string,
    formatFloat: real -> string)

  // ---- text ----

  function LowerChar(c: char): char {
    if 'A' <= c <= 'Z' then c + 32 as char else c
  }

  function Lower(s: string): (r: string)
    ensures |r| == |s|
  {
    seq(|s|, i requires 0 <= i < |s| => LowerChar(s[i]))
  }

  predicate IsSpace(c: char) {
    c == ' ' || '\t' <= c <= '\r'
  }

  predicate Contains(s: string, part: string) {
    exists i :: 0 <= i <= |s| - |part| && PartAt(s, i, part)
  }

  predicate PartAt(s: string, i: nat, part: string)
    requires i + |part| <= |s|
  {
    s[i..i + |part|] == part
  }

  predicate StartsWith(s: string, p: string) {
    |p| <= |s| && s[..|p|] == p
  }

  /** The position of the first character, or the length. */
  function IndexOf(s: string, c: char): (i: nat)
    ensures i <= |s| && (i < |s| ==> s[i] == c) && forall j :: 0 <= j < i ==> s[j] != c
  {
    if s == "" || s[0] == c then 0 else 1 + IndexOf(s[1..], c)
  }

  /** Characters up to the first that is a space, or is not one. */
  function Span(s: string, spaces: bool): (n: nat)
    ensures n <= |s| && (n < |s| ==> IsSpace(s[n]) != spaces) && forall j :: 0 <= j < n ==> IsSpace(s[j]) == spaces
  {
    if s == "" || IsSpace(s[0]) != spaces then 0 else 1 + Span(s[1..], spaces)
  }

  // ---- the server: strings.Fields, parseTerm ----

  function Fields(s: string): seq<string>
    decreases |s|
  {
    if s == "" then []
    else if IsSpace(s[0]) then Fields(s[1..])
    else
      var n := Span(s, false);
      [s[..n]] + Fields(s[n..])
  }

  const CANDIDATES: seq<(string, Op)> := [(">=", Ge), ("<=", Le), (">", Gt), ("<", Lt)]

  /** The comparison a value starts with; the two-character ones are tried first. */
  function OpOf(val: string): (r: (Op, string)) {
    if StartsWith(val, ">=") then (Ge, val[2..])
    else if StartsWith(val, "<=") then (Le, val[2..])
    else if StartsWith(val, ">") then (Gt, val[1..])
    else if StartsWith(val, "<") then (Lt, val[1..])
    else (Colon, val)
  }

  function TermOf(f: string): Term {
    var idx := IndexOf(f, ':');
    if idx == |f| then Term("", NoOp, Lower(f))
    else
      var (op, text) := OpOf(f[idx + 1..]);
      Term(Lower(f[..idx]), op, text)
  }

  method ParseTerm(f: string) returns (t: Term)
    ensures t == TermOf(f)
  {
    var idx := IndexOf(f, ':');
    if idx == |f| {
      return Term("", NoOp, Lower(f));
    }
    var val := f[idx + 1..];
    var op := Colon;
    for i := 0 to |CANDIDATES|
      invariant op == Colon && val == f[idx + 1..] && NoneBefore(val, i)
    {
      if StartsWith(val, CANDIDATES[i].0) {
        FirstIsOp(val, i);
        return Term(Lower(f[..idx]), CANDIDATES[i].1, val[|CANDIDATES[i].0|..]);
      }
    }
    NoneIsColon(val);
    return Term(Lower(f[..idx]), op, val);
  }

  predicate NoneBefore(val: string, i: nat)
    requires i <= |CANDIDATES|
  {
    forall j :: 0 <= j < i ==> !StartsWith(val, CANDIDATES[j].0)
  }

  lemma FirstIsOp(val: string, i: nat)
    requires i < |CANDIDATES| && NoneBefore(val, i) && StartsWith(val, CANDIDATES[i].0)
    ensures OpOf(val) == (CANDIDATES[i].1, val[|CANDIDATES[i].0|..])
  {
    assert i > 0 ==> !StartsWith(val, CANDIDATES[0].0);
    assert i > 1 ==> !StartsWith(val, CANDIDATES[1].0);
    assert i > 2 ==> !StartsWith(val, CANDIDATES[2].0);
  }

  lemma NoneIsColon(val: string)
    requires NoneBefore(val, |CANDIDATES|)
    ensures OpOf(val) == (Colon, val)
  {
    assert !StartsWith(val, CANDIDATES[0].0) && !StartsWith(val, CANDIDATES[1].0);
    assert !StartsWith(val, CANDIDATES[2].0) && !StartsWith(val, CANDIDATES[3].0);
  }

  function Terms(fields: seq<string>): (r: seq<Term>)
    ensures |r| == |fields| && forall i :: 0 <= i < |fields| ==> r[i] == TermOf(fields[i])
  {
    seq(|fields|, i requires 0 <= i < |fields| => TermOf(fields[i]))
  }

  method Parse(query: string) returns (terms: seq<Term>)
    ensures terms == Terms(Fields(query))
  {
    var fields := Fields(query);
    terms := [];
    for i := 0 to |fields|
      invariant terms == Terms(fields[..i])
    {
      var t := ParseTerm(fields[i]);
      terms := terms + [t];
    }
    assert fields[..|fields|] == fields;
  }

  // ---- the browser: split on runs of spaces, drop the empty pieces ----

  /** What is left after the first piece and the spaces behind it. */
  function Rest(s: string): (r: string)
    ensures Span(s, false) < |s| ==> |r| < |s|
  {
    var tail := s[Span(s, false)..];
    tail[Span(tail, true)..]
  }

  function Split(s: string): seq<string>
    decreases |s|
  {
    var n := Span(s, false);
    if n == |s| then [s] else [s[..n]] + Split(Rest(s))
  }

  function NonEmpty(pieces: seq<string>): seq<string> {
    if pieces == [] then []
    else if pieces[0] == "" then NonEmpty(pieces[1..])
    else [pieces[0]] + NonEmpty(pieces[1..])
  }

  /** indexOf: -1 when there is none. */
  function JsIndexOf(s: string, c: char): (i: int)
    ensures -1 <= i < |s|
  {
    if s == "" then -1
    else if s[0] == c then 0
    else
      var i := JsIndexOf(s[1..], c);
      if i < 0 then -1 else i + 1
  }

  const DURATION_OPS: seq<(string, Op)> := [(">=", Ge), ("<=", Le), (">", Gt), ("<", Lt)]

  /** The first of ops that val starts with, and what follows it. */
  function PickOp(val: string, ops: seq<(string, Op)>): (Op, string) {
    if ops == [] then (Colon, val)
    else if StartsWith(val, ops[0].0) then (ops[0].1, val[|ops[0].0|..])
    else PickOp(val, ops[1..])
  }

  function BrowserTermOf(raw: string): Term {
    var idx := JsIndexOf(raw, ':');
    if idx < 0 then Term("", NoOp, Lower(raw))
    else
      var (op, text) := PickOp(raw[idx + 1..], DURATION_OPS);
      Term(Lower(raw[..idx]), op, text)
  }

  /** parseTerm of filter.ts. */
  method BrowserParseTerm(raw: string) returns (t: Term)
    ensures t == BrowserTermOf(raw)
  {
    JsIndexOfIs(raw, ':');
    var idx := JsIndexOf(raw, ':');
    if idx < 0 {
      return Term("", NoOp, Lower(raw));
    }
    var key := Lower(raw[..idx]);
    var val := raw[idx + 1..];
    var op := Colon;
    for i := 0 to |DURATION_OPS|
      invariant op == Colon && val == raw[idx + 1..]
      invariant PickOp(val, DURATION_OPS) == PickOp(val, DURATION_OPS[i..])
    {
      assert DURATION_OPS[i..][1..] == DURATION_OPS[i + 1..];
      if StartsWith(val, DURATION_OPS[i].0) {
        op := DURATION_OPS[i].1;
        val := val[|DURATION_OPS[i].0|..];
        break;
      }
    }
    return Term(key, op, val);
  }

  function BrowserTerms(words: seq<string>): (r: seq<Term>)
    ensures |r| == |words| && forall i :: 0 <= i < |words| ==> r[i] == BrowserTermOf(words[i])
  {
    seq(|words|, i requires 0 <= i < |words| => BrowserTermOf(words[i]))
  }

  function ParseFilter(query: string): seq<Term> {
    BrowserTerms(NonEmpty(Split(query)))
  }

  lemma {:induction false} JsIndexOfIs(s: string, c: char)
    ensures JsIndexOf(s, c) == if IndexOf(s, c) == |s| then -1 else IndexOf(s, c)
  {
    if s != "" && s[0] != c {
      JsIndexOfIs(s[1..], c);
    }
  }

  lemma PickOpIs(val: string)
    ensures PickOp(val, DURATION_OPS) == OpOf(val)
  {
    var ge, le, gt, lt := (">=", Ge), ("<=", Le), (">", Gt), ("<", Lt);
    assert [ge, le, gt, lt][1..] == [le, gt, lt] && [le, gt, lt][1..] == [gt, lt] && [gt, lt][1..] == [lt] &&
      [lt][1..] == [];
    assert PickOp(val, [lt]) == if StartsWith(val, "<") then (Lt, val[1..]) else (Colon, val);
    assert PickOp(val, [gt, lt]) == if StartsWith(val, ">") then (Gt, val[1..]) else PickOp(val, [lt]);
    assert PickOp(val, [le, gt, lt]) == if StartsWith(val, "<=") then (Le, val[2..]) else PickOp(val, [gt, lt]);
  }

  /** The browser reads every query as the server does. */
  lemma SameTerms(query: string)
    ensures ParseFilter(query) == Terms(Fields(query))
  {
    SameWords(query);
    var words := Fields(query);
    forall i | 0 <= i < |words| ensures BrowserTermOf(words[i]) == TermOf(words[i]) {
      SameTerm(words[i]);
    }
  }

  lemma SameTerm(word: string)
    ensures BrowserTermOf(word) == TermOf(word)
  {
    JsIndexOfIs(word, ':');
    if IndexOf(word, ':') < |word| {
      PickOpIs(word[IndexOf(word, ':') + 1..]);
    }
  }

  lemma {:induction false} FieldsSkip(s: string)
    ensures Fields(s) == Fields(s[Span(s, true)..])
    decreases |s|
  {
    if s != "" && IsSpace(s[0]) {
      FieldsSkip(s[1..]);
      assert s[1..][Span(s[1..], true)..] == s[Span(s, true)..];
    } else {
      assert s[0..] == s;
    }
  }

  lemma FieldsFirst(s: string)
    requires Span(s, false) < |s|
    ensures Fields(s) == (if Span(s, false) == 0 then [] else [s[..Span(s, false)]]) + Fields(Rest(s))
  {
    var n := Span(s, false);
    FieldsSkip(s[n..]);
    if n == 0 {
      assert s[0..] == s;
    }
  }

  lemma FieldsOfOne(s: string)
    requires Span(s, false) == |s|
    ensures Fields(s) == if s == "" then [] else [s]
  {
    if s != "" {
      assert s[..|s|] == s && s[|s|..] == "";
    }
  }

  lemma NonEmptyFirst(p: string, pieces: seq<string>)
    ensures NonEmpty([p] + pieces) == (if p == "" then [] else [p]) + NonEmpty(pieces)
  {
    assert ([p] + pieces)[1..] == pieces;
  }

  /** Go's and the browser's ways of cutting a query give the same words. */
  lemma {:induction false} SameWords(s: string)
    ensures NonEmpty(Split(s)) == Fields(s)
    decreases |s|
  {
    if Span(s, false) == |s| {
      FieldsOfOne(s);
      NonEmptyFirst(s, []);
    } else {
      FieldsFirst(s);
      SameWords(Rest(s));
      NonEmptyFirst(s[..Span(s, false)], Split(Rest(s)));
    }
  }

  // ---- matching on the server ----

  predicate Compare(op: Op, got: real, want: real) {
    match op
    case Gt => got > want
    case Ge => got >= want
    case Lt => got < want
    case Le => got <= want
    case _ => got == want
  }

  predicate EqualFold(a: string, b: string) {
    Lower(a) == Lower(b)
  }

  function Display(texts: Texts, v: Value): string {
    match v
    case Str(s) => s
    case Bool(b) => if b then "true" else "false"
    case Double(d) => texts.formatFloat(d)
    case Int(i) => texts.formatInt(i)
    case _ => ""
  }

  ghost predicate FreeTextHit(t: Trace, text: string) {
    Contains(Lower(RootServiceName(t.spans)), text) ||
      exists i :: 0 <= i < |t.spans| && Contains(Lower(t.spans[i].name), text)
  }

  predicate AttributeHit(texts: Texts, t: Trace, key: string, text: string) {
    exists i ::
      0 <= i < |t.spans| && key in t.spans[i].attributes && EqualFold(Display(texts, t.spans[i].attributes[key]), text)
  }

  predicate DurationHit(texts: Texts, t: Trace, op: Op, text: string) {
    var want := texts.goDuration(text);
    want.Some? && Compare(op, TraceDuration(t.spans) as real, want.value as real)
  }

  ghost predicate ServerMatches(texts: Texts, t: Trace, term: Term) {
    if term.key == "" then FreeTextHit(t, term.text)
    else if term.key == "status" then AnyError(t.spans) == EqualFold(term.text, "error")
    else if term.key == "duration" then DurationHit(texts, t, term.op, term.text)
    else if term.key == "service.name" || term.key == "service" then
      Contains(Lower(RootServiceName(t.spans)), Lower(term.text))
    else AttributeHit(texts, t, term.key, term.text)
  }

  method MatchFreeText(t: Trace, text: string) returns (r: bool)
    ensures r == FreeTextHit(t, text)
  {
    var name := ServiceName(t.spans);
    if Contains(Lower(name), text) {
      return true;
    }
    for i := 0 to |t.spans|
      invariant forall j :: 0 <= j < i ==> !Contains(Lower(t.spans[j].name), text)
    {
      if Contains(Lower(t.spans[i].name), text) {
        return true;
      }
    }
    return false;
  }

  method MatchAttribute(texts: Texts, t: Trace, key: string, text: string) returns (r: bool)
    ensures r == AttributeHit(texts, t, key, text)
  {
    for i := 0 to |t.spans|
      invariant forall j :: 0 <= j < i && key in t.spans[j].attributes ==>
        !EqualFold(Display(texts, t.spans[j].attributes[key]), text)
    {
      if key !in t.spans[i].attributes {
        continue;
      }
      var v := t.spans[i].attributes[key];
      if v.Str? && EqualFold(v.s, text) {
        return true;
      }
      if EqualFold(Display(texts, v), text) {
        return true;
      }
    }
    return false;
  }

  method MatchTerm(texts: Texts, t: Trace, term: Term) returns (r: bool)
    ensures r == ServerMatches(texts, t, term)
  {
    if term.key == "" {
      r := MatchFreeText(t, term.text);
    } else if term.key == "status" {
      var want := EqualFold(term.text, "error");
      var hasError := HasError(t.spans);
      r := hasError == want;
    } else if term.key == "duration" {
      var got := Duration(t.spans);
      var want := texts.goDuration(term.text);
      r := want.Some? && Compare(term.op, got as real, want.value as real);
    } else if term.key == "service.name" || term.key == "service" {
      var name := ServiceName(t.spans);
      r := Contains(Lower(name), Lower(term.text));
    } else {
      r := MatchAttribute(texts, t, term.key, term.text);
    }
  }

  /** Match: every term has to match. */
  method Match(texts: Texts, t: Trace, terms: seq<Term>) returns (r: bool)
    ensures r <==> forall i :: 0 <= i < |terms| ==> ServerMatches(texts, t, terms[i])
  {
    for i := 0 to |terms|
      invariant forall j :: 0 <= j < i ==> ServerMatches(texts, t, terms[j])
    {
      var ok := MatchTerm(texts, t, terms[i]);
      if !ok {
        return false;
      }
    }
    return true;
  }

  // ---- matching in the browser ----

  predicate BrowserMatches(texts: Texts, s: TraceSummary, term: Term) {
    if term.key == "" then Contains(Lower(s.serviceName), term.text) || Contains(Lower(s.rootSpanName), term.text)
    else if term.key == "status" then s.hasError == (Lower(term.text) == "error")
    else if term.key == "duration" then
      var want := texts.jsDuration(term.text);
      want.Some? && Compare(term.op, s.durationMs as real, want.value)
    else if term.key == "service.name" || term.key == "service" then Contains(Lower(s.serviceName), Lower(term.text))
    else true
  }

  // ---- the sandwich ----

  /** Terms that only look at what the summary carries in full. */
  predicate IsSummaryTerm(term: Term) {
    term.key == "status" || term.key == "service.name" || term.key == "service"
  }

  lemma LowerError()
    ensures Lower("error") == "error"
  {
  }

  lemma {:induction false} RootNameIsASpans(spans: seq<FlatSpan>)
    ensures Root(spans).Some? ==> exists i :: 0 <= i < |spans| && spans[i] == Root(spans).value
  {
    if spans != [] {
      assert spans[RootWitness(spans)] == Root(spans).value;
    }
  }

  lemma NoSpansNoText(t: Trace, text: string)
    requires t.spans == []
    ensures Contains(Lower(Summary(t).rootSpanName), text) ==> FreeTextHit(t, text)
  {
  }

  lemma TermSandwich(texts: Texts, t: Trace, term: Term)
    ensures IsSummaryTerm(term) ==> (ServerMatches(texts, t, term) <==> BrowserMatches(texts, Summary(t), term))
    ensures term.key == "" ==> (BrowserMatches(texts, Summary(t), term) ==> ServerMatches(texts, t, term))
    ensures term.key != "" && term.key != "duration" ==>
      (ServerMatches(texts, t, term) ==> BrowserMatches(texts, Summary(t), term))
  {
    LowerError();
    RootNameIsASpans(t.spans);
    if t.spans == [] {
      NoSpansNoText(t, term.text);
    }
  }

  ghost predicate ServerShows(texts: Texts, t: Trace, query: string) {
    forall i :: 0 <= i < |Terms(Fields(query))| ==> ServerMatches(texts, t, Terms(Fields(query))[i])
  }

  predicate BrowserShows(texts: Texts, s: TraceSummary, query: string) {
    forall i :: 0 <= i < |ParseFilter(query)| ==> BrowserMatches(texts, s, ParseFilter(query)[i])
  }

  predicate TermsAre(query: string, p: Term -> bool) {
    forall i :: 0 <= i < |Terms(Fields(query))| ==> p(Terms(Fields(query))[i])
  }

  /**
   * For every query and trace: on status, service and free text a row the browser shows is one the
   * server lists; on status, service and attributes a trace the server lists is one the browser
   * shows; on status and service alone the two agree.
   */
  lemma FilterSandwich(texts: Texts, t: Trace, query: string)
    ensures TermsAre(query, (m: Term) => IsSummaryTerm(m) || m.key == "") ==>
      (BrowserShows(texts, Summary(t), query) ==> ServerShows(texts, t, query))
    ensures TermsAre(query, (m: Term) => m.key != "" && m.key != "duration") ==>
      (ServerShows(texts, t, query) ==> BrowserShows(texts, Summary(t), query))
    ensures TermsAre(query, (m: Term) => IsSummaryTerm(m)) ==>
      (ServerShows(texts, t, query) <==> BrowserShows(texts, Summary(t), query))
  {
    SameTerms(query);
    var terms := Terms(Fields(query));
    forall i | 0 <= i < |terms|
      ensures IsSummaryTerm(terms[i]) ==>
        (ServerMatches(texts, t, terms[i]) <==> BrowserMatches(texts, Summary(t), terms[i]))
      ensures terms[i].key == "" ==> (BrowserMatches(texts, Summary(t), terms[i]) ==> ServerMatches(texts, t, terms[i]))
      ensures terms[i].key != "" && terms[i].key != "duration" ==>
        (ServerMatches(texts, t, terms[i]) ==> BrowserMatches(texts, Summary(t), terms[i]))
    {
      TermSandwich(texts, t, terms[i]);
    }
  }
}
