/** What a Live Tail query lists, written out from its text. */
module Queries {
  import opened Pdata
  import opened TraceTypes
  import opened Messages
  import opened LiveTail

  // ---- words ----

  const WHITE := " \t\n\r" + [11 as char, 12 as char]

  /** s without its white space. */
  function Squeezed(s: string): string {
    if s == "" then "" else (if s[0] in WHITE then "" else [s[0]]) + Squeezed(s[1..])
  }

  function Joined(words: seq<string>): string {
    if words == [] then "" else words[0] + Joined(words[1..])
  }

  lemma SpaceIsWhite(c: char)
    ensures IsSpace(c) <==> c in WHITE
  {
    assert WHITE == [' ', '\t', '\n', '\r', 11 as char, 12 as char];
  }

  lemma {:induction false} SqueezedWord(w: string, rest: string)
    requires forall c <- w :: c !in WHITE
    ensures Squeezed(w + rest) == w + Squeezed(rest)
  {
    if w == "" {
      assert w + rest == rest;
    } else {
      assert (w + rest)[1..] == w[1..] + rest;
      SqueezedWord(w[1..], rest);
      assert w == [w[0]] + w[1..];
    }
  }

  /** The words of a query are not empty and hold no white space, and nothing but white space is lost. */
  lemma {:induction false} WordsOf(s: string)
    ensures forall w <- Fields(s) :: w != "" && forall c <- w :: c !in WHITE
    ensures Joined(Fields(s)) == Squeezed(s)
    decreases |s|
  {
    if s != "" {
      SpaceIsWhite(s[0]);
      if IsSpace(s[0]) {
        WordsOf(s[1..]);
      } else {
        var n := LiveTail.Span(s, false);
        FirstWord(s);
        WordsOf(s[n..]);
        assert s == s[..n] + s[n..];
        SqueezedWord(s[..n], s[n..]);
        assert Fields(s)[1..] == Fields(s[n..]);
      }
    }
  }

  lemma FirstWord(s: string)
    ensures forall c <- s[..LiveTail.Span(s, false)] :: c !in WHITE
  {
    forall c | c in s[..LiveTail.Span(s, false)] ensures c !in WHITE {
      var i :| 0 <= i < LiveTail.Span(s, false) && s[i] == c;
      SpaceIsWhite(s[i]);
    }
  }

  /** A query without white space is one word. */
  lemma {:induction false} OneWord(s: string)
    requires forall c <- s :: c !in WHITE
    ensures LiveTail.Span(s, false) == |s|
  {
    if s != "" {
      SpaceIsWhite(s[0]);
      OneWord(s[1..]);
    }
  }

  // ---- terms ----

  /** A comparison is read whole: no `=` of it is left in the text. */
  lemma ComparisonsRead(x: string)
    ensures OpOf(">=" + x) == (Ge, x) && OpOf("<=" + x) == (Le, x)
    ensures x == "" || x[0] != '=' ==> OpOf(">" + x) == (Gt, x) && OpOf("<" + x) == (Lt, x)
    ensures x == "" || x[0] !in "<>" ==> OpOf(x) == (Colon, x)
  {
    assert (">=" + x)[..2] == ">=" && (">=" + x)[2..] == x;
    assert ("<=" + x)[..2] == "<=" && ("<=" + x)[2..] == x;
    assert (">" + x)[..1] == ">" && (">" + x)[1..] == x && ("<" + x)[..1] == "<" && ("<" + x)[1..] == x;
  }

  /** Keys a term has a meaning of its own for. */
  const RESERVED := ["", "status", "duration", "service.name", "service"]

  lemma {:induction false} NoColonBefore(key: string, rest: string)
    requires ':' !in key
    ensures IndexOf(key + [':'] + rest, ':') == |key|
  {
    if key != "" {
      assert (key + [':'] + rest)[1..] == key[1..] + [':'] + rest;
      NoColonBefore(key[1..], rest);
    }
  }

  /** key:text, without white space, reads as one term. */
  lemma KeyAndText(key: string, text: string)
    requires ':' !in key && Lower(key) == key && (forall c <- key + text :: c !in WHITE)
    requires text == "" || text[0] !in "<>"
    ensures Terms(Fields(key + ":" + text)) == [Term(key, Colon, text)]
  {
    var word := key + [':'] + text;
    OneWord(word);
    FieldsOfOne(word);
    NoColonBefore(key, text);
    ComparisonsRead(text);
    assert word[..|key|] == key && word[|key| + 1..] == text;
  }

  lemma OneTermShows(texts: Texts, t: Trace, query: string, term: Term)
    requires Terms(Fields(query)) == [term]
    ensures ServerShows(texts, t, query) <==> ServerMatches(texts, t, term)
  {
    assert Terms(Fields(query))[0] == term;
  }

  // ---- what is listed ----

  /**
   * Any attribute can be asked for: the query key:text lists exactly the traces with a span that shows
   * the text under the key, upper or lower case. So copying a shown text finds its trace.
   */
  lemma AttributeQuery(texts: Texts, t: Trace, key: string, text: string)
    requires ':' !in key && Lower(key) == key && (forall c <- key + text :: c !in WHITE) && key !in RESERVED
    requires text == "" || text[0] !in "<>"
    ensures ServerShows(texts, t, key + ":" + text) <==>
      exists i :: 0 <= i < |t.spans| && key in t.spans[i].attributes &&
        Lower(Display(texts, t.spans[i].attributes[key])) == Lower(text)
    ensures forall i ::
      0 <= i < |t.spans| && key in t.spans[i].attributes && t.spans[i].attributes[key] == Str(text) ==>
      ServerShows(texts, t, key + ":" + text)
  {
    KeyAndText(key, text);
    OneTermShows(texts, t, key + ":" + text, Term(key, Colon, text));
    assert key != "" && key != "status" && key != "duration" && key != "service.name" && key != "service" by {
      assert forall k <- RESERVED :: key != k;
      assert RESERVED[0] == "" && RESERVED[1] == "status" && RESERVED[2] == "duration" &&
        RESERVED[3] == "service.name" && RESERVED[4] == "service";
    }
  }

  /** status:error lists exactly the traces with an error, and status with any other word the rest. */
  lemma StatusQuery(texts: Texts, t: Trace, text: string)
    requires (forall c <- text :: c !in WHITE) && (text == "" || text[0] !in "<>")
    ensures ServerShows(texts, t, "status:" + text) <==>
      ((exists i :: 0 <= i < |t.spans| && t.spans[i].statusCode == StatusError) <==> Lower(text) == "error")
  {
    assert Lower("status") == "status" && Lower("error") == "error";
    KeyAndText("status", text);
    OneTermShows(texts, t, "status" + ":" + text, Term("status", Colon, text));
    assert "status" + ":" + text == "status:" + text;
  }

  /** A duration term compares nanoseconds; a text that is no duration lists nothing. */
  lemma DurationTerms(texts: Texts, t: Trace, text: string)
    ensures var want, got := texts.goDuration(text), TraceDuration(t.spans);
      && (ServerMatches(texts, t, Term("duration", Gt, text)) <==> want.Some? && got > want.value)
      && (ServerMatches(texts, t, Term("duration", Ge, text)) <==> want.Some? && got >= want.value)
      && (ServerMatches(texts, t, Term("duration", Lt, text)) <==> want.Some? && got < want.value)
      && (ServerMatches(texts, t, Term("duration", Le, text)) <==> want.Some? && got <= want.value)
      && (ServerMatches(texts, t, Term("duration", Colon, text)) <==> want.Some? && got == want.value)
  {
  }

  /**
   * So `>` and `<=` are complements, as are `>=` and `<`; and a longer wanted duration lists no more
   * under `>` and `>=`.
   */
  lemma DurationLaws(texts: Texts, t: Trace, text: string, longer: string)
    requires texts.goDuration(text).Some? && texts.goDuration(longer).Some?
    requires texts.goDuration(text).value <= texts.goDuration(longer).value
    ensures ServerMatches(texts, t, Term("duration", Gt, text)) <==>
      !ServerMatches(texts, t, Term("duration", Le, text))
    ensures ServerMatches(texts, t, Term("duration", Ge, text)) <==>
      !ServerMatches(texts, t, Term("duration", Lt, text))
    ensures ServerMatches(texts, t, Term("duration", Gt, longer)) ==>
      ServerMatches(texts, t, Term("duration", Gt, text))
    ensures ServerMatches(texts, t, Term("duration", Ge, longer)) ==>
      ServerMatches(texts, t, Term("duration", Ge, text))
  {
    DurationTerms(texts, t, text);
    DurationTerms(texts, t, longer);
  }

  // ---- durations in the browser ----

  /** Both parsers read the text, as the same duration. */
  predicate ReadAlike(texts: Texts, text: string) {
    && texts.goDuration(text).Some? && texts.jsDuration(text).Some?
    && texts.goDuration(text).value as real == texts.jsDuration(text).value * 1_000_000.0
  }

  lemma MillionFold(n: int, d: int)
    ensures n * 1_000_000 <= d <==> n as real * 1_000_000.0 <= d as real
  {
    assert (n * 1_000_000) as real == n as real * 1_000_000.0;
  }

  lemma TruncatedCompare(d: int, w: real)
    requires d >= 0
    ensures Milliseconds(d) as real > w ==> d as real > w * 1_000_000.0
    ensures Milliseconds(d) as real >= w ==> d as real >= w * 1_000_000.0
    ensures w == w.Floor as real ==> (Milliseconds(d) as real >= w <==> d as real >= w * 1_000_000.0)
  {
    var ms, n := Milliseconds(d), w.Floor;
    MillisecondsTruncate(d);
    MillionFold(ms, d);
    MillionFold(n, d);
    if n * 1_000_000 <= d {
      assert n <= ms;
    }
  }

  /**
   * The browser compares whole milliseconds. For a trace of non-negative duration and a text both sides
   * read alike: under `>` and `>=` it shows no row the server does not list, under `<` and `<=` every
   * row the server lists; and for whole milliseconds `>=` and `<` agree.
   */
  lemma DurationSandwich(texts: Texts, t: Trace, text: string)
    requires ReadAlike(texts, text) && TraceDuration(t.spans) >= 0
    ensures forall op :: op in {Gt, Ge} ==>
      (BrowserMatches(texts, Summary(t), Term("duration", op, text)) ==>
          ServerMatches(texts, t, Term("duration", op, text)))
    ensures forall op :: op in {Lt, Le} ==>
      (ServerMatches(texts, t, Term("duration", op, text)) ==>
          BrowserMatches(texts, Summary(t), Term("duration", op, text)))
    ensures texts.jsDuration(text).value == texts.jsDuration(text).value.Floor as real ==>
      forall op :: op in {Ge, Lt} ==>
      (ServerMatches(texts, t, Term("duration", op, text)) <==>
          BrowserMatches(texts, Summary(t), Term("duration", op, text)))
  {
    var d, w := TraceDuration(t.spans), texts.jsDuration(text).value;
    DurationTerms(texts, t, text);
    TruncatedCompare(d, w);
    assert Summary(t).durationMs == Milliseconds(d);
  }

  // ---- free text and service ----

  /** The text occurs in s, upper or lower case. */
  ghost predicate OccursIn(text: string, s: string) {
    exists before: string, after: string :: Lower(s) == before + Lower(text) + after
  }

  lemma ContainsIs(s: string, part: string)
    ensures Contains(s, part) <==> exists before: string, after: string :: s == before + part + after
  {
    if Contains(s, part) {
      var i :| 0 <= i <= |s| - |part| && PartAt(s, i, part);
      assert s == s[..i] + part + s[i + |part|..];
    }
    if before: string, after: string :| s == before + part + after {
      assert PartAt(s, |before|, part);
    }
  }

  /** A service term lists exactly the traces whose service has the text in it. */
  lemma ServiceQuery(texts: Texts, t: Trace, text: string)
    requires (forall c <- text :: c !in WHITE) && (text == "" || text[0] !in "<>")
    ensures ServerShows(texts, t, "service:" + text) <==> OccursIn(text, RootServiceName(t.spans))
  {
    assert Lower("service") == "service";
    KeyAndText("service", text);
    OneTermShows(texts, t, "service" + ":" + text, Term("service", Colon, text));
    assert "service" + ":" + text == "service:" + text;
    ContainsIs(Lower(RootServiceName(t.spans)), Lower(text));
  }

  lemma {:induction false} NoColon(s: string)
    requires ':' !in s
    ensures IndexOf(s, ':') == |s|
  {
    if s != "" {
      NoColon(s[1..]);
    }
  }

  /** A word without a colon lists exactly the traces whose service or one of whose spans has it in the name. */
  lemma TextQuery(texts: Texts, t: Trace, text: string)
    requires text != "" && ':' !in text && forall c <- text :: c !in WHITE
    ensures ServerShows(texts, t, text) <==>
      || OccursIn(text, RootServiceName(t.spans))
      || exists i :: 0 <= i < |t.spans| && OccursIn(text, t.spans[i].name)
  {
    OneWord(text);
    FieldsOfOne(text);
    NoColon(text);
    OneTermShows(texts, t, text, Term("", NoOp, Lower(text)));
    ContainsIs(Lower(RootServiceName(t.spans)), Lower(text));
    forall i | 0 <= i < |t.spans|
      ensures Contains(Lower(t.spans[i].name), Lower(text)) <==> OccursIn(text, t.spans[i].name)
    {
      ContainsIs(Lower(t.spans[i].name), Lower(text));
    }
  }

  /** Lower case, letter by letter; everything else stays. */
  lemma LowerIs(s: string, i: nat)
    requires i < |s|
    ensures 'A' <= s[i] <= 'Z' ==> Lower(s)[i] as int == s[i] as int - 'A' as int + 'a' as int
    ensures s[i] < 'A' || s[i] > 'Z' ==> Lower(s)[i] == s[i]
  {
  }
}
