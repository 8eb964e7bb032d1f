/** A reader for the N-Triples that the serialiser writes (rules [2] to [10]
    and [153s] of W3C RDF 1.1 N-Triples). It is independent of the serialiser.
    It says what each written term and line means, and the lemmas at the end
    prove that the serialiser loses no information: reading its output back
    gives the graph's triples. */
module Reader {
  import opened Wrappers
  import opened Escaping
  import opened Ntriples

  /** An RDF term as a reader sees it. */
  datatype Term =
    | Iri(iri: string)
    | BlankNode(name: string)
    | Literal(lexical: string, lang: Option<string>, datatypeIri: Option<string>)

  /** One line read back: subject, predicate IRI and object. */
  datatype Statement = Statement(subject: Term, property: string, objectTerm: Term)

  // ---------------------------------------------------------------------------
  // Escapes

  /** The value of a hexadecimal digit (HEX, rule [162s]), either case. */
  function HexValue(c: char): (r: Option<nat>)
    ensures r.Some? ==> r.value < 16
  {
    if '0' <= c <= '9' then Some(c as int - '0' as int)
    else if 'A' <= c <= 'F' then Some(c as int - 'A' as int + 10)
    else if 'a' <= c <= 'f' then Some(c as int - 'a' as int + 10)
    else None
  }

  /** The number that the hexadecimal digits `s` spell, most significant first. */
  function HexNumber(s: string): Option<nat> {
    if s == [] then Some(0)
    else
      var high :- HexNumber(s[..|s| - 1]);
      var low :- HexValue(s[|s| - 1]);
      Some(high * 16 + low)
  }

  predicate IsScalarValue(n: nat) {
    n < 0xD800 || 0xE000 <= n < 0x11_0000
  }

  /** The UCHAR (rule [10]) at the start of `s`: the character it stands for
      and how many characters of `s` it takes. */
  function UCharAt(s: string): (r: Option<(char, nat)>)
    ensures r.Some? ==> 6 <= r.value.1 <= |s|
  {
    if |s| >= 6 && s[0] == '\\' && s[1] == 'u' then
      var n :- HexNumber(s[2..6]);
      if IsScalarValue(n) then Some((n as char, 6)) else None
    else if |s| >= 10 && s[0] == '\\' && s[1] == 'U' then
      var n :- HexNumber(s[2..10]);
      if IsScalarValue(n) then Some((n as char, 10)) else None
    else
      None
  }

  /** The text between the brackets of an IRIREF (rule [8]) with its escapes
      decoded; None if it holds a forbidden raw character or a bad escape. */
  function UnescapeIri(s: string): Option<string>
    decreases |s|
  {
    if s == [] then Some([])
    else if s[0] == '\\' then
      var u :- UCharAt(s);
      var rest :- UnescapeIri(s[u.1..]);
      Some([u.0] + rest)
    else if IriForbidden(s[0]) then None
    else
      var rest :- UnescapeIri(s[1..]);
      Some([s[0]] + rest)
  }

  /** The character an ECHAR (rule [153s]) letter stands for. */
  function EcharValue(c: char): Option<char> {
    match c
    case 't' => Some('\t')
    case 'b' => Some('\U{0008}')
    case 'n' => Some('\n')
    case 'r' => Some('\r')
    case 'f' => Some('\U{000C}')
    case '"' => Some('"')
    case '\'' => Some('\'')
    case '\\' => Some('\\')
    case _ => None
  }

  /** The body of a STRING_LITERAL_QUOTE (rule [9]) after its opening quote,
      read up to the closing quote: the decoded lexical form and the text after
      the closing quote. */
  function ScanLiteral(s: string): Option<(string, string)>
    decreases |s|
  {
    if s == [] then None
    else if s[0] == '"' then Some(([], s[1..]))
    else if s[0] == '\\' then
      if |s| >= 2 && EcharValue(s[1]).Some? then
        var r :- ScanLiteral(s[2..]);
        Some(([EcharValue(s[1]).value] + r.0, r.1))
      else
        var u :- UCharAt(s);
        var r :- ScanLiteral(s[u.1..]);
        Some(([u.0] + r.0, r.1))
    else if s[0] == '\n' || s[0] == '\r' then None
    else
      var r :- ScanLiteral(s[1..]);
      Some(([s[0]] + r.0, r.1))
  }

  // ---------------------------------------------------------------------------
  // Terms, lines, documents

  /** A subject or object resource: a `_:` blank node, or an IRI between angle
      brackets. The blank-node label is unescaped like an IRI, because the
      serialiser escapes it like one. */
  function ParseResource(t: string): Option<Term> {
    if |t| >= 2 && t[..2] == "_:" then
      var name :- UnescapeIri(t);
      Some(BlankNode(name))
    else if |t| >= 2 && t[0] == '<' && t[|t| - 1] == '>' then
      var iri :- UnescapeIri(t[1..|t| - 1]);
      Some(Iri(iri))
    else
      None
  }

  /** An object: a literal, with a language tag, a datatype or neither, or a
      resource. The language tag is the rest of the term, taken verbatim, as
      the serialiser writes it. */
  function ParseObject(t: string): Option<Term> {
    if |t| >= 1 && t[0] == '"' then
      var r :- ScanLiteral(t[1..]);
      var lexical, suffix := r.0, r.1;
      if suffix == [] then Some(Literal(lexical, None, None))
      else if suffix[0] == '@' then Some(Literal(lexical, Some(suffix[1..]), None))
      else if |suffix| >= 4 && suffix[..3] == "^^<" && suffix[|suffix| - 1] == '>' then
        var datatypeIri :- UnescapeIri(suffix[3..|suffix| - 1]);
        Some(Literal(lexical, None, Some(datatypeIri)))
      else
        None
    else
      ParseResource(t)
  }

  /** `s` cut at the first `c`: what comes before it and what comes after it. */
  function SplitAt(s: string, c: char): (r: Option<(string, string)>)
    ensures r.Some? ==> s == r.value.0 + [c] + r.value.1 && c !in r.value.0
  {
    if s == [] then None
    else if s[0] == c then Some(([], s[1..]))
    else
      var r :- SplitAt(s[1..], c);
      Some(([s[0]] + r.0, r.1))
  }

  /** One line: subject, a space, the predicate between angle brackets, a
      space, the object, and " .\n". */
  function ParseLine(line: string): Option<Statement> {
    if |line| >= 3 && line[|line| - 3..] == " .\n" then
      var parts :- SplitAt(line[..|line| - 3], ' ');
      var subject :- ParseResource(parts.0);
      var predicateObject :- ParsePredicateObject(parts.1);
      Some(Statement(subject, predicateObject.0, predicateObject.1))
    else
      None
  }

  /** What follows the subject's space: `<predicate> object`. */
  function ParsePredicateObject(rest: string): Option<(string, Term)> {
    if |rest| >= 1 && rest[0] == '<' then
      var propertyParts :- SplitAt(rest[1..], '>');
      var property :- UnescapeIri(propertyParts.0);
      var tail := propertyParts.1;
      if |tail| >= 1 && tail[0] == ' ' then
        var objectTerm :- ParseObject(tail[1..]);
        Some((property, objectTerm))
      else
        None
    else
      None
  }

  /** A document: lines, each ended by a line feed. */
  function ParseDocument(doc: string): Option<seq<Statement>>
    decreases |doc|
  {
    if doc == [] then Some([])
    else
      var parts :- SplitAt(doc, '\n');
      var statement :- ParseLine(parts.0 + "\n");
      var rest :- ParseDocument(parts.1);
      Some([statement] + rest)
  }

  // ---------------------------------------------------------------------------
  // What the graph's entries mean

  /** A resource name means a blank node when it starts with `_:`, whatever the
      value's `type` says, and an IRI otherwise. */
  function ResourceTerm(res: string): Term {
    if IsBNodeLabel(res) then BlankNode(res) else Iri(res)
  }

  /** A literal keeps its language tag if it has one and its datatype only if
      it has no language tag: the serialiser never writes both. */
  function ValueTerm(v: Value): Term
    requires SupportedKind(v.kind)
  {
    if v.kind == "literal" then Literal(v.value, v.lang, if v.lang.Some? then None else v.datatypeIri)
    else ResourceTerm(v.value)
  }

  function Meaning(t: Triple): Statement
    requires SupportedKind(t.value.kind)
  {
    Statement(ResourceTerm(t.subject), t.property, ValueTerm(t.value))
  }

  function Meanings(ts: seq<Triple>): seq<Statement>
    requires forall i :: 0 <= i < |ts| ==> SupportedKind(ts[i].value.kind)
  {
    if ts == [] then [] else [Meaning(ts[0])] + Meanings(ts[1..])
  }

  // ---------------------------------------------------------------------------
  // Escapes are undone

  lemma HexDigitValue(d: nat)
    requires d < 16
    ensures HexValue(HexDigit(d)) == Some(d)
  {
  }

  /** One more digit at the end multiplies the number by sixteen and adds it. */
  lemma HexNumberSnoc(s: string, high: nat, d: nat)
    requires HexNumber(s) == Some(high) && d < 16
    ensures HexNumber(s + [HexDigit(d)]) == Some(high * 16 + d)
  {
    var t := s + [HexDigit(d)];
    assert t[..|t| - 1] == s;
    HexDigitValue(d);
  }

  /** Splitting off the last hexadecimal digit of a number. */
  lemma DivSixteen(n: nat, q: nat)
    requires q == n / 16
    ensures n / 0x100 == q / 16 && n / 0x1000 == q / 0x100
    ensures n == q * 16 + n % 16
  {
  }

  /** The four digits of `Hex4` read back to the number they were made from. */
  lemma HexNumberHex4(n: nat)
    requires n < 0x10000
    ensures HexNumber(Hex4(n)) == Some(n)
  {
    var q1 := n / 0x10;
    var q2 := q1 / 0x10;
    var q3 := q2 / 0x10;
    DivSixteen(n, q1);
    DivSixteen(q1, q2);
    DivSixteen(q2, q3);
    assert q3 == n / 0x1000 && q2 == n / 0x100;
    var a, b, c, d := HexDigit(q3), HexDigit(q2 % 16), HexDigit(q1 % 16), HexDigit(n % 16);
    HexNumberSnoc([], 0, q3);
    assert [] + [a] == [a];
    HexNumberSnoc([a], q3, q2 % 16);
    assert [a] + [b] == [a, b];
    HexNumberSnoc([a, b], q2, q1 % 16);
    assert [a, b] + [c] == [a, b, c];
    HexNumberSnoc([a, b, c], q1, n % 16);
    assert [a, b, c] + [d] == Hex4(n);
  }

  /** The `\uXXXX` of a character reads back to the character. */
  lemma UCharAtUChar(c: char, rest: string)
    requires c as int < 0x80
    ensures UCharAt(UChar(c) + rest) == Some((c, 6))
  {
    var e := UChar(c) + rest;
    assert e[2..6] == Hex4(c as int);
    HexNumberHex4(c as int);
  }

  /** Unescaping undoes `escapeIri`, so no two names escape alike. */
  lemma {:induction false} UnescapeEscapeIri(s: string)
    ensures UnescapeIri(EscapeIri(s)) == Some(s)
  {
    if s != [] {
      var c := s[0];
      assert s == [c] + s[1..];
      StrtrConcat([c], s[1..], IriEscapeTable);
      var rest := EscapeIri(s[1..]);
      assert EscapeIri(s) == EscapeIri([c]) + rest;
      EscapeIriChar(c);
      UnescapeEscapeIri(s[1..]);
      var e := EscapeIri(s);
      if IriForbidden(c) {
        UCharAtUChar(c, rest);
        assert e[6..] == rest;
      } else {
        assert e[0] == c && e[1..] == rest;
      }
    }
  }

  /** An ECHAR written for a special character reads back to it. */
  lemma ScanEcharStep(c: char, tail: string, s: string, after: string)
    requires LiteralSpecial(c)
    requires ScanLiteral(tail) == Some((s, after))
    ensures ScanLiteral(['\\', EcharLetter(c)] + tail) == Some(([c] + s, after))
  {
    var w := ['\\', EcharLetter(c)] + tail;
    assert EcharValue(EcharLetter(c)) == Some(c);
    assert w[0] == '\\' && w[1] == EcharLetter(c) && w[2..] == tail;
  }

  /** A character written as itself reads back to itself. */
  lemma ScanPlainStep(c: char, tail: string, s: string, after: string)
    requires !LiteralSpecial(c)
    requires ScanLiteral(tail) == Some((s, after))
    ensures ScanLiteral([c] + tail) == Some(([c] + s, after))
  {
    var w := [c] + tail;
    assert w[0] == c && w[1..] == tail;
  }

  /** Reading a literal body back undoes `escapeLiteral` and stops exactly at
      the closing quote. */
  lemma {:induction false} ScanEscapedLiteral(s: string, after: string)
    ensures ScanLiteral(EscapeLiteral(s) + "\"" + after) == Some((s, after))
  {
    if s == [] {
      assert EscapeLiteral(s) + "\"" + after == ['"'] + after;
    } else {
      var c := s[0];
      assert s == [c] + s[1..];
      StrtrConcat([c], s[1..], LiteralEscapeTable);
      EscapeLiteralChar(c);
      ScanEscapedLiteral(s[1..], after);
      var tail := EscapeLiteral(s[1..]) + "\"" + after;
      assert EscapeLiteral(s) + "\"" + after == EscapeLiteral([c]) + tail;
      if LiteralSpecial(c) {
        ScanEcharStep(c, tail, s[1..], after);
      } else {
        ScanPlainStep(c, tail, s[1..], after);
      }
    }
  }

  // ---------------------------------------------------------------------------
  // Terms, lines and documents read back

  /** `escapeIri` keeps the blank-node prefix: neither `_` nor `:` is escaped. */
  lemma EscapeIriKeepsBNodePrefix(res: string)
    requires IsBNodeLabel(res)
    ensures IsBNodeLabel(EscapeIri(res))
  {
    assert res == ['_'] + ([':'] + res[2..]);
    StrtrConcat(['_'], [':'] + res[2..], IriEscapeTable);
    StrtrConcat([':'], res[2..], IriEscapeTable);
    EscapeIriChar('_');
    EscapeIriChar(':');
  }

  lemma ParseBracketed(e: string, name: string)
    requires UnescapeIri(e) == Some(name)
    ensures ParseResource("<" + e + ">") == Some(Iri(name))
  {
    var t := "<" + e + ">";
    assert t[0] == '<' && t[|t| - 1] == '>';
    assert t[1..|t| - 1] == e;
  }

  /** A written resource reads back as a blank node exactly when its name
      starts with `_:`, and as an IRI otherwise, with its name intact. */
  lemma ResourceRoundTrip(res: string)
    ensures ParseResource(SerialiseResource(res)) == Some(ResourceTerm(res))
  {
    UnescapeEscapeIri(res);
    var e := EscapeIri(res);
    if IsBNodeLabel(res) {
      EscapeIriKeepsBNodePrefix(res);
      assert SerialiseResource(res) == e;
    } else {
      ParseBracketed(e, res);
      assert SerialiseResource(res) == "<" + e + ">";
    }
  }

  /** The quoted text `"x"` followed by `suffix`, where `x` scans back to
      `lexical` and stops at the closing quote. */
  lemma ParseQuotedScan(x: string, suffix: string, lexical: string)
    requires ScanLiteral(x + "\"" + suffix) == Some((lexical, suffix))
    ensures ScanLiteral(("\"" + x + "\"" + suffix)[1..]) == Some((lexical, suffix))
    ensures |"\"" + x + "\"" + suffix| >= 1 && ("\"" + x + "\"" + suffix)[0] == '"'
  {
    assert ("\"" + x + "\"" + suffix)[1..] == x + "\"" + suffix;
  }

  lemma ParseQuotedPlain(x: string, lexical: string)
    requires ScanLiteral(x + "\"" + "") == Some((lexical, ""))
    ensures ParseObject("\"" + x + "\"" + "") == Some(Literal(lexical, None, None))
  {
    ParseQuotedScan(x, "", lexical);
  }

  lemma ParseQuotedLang(x: string, lang: string, lexical: string)
    requires ScanLiteral(x + "\"" + ("@" + lang)) == Some((lexical, "@" + lang))
    ensures ParseObject("\"" + x + "\"" + ("@" + lang)) == Some(Literal(lexical, Some(lang), None))
  {
    ParseQuotedScan(x, "@" + lang, lexical);
    assert ("@" + lang)[0] == '@' && ("@" + lang)[1..] == lang;
  }

  lemma ParseQuotedTyped(x: string, e: string, lexical: string, datatypeIri: string)
    requires ScanLiteral(x + "\"" + ("^^<" + e + ">")) == Some((lexical, "^^<" + e + ">"))
    requires UnescapeIri(e) == Some(datatypeIri)
    ensures ParseObject("\"" + x + "\"" + ("^^<" + e + ">")) == Some(Literal(lexical, None, Some(datatypeIri)))
  {
    var suffix := "^^<" + e + ">";
    ParseQuotedScan(x, suffix, lexical);
    assert suffix[0] == '^' && suffix[..3] == "^^<" && suffix[|suffix| - 1] == '>';
    assert suffix[3..|suffix| - 1] == e;
  }

  lemma LangLiteralRoundTrip(v: Value)
    requires v.kind == "literal" && v.lang.Some?
    ensures SerialiseValue(v).Ok? && ParseObject(SerialiseValue(v).value) == Some(ValueTerm(v))
  {
    var x := EscapeLiteral(v.value);
    ScanEscapedLiteral(v.value, "@" + v.lang.value);
    ParseQuotedLang(x, v.lang.value, v.value);
    assert SerialiseValue(v).value == "\"" + x + "\"" + ("@" + v.lang.value);
  }

  lemma TypedLiteralRoundTrip(v: Value)
    requires v.kind == "literal" && v.lang.None? && v.datatypeIri.Some?
    ensures SerialiseValue(v).Ok? && ParseObject(SerialiseValue(v).value) == Some(ValueTerm(v))
  {
    var x := EscapeLiteral(v.value);
    var e := EscapeIri(v.datatypeIri.value);
    ScanEscapedLiteral(v.value, "^^<" + e + ">");
    UnescapeEscapeIri(v.datatypeIri.value);
    ParseQuotedTyped(x, e, v.value, v.datatypeIri.value);
    assert SerialiseValue(v).value == "\"" + x + "\"" + ("^^<" + e + ">");
  }

  lemma PlainLiteralRoundTrip(v: Value)
    requires v.kind == "literal" && v.lang.None? && v.datatypeIri.None?
    ensures SerialiseValue(v).Ok? && ParseObject(SerialiseValue(v).value) == Some(ValueTerm(v))
  {
    var x := EscapeLiteral(v.value);
    ScanEscapedLiteral(v.value, "");
    ParseQuotedPlain(x, v.value);
    assert SerialiseValue(v).value == "\"" + x + "\"" + "";
  }

  lemma ResourceValueRoundTrip(v: Value)
    requires v.kind == "uri" || v.kind == "bnode"
    ensures SerialiseValue(v).Ok? && ParseObject(SerialiseValue(v).value) == Some(ValueTerm(v))
  {
    ResourceRoundTrip(v.value);
    ResourceNotQuoted(v.value);
    assert SerialiseValue(v).value == SerialiseResource(v.value);
  }

  /** A written value reads back as the term it stands for: the lexical form,
      the language tag or else the datatype, and the resource name survive. */
  lemma ValueRoundTrip(v: Value)
    requires SupportedKind(v.kind)
    ensures SerialiseValue(v).Ok? && ParseObject(SerialiseValue(v).value) == Some(ValueTerm(v))
  {
    if v.kind != "literal" {
      ResourceValueRoundTrip(v);
    } else if v.lang.Some? {
      LangLiteralRoundTrip(v);
    } else if v.datatypeIri.Some? {
      TypedLiteralRoundTrip(v);
    } else {
      PlainLiteralRoundTrip(v);
    }
  }

  /** A written resource never starts with a double quote. */
  lemma ResourceNotQuoted(res: string)
    ensures |SerialiseResource(res)| >= 1 && SerialiseResource(res)[0] != '"'
  {
    if IsBNodeLabel(res) {
      EscapeIriKeepsBNodePrefix(res);
      assert SerialiseResource(res)[0] == '_';
    } else {
      assert SerialiseResource(res)[0] == '<';
    }
  }

  lemma {:induction false} SplitAtFirst(a: string, c: char, b: string)
    requires c !in a
    ensures SplitAt(a + [c] + b, c) == Some((a, b))
  {
    if a == [] {
      assert a + [c] + b == [c] + b;
    } else {
      assert a[0] != c;
      assert (a + [c] + b)[0] == a[0];
      assert (a + [c] + b)[1..] == a[1..] + [c] + b;
      SplitAtFirst(a[1..], c, b);
      assert a == [a[0]] + a[1..];
    }
  }

  lemma ParseLaidOutPredicateObject(property: string, objectText: string, p: string, o: Term)
    requires '>' !in property && UnescapeIri(property) == Some(p)
    requires ParseObject(objectText) == Some(o)
    ensures ParsePredicateObject(['<'] + (property + ['>'] + ([' '] + objectText))) == Some((p, o))
  {
    var tail := [' '] + objectText;
    var inner := property + ['>'] + tail;
    var rest := ['<'] + inner;
    assert rest[1..] == inner;
    SplitAtFirst(property, '>', tail);
    assert tail[1..] == objectText;
  }

  /** A line laid out as the serialiser lays it out reads back to its three
      parts, provided the subject has no space and the predicate no `>`. */
  lemma ParseLaidOutLine(subject: string, property: string, objectText: string,
                         s: Term, p: string, o: Term)
    requires ' ' !in subject && ParseResource(subject) == Some(s)
    requires '>' !in property && UnescapeIri(property) == Some(p)
    requires ParseObject(objectText) == Some(o)
    ensures ParseLine(subject + " " + "<" + property + "> " + objectText + " .\n") == Some(Statement(s, p, o))
  {
    var line := subject + " " + "<" + property + "> " + objectText + " .\n";
    var rest := "<" + property + "> " + objectText;
    var body := subject + [' '] + rest;
    assert line == body + " .\n";
    assert line[..|line| - 3] == body && line[|line| - 3..] == " .\n";
    SplitAtFirst(subject, ' ', rest);
    assert rest == ['<'] + (property + ['>'] + ([' '] + objectText));
    ParseLaidOutPredicateObject(property, objectText, p, o);
  }

  /** A written line reads back as the triple it was written for. */
  lemma LineRoundTrip(t: Triple)
    requires SupportedKind(t.value.kind)
    ensures TripleLine(t).Ok? && ParseLine(TripleLine(t).value) == Some(Meaning(t))
  {
    ValueRoundTrip(t.value);
    ResourceRoundTrip(t.subject);
    EscapeIriClean(t.property);
    UnescapeEscapeIri(t.property);
    var property := EscapeIri(t.property);
    assert '>' !in property;
    ParseLaidOutLine(SerialiseResource(t.subject), property, SerialiseValue(t.value).value,
                     ResourceTerm(t.subject), t.property, ValueTerm(t.value));
  }

  /** A triple's line ends with its only line feed. */
  lemma LineEndsOnce(t: Triple)
    requires SupportedKind(t.value.kind)
    requires t.value.lang.Some? ==> '\n' !in t.value.lang.value
    ensures TripleLine(t).Ok?
    ensures var line := TripleLine(t).value;
      |line| >= 1 && line[|line| - 1] == '\n' && '\n' !in line[..|line| - 1]
  {
    EscapeIriClean(t.property);
    var body := SerialiseResource(t.subject) + " " + "<" + EscapeIri(t.property) + "> " + SerialiseValue(t.value).value;
    assert '\n' !in body + " .";
    var line := TripleLine(t).value;
    assert line == (body + " .") + "\n";
    assert line[..|line| - 1] == body + " .";
  }

  /** A line ended by its only line feed, followed by a document. */
  lemma ParseJoined(line: string, rest: string, statement: Statement, statements: seq<Statement>)
    requires |line| >= 1 && line[|line| - 1] == '\n' && '\n' !in line[..|line| - 1]
    requires ParseLine(line) == Some(statement) && ParseDocument(rest) == Some(statements)
    ensures ParseDocument(line + rest) == Some([statement] + statements)
  {
    var body := line[..|line| - 1];
    assert line == body + "\n";
    assert line + rest == body + ['\n'] + rest;
    SplitAtFirst(body, '\n', rest);
  }

  /** A written document reads back, line by line, as the triples it was
      written for, in order; a language tag with a line feed in it is the one
      thing that could break a line in two. */
  lemma {:induction false} LinesRoundTrip(ts: seq<Triple>)
    requires forall i :: 0 <= i < |ts| ==> SupportedKind(ts[i].value.kind)
    requires forall i :: 0 <= i < |ts| && ts[i].value.lang.Some? ==> '\n' !in ts[i].value.lang.value
    ensures JoinLines(ts, TripleLine).Ok?
    ensures ParseDocument(JoinLines(ts, TripleLine).value) == Some(Meanings(ts))
  {
    if ts != [] {
      var t := ts[0];
      assert forall i :: 0 <= i < |ts| - 1 ==> ts[1..][i] == ts[i + 1];
      LinesRoundTrip(ts[1..]);
      LineRoundTrip(t);
      LineEndsOnce(t);
      var line := TripleLine(t).value;
      var rest := JoinLines(ts[1..], TripleLine).value;
      ParseJoined(line, rest, Meaning(t), Meanings(ts[1..]));
      assert JoinLines(ts, TripleLine).value == line + rest;
    }
  }

  /** Serialising a graph and reading the result back gives the graph's
      triples in walk order, each with its subject, property and value. */
  lemma SerialiseRoundTrip(g: Graph)
    requires forall i :: 0 <= i < |Triples(g)| ==> SupportedKind(Triples(g)[i].value.kind)
    requires forall i :: 0 <= i < |Triples(g)| && Triples(g)[i].value.lang.Some?
               ==> '\n' !in Triples(g)[i].value.lang.value
    ensures SerialiseSpec(g, "ntriples").Ok?
    ensures ParseDocument(SerialiseSpec(g, "ntriples").value) == Some(Meanings(Triples(g)))
  {
    LinesRoundTrip(Triples(g));
  }
}

