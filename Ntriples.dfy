/** The N-Triples serialiser: one RDF value to its N-Triples term, and a whole
    graph, walked subject by subject, property by property and value by value,
    to one line per triple. */
module Ntriples {
  import opened Wrappers
  import opened Escaping

  /** One value in the RDF/PHP form the graph hands out: its `type`, its
      `value`, and the optional `lang` and `datatype` entries (None where the
      entry is not set). */
  datatype Value = Value(kind: string, value: string, lang: Option<string>, datatypeIri: Option<string>)

  /** The two exceptions the serialiser throws. */
  datatype Error = UnsupportedFormat(format: string) | UnsupportedValueKind(kind: string)

  /** The message text of each exception. */
  function Message(e: Error): string {
    match e
    case UnsupportedFormat(f) => FormatMessageStart + f
    case UnsupportedValueKind(k) => KindMessageStart + k + KindMessageEnd
  }

  /** `__CLASS__` of the serialiser. */
  const ClassName := "EasyRdf\\Serialiser\\Ntriples"
  const FormatMessageStart := ClassName + " does not support: "
  const KindMessageStart := "Unable to serialise object of type '"
  const KindMessageEnd := "' to ntriples: "

  /** The graph as `toRdfPhp()` returns it: subjects in order, each with its
      properties in order, each with its values in order. */
  type Graph = seq<(string, seq<(string, seq<Value>)>)>

  /** One triple in the order the serialiser visits it. */
  datatype Triple = Triple(subject: string, property: string, value: Value)

  /** A resource name that starts with the blank-node prefix `_:`. */
  predicate IsBNodeLabel(res: string) {
    |res| >= 2 && res[..2] == "_:"
  }

  predicate SupportedKind(kind: string) {
    kind == "uri" || kind == "bnode" || kind == "literal"
  }

  /** A subject or object resource: the escaped name, bare for a blank node and
      between angle brackets otherwise. The term never holds a raw space or
      line feed, so it cannot run into the next term or the next line. */
  function SerialiseResource(res: string): (r: string)
    ensures ' ' !in r && '\n' !in r
  {
    EscapeIriClean(res);
    var escaped := EscapeIri(res);
    if IsBNodeLabel(res) then escaped else "<" + escaped + ">"
  }

  /** One value: `uri` and `bnode` as resources; `literal` as the escaped text in
      double quotes followed by `@` and the language tag if there is one, and
      otherwise by `^^<datatype>` if there is a datatype; any other kind is an
      error that names it. Only a language tag can bring a line feed into the
      term. */
  function SerialiseValue(v: Value): (r: Result<string, Error>)
    ensures r.Err? <==> !SupportedKind(v.kind)
    ensures r.Err? ==> r.error == UnsupportedValueKind(v.kind)
    ensures r.Ok? && (v.lang.Some? ==> '\n' !in v.lang.value) ==> '\n' !in r.value
  {
    if v.kind == "uri" || v.kind == "bnode" then
      Ok(SerialiseResource(v.value))
    else if v.kind == "literal" then
      EscapeLiteralClean(v.value);
      var escaped := EscapeLiteral(v.value);
      if v.lang.Some? then
        Ok("\"" + escaped + "\"" + "@" + v.lang.value)
      else if v.datatypeIri.Some? then
        EscapeIriClean(v.datatypeIri.value);
        Ok("\"" + escaped + "\"" + "^^<" + EscapeIri(v.datatypeIri.value) + ">")
      else
        Ok("\"" + escaped + "\"")
    else
      Err(UnsupportedValueKind(v.kind))
  }

  /** The line written for one triple. */
  function TripleLine(t: Triple): Result<string, Error> {
    match SerialiseValue(t.value)
    case Err(e) => Err(e)
    case Ok(term) => Ok(SerialiseResource(t.subject) + " " + "<" + EscapeIri(t.property) + "> " + term + " .\n")
  }

  // ---------------------------------------------------------------------------
  // The order of the walk

  function ValueTriples(subject: string, property: string, values: seq<Value>): seq<Triple> {
    if values == [] then []
    else [Triple(subject, property, values[0])] + ValueTriples(subject, property, values[1..])
  }

  function PropertyTriples(subject: string, properties: seq<(string, seq<Value>)>): seq<Triple> {
    if properties == [] then []
    else ValueTriples(subject, properties[0].0, properties[0].1) + PropertyTriples(subject, properties[1..])
  }

  /** Every triple of the graph: subjects in order, then properties, then values. */
  function Triples(g: Graph): seq<Triple> {
    if g == [] then [] else PropertyTriples(g[0].0, g[0].1) + Triples(g[1..])
  }

  /** The lines that `line` writes for the triples, joined in order, or the
      first error. */
  function JoinLines(ts: seq<Triple>, line: Triple -> Result<string, Error>): Result<string, Error> {
    if ts == [] then Ok("")
    else
      match line(ts[0])
      case Err(e) => Err(e)
      case Ok(first) =>
        match JoinLines(ts[1..], line)
        case Err(e) => Err(e)
        case Ok(rest) => Ok(first + rest)
  }

  /** What `serialise($graph, $format)` returns, or the exception it throws. */
  function SerialiseSpec(g: Graph, format: string): Result<string, Error> {
    if format == "ntriples" then JoinLines(Triples(g), TripleLine) else Err(UnsupportedFormat(format))
  }

  // ---------------------------------------------------------------------------
  // serialise: three nested loops that append to one string

  method Serialise(graph: Graph, format: string) returns (r: Result<string, Error>)
    ensures r == SerialiseSpec(graph, format)
  {
    if format != "ntriples" {
      return Err(UnsupportedFormat(format));
    }
    var nt := "";
    ghost var done: seq<Triple> := [];
    for i := 0 to |graph|
      invariant done == Triples(graph[..i])
      invariant JoinLines(done, TripleLine) == Ok(nt)
    {
      var (resource, properties) := graph[i];
      ghost var before := done;
      for j := 0 to |properties|
        invariant done == before + PropertyTriples(resource, properties[..j])
        invariant JoinLines(done, TripleLine) == Ok(nt)
      {
        var (property, values) := properties[j];
        ghost var started := done;
        for k := 0 to |values|
          invariant done == started + ValueTriples(resource, property, values[..k])
          invariant JoinLines(done, TripleLine) == Ok(nt)
        {
          var value := values[k];
          var term := SerialiseValue(value);
          if term.Err? {
            FailureAbortsWalk(graph, i, j, k, TripleLine);
            return Err(term.error);
          }
          ghost var t := Triple(resource, property, value);
          ghost var written := nt;
          nt := nt + SerialiseResource(resource) + " ";
          nt := nt + "<" + EscapeIri(property) + "> ";
          nt := nt + term.value + " .\n";
          OneLine(t, written, nt);
          JoinLinesSnoc(done, t, TripleLine);
          ValueTriplesSnoc(resource, property, values, k);
          Assoc(started, ValueTriples(resource, property, values[..k]), [t]);
          done := done + [t];
        }
        assert values[..|values|] == values;
        PropertyTriplesSnoc(resource, properties, j);
        Assoc(before, PropertyTriples(resource, properties[..j]), ValueTriples(resource, property, values));
      }
      assert properties[..|properties|] == properties;
      TriplesSnoc(graph, i);
    }
    assert graph[..|graph|] == graph;
    return Ok(nt);
  }

  // ---------------------------------------------------------------------------
  // Lemmas about the walk that the method needs

  lemma {:induction false} ValueTriplesConcat(s: string, p: string, a: seq<Value>, b: seq<Value>)
    ensures ValueTriples(s, p, a + b) == ValueTriples(s, p, a) + ValueTriples(s, p, b)
  {
    if a == [] {
      assert a + b == b;
    } else {
      assert (a + b)[0] == a[0] && (a + b)[1..] == a[1..] + b;
      ValueTriplesConcat(s, p, a[1..], b);
    }
  }

  lemma {:induction false} PropertyTriplesConcat(s: string, a: seq<(string, seq<Value>)>, b: seq<(string, seq<Value>)>)
    ensures PropertyTriples(s, a + b) == PropertyTriples(s, a) + PropertyTriples(s, b)
  {
    if a == [] {
      assert a + b == b;
    } else {
      assert (a + b)[0] == a[0] && (a + b)[1..] == a[1..] + b;
      PropertyTriplesConcat(s, a[1..], b);
    }
  }

  /** The triples of two graphs written one after the other. */
  lemma {:induction false} TriplesConcat(a: Graph, b: Graph)
    ensures Triples(a + b) == Triples(a) + Triples(b)
  {
    if a == [] {
      assert a + b == b;
    } else {
      assert (a + b)[0] == a[0] && (a + b)[1..] == a[1..] + b;
      TriplesConcat(a[1..], b);
    }
  }

  lemma ValueTriplesSnoc(s: string, p: string, values: seq<Value>, k: nat)
    requires k < |values|
    ensures ValueTriples(s, p, values[..k + 1]) == ValueTriples(s, p, values[..k]) + [Triple(s, p, values[k])]
  {
    assert values[..k + 1] == values[..k] + [values[k]];
    ValueTriplesConcat(s, p, values[..k], [values[k]]);
  }

  lemma PropertyTriplesSnoc(s: string, properties: seq<(string, seq<Value>)>, j: nat)
    requires j < |properties|
    ensures PropertyTriples(s, properties[..j + 1])
         == PropertyTriples(s, properties[..j]) + ValueTriples(s, properties[j].0, properties[j].1)
  {
    assert properties[..j + 1] == properties[..j] + [properties[j]];
    PropertyTriplesConcat(s, properties[..j], [properties[j]]);
  }

  lemma TriplesSnoc(g: Graph, i: nat)
    requires i < |g|
    ensures Triples(g[..i + 1]) == Triples(g[..i]) + PropertyTriples(g[i].0, g[i].1)
  {
    assert g[..i + 1] == g[..i] + [g[i]];
    TriplesConcat(g[..i], [g[i]]);
  }

  /** Once a prefix of the triples is written, the rest extends it or fails. */
  lemma {:induction false} JoinLinesAppend(a: seq<Triple>, b: seq<Triple>, line: Triple -> Result<string, Error>)
    requires JoinLines(a, line).Ok?
    ensures JoinLines(a + b, line)
         == if JoinLines(b, line).Ok? then Ok(JoinLines(a, line).value + JoinLines(b, line).value)
            else JoinLines(b, line)
  {
    if a == [] {
      assert a + b == b;
      if JoinLines(b, line).Ok? {
        assert "" + JoinLines(b, line).value == JoinLines(b, line).value;
      }
    } else {
      assert (a + b)[0] == a[0] && (a + b)[1..] == a[1..] + b;
      JoinLinesAppend(a[1..], b, line);
      var first := line(a[0]).value;
      var x := JoinLines(a[1..], line).value;
      if JoinLines(b, line).Ok? {
        var y := JoinLines(b, line).value;
        assert first + (x + y) == (first + x) + y;
      }
    }
  }

  /** The three appends of the inner loop write exactly the line of one triple. */
  lemma OneLine(t: Triple, written: string, nt: string)
    requires SerialiseValue(t.value).Ok?
    requires nt == written + SerialiseResource(t.subject) + " " + "<" + EscapeIri(t.property) + "> "
                   + SerialiseValue(t.value).value + " .\n"
    ensures TripleLine(t).Ok? && nt == written + TripleLine(t).value
  {
    AppendAssoc(written, SerialiseResource(t.subject), " ", "<", EscapeIri(t.property), "> ",
                SerialiseValue(t.value).value, " .\n");
  }

  lemma Assoc<T>(a: seq<T>, b: seq<T>, c: seq<T>)
    ensures (a + b) + c == a + (b + c)
  {
  }

  lemma AppendAssoc(w: string, a: string, b: string, c: string, d: string, e: string, f: string, g: string)
    ensures w + a + b + c + d + e + f + g == w + (a + b + c + d + e + f + g)
  {
  }

  lemma JoinLinesSnoc(a: seq<Triple>, t: Triple, line: Triple -> Result<string, Error>)
    requires JoinLines(a, line).Ok? && line(t).Ok?
    ensures JoinLines(a + [t], line) == Ok(JoinLines(a, line).value + line(t).value)
  {
    JoinLinesAppend(a, [t], line);
    assert [t][1..] == [];
    assert line(t).value + "" == line(t).value;
  }

  /** A line that fails after a prefix that succeeds makes the whole join fail
      with that line's error. */
  lemma JoinLinesFails(a: seq<Triple>, t: Triple, b: seq<Triple>, line: Triple -> Result<string, Error>)
    requires JoinLines(a, line).Ok? && line(t).Err?
    ensures JoinLines(a + ([t] + b), line) == Err(line(t).error)
  {
    JoinLinesAppend(a, [t] + b, line);
    assert ([t] + b)[0] == t;
  }

  lemma ValueTriplesSplit(s: string, p: string, vs: seq<Value>, k: nat)
    requires k < |vs|
    ensures ValueTriples(s, p, vs) == ValueTriples(s, p, vs[..k]) + ([Triple(s, p, vs[k])] + ValueTriples(s, p, vs[k + 1..]))
  {
    assert vs == vs[..k] + ([vs[k]] + vs[k + 1..]);
    ValueTriplesConcat(s, p, vs[..k], [vs[k]] + vs[k + 1..]);
    ValueTriplesConcat(s, p, [vs[k]], vs[k + 1..]);
  }

  lemma PropertyTriplesSplit(s: string, ps: seq<(string, seq<Value>)>, j: nat)
    requires j < |ps|
    ensures PropertyTriples(s, ps)
         == PropertyTriples(s, ps[..j]) + (ValueTriples(s, ps[j].0, ps[j].1) + PropertyTriples(s, ps[j + 1..]))
  {
    assert ps == ps[..j] + ([ps[j]] + ps[j + 1..]);
    PropertyTriplesConcat(s, ps[..j], [ps[j]] + ps[j + 1..]);
    PropertyTriplesConcat(s, [ps[j]], ps[j + 1..]);
  }

  lemma TriplesSingle(entry: (string, seq<(string, seq<Value>)>))
    ensures Triples([entry]) == PropertyTriples(entry.0, entry.1)
  {
    assert [entry][1..] == [];
    assert Triples([entry]) == PropertyTriples(entry.0, entry.1) + Triples([]);
  }

  lemma TriplesSplit(g: Graph, i: nat)
    requires i < |g|
    ensures Triples(g) == Triples(g[..i]) + (PropertyTriples(g[i].0, g[i].1) + Triples(g[i + 1..]))
  {
    var rest := [g[i]] + g[i + 1..];
    assert g == g[..i] + rest;
    TriplesConcat(g[..i], rest);
    TriplesConcat([g[i]], g[i + 1..]);
    TriplesSingle(g[i]);
  }

  /** A triple whose line fails at position (i, j, k) of the walk makes the
      whole join fail with that line's error. */
  lemma FailureAbortsWalk(g: Graph, i: nat, j: nat, k: nat, line: Triple -> Result<string, Error>)
    requires i < |g| && j < |g[i].1| && k < |g[i].1[j].1|
    requires JoinLines(Triples(g[..i]) + PropertyTriples(g[i].0, g[i].1[..j])
                       + ValueTriples(g[i].0, g[i].1[j].0, g[i].1[j].1[..k]), line).Ok?
    requires line(Triple(g[i].0, g[i].1[j].0, g[i].1[j].1[k])).Err?
    ensures JoinLines(Triples(g), line) == Err(line(Triple(g[i].0, g[i].1[j].0, g[i].1[j].1[k])).error)
  {
    var (s, ps) := g[i];
    var (p, vs) := ps[j];
    var t := Triple(s, p, vs[k]);
    var a, b, c := Triples(g[..i]), PropertyTriples(s, ps[..j]), ValueTriples(s, p, vs[..k]);
    var c', b', a' := ValueTriples(s, p, vs[k + 1..]), PropertyTriples(s, ps[j + 1..]), Triples(g[i + 1..]);
    TriplesSplit(g, i);
    PropertyTriplesSplit(s, ps, j);
    ValueTriplesSplit(s, p, vs, k);
    assert Triples(g) == a + ((b + ((c + ([t] + c')) + b')) + a');
    Regroup(a, b, c, [t], c', b', a');
    JoinLinesFails(a + b + c, t, c' + b' + a', line);
  }

  lemma Regroup<T>(a: seq<T>, b: seq<T>, c: seq<T>, m: seq<T>, c': seq<T>, b': seq<T>, a': seq<T>)
    ensures a + ((b + ((c + (m + c')) + b')) + a') == (a + b + c) + (m + (c' + b' + a'))
  {
  }

  // ---------------------------------------------------------------------------
  // What serialise promises

  /** The two kinds of message start differently. */
  lemma MessageStartsDiffer()
    ensures |FormatMessageStart| > 0 && |KindMessageStart| > 0
    ensures FormatMessageStart[0] != KindMessageStart[0]
  {
    assert ClassName[0] == 'E';
    assert FormatMessageStart[0] == ClassName[0];
  }

  lemma StartsDiffer(p: string, x: string, q: string, y: string)
    requires |p| > 0 && |q| > 0 && p[0] != q[0]
    ensures p + x != q + y
  {
    assert (p + x)[0] == p[0] && (q + y)[0] == q[0];
  }

  lemma SameFrame(p: string, x: string, q: string, y: string)
    requires p + x + q == p + y + q
    ensures x == y
  {
    var m := p + x + q;
    assert |x| == |y|;
    assert x == m[|p|..|p| + |x|];
  }

  lemma FormatAndKindMessagesDiffer(f: string, k: string)
    ensures Message(UnsupportedFormat(f)) != Message(UnsupportedValueKind(k))
  {
    MessageStartsDiffer();
    assert Message(UnsupportedValueKind(k)) == KindMessageStart + (k + KindMessageEnd);
    StartsDiffer(FormatMessageStart, f, KindMessageStart, k + KindMessageEnd);
  }

  lemma FormatMessageNamesFormat(f1: string, f2: string)
    requires Message(UnsupportedFormat(f1)) == Message(UnsupportedFormat(f2))
    ensures f1 == f2
  {
    assert Message(UnsupportedFormat(f1)) == FormatMessageStart + f1 + [];
    assert Message(UnsupportedFormat(f2)) == FormatMessageStart + f2 + [];
    SameFrame(FormatMessageStart, f1, [], f2);
  }

  lemma KindMessageNamesKind(k1: string, k2: string)
    requires Message(UnsupportedValueKind(k1)) == Message(UnsupportedValueKind(k2))
    ensures k1 == k2
  {
    SameFrame(KindMessageStart, k1, KindMessageEnd, k2);
  }

  /** The message text tells the exceptions apart: it gives back the kind of
      exception and the format or value type it names. */
  lemma MessageIdentifiesError(e1: Error, e2: Error)
    requires Message(e1) == Message(e2)
    ensures e1 == e2
  {
    match e1
    case UnsupportedFormat(f1) =>
      match e2 {
        case UnsupportedFormat(f2) => FormatMessageNamesFormat(f1, f2);
        case UnsupportedValueKind(k2) => FormatAndKindMessagesDiffer(f1, k2);
      }
    case UnsupportedValueKind(k1) =>
      match e2 {
        case UnsupportedFormat(f2) => FormatAndKindMessagesDiffer(f2, k1);
        case UnsupportedValueKind(k2) => KindMessageNamesKind(k1, k2);
      }
  }

  lemma {:induction false} JoinLinesOkIff(ts: seq<Triple>, line: Triple -> Result<string, Error>)
    ensures JoinLines(ts, line).Ok? <==> forall i :: 0 <= i < |ts| ==> line(ts[i]).Ok?
  {
    if ts != [] {
      JoinLinesOkIff(ts[1..], line);
      assert forall i :: 1 <= i < |ts| ==> ts[i] == ts[1..][i - 1];
    }
  }

  /** Serialisation succeeds exactly when the format is `ntriples` and every
      value of the graph is a `uri`, a `bnode` or a `literal`. */
  lemma SerialiseOkIff(g: Graph, format: string)
    ensures SerialiseSpec(g, format).Ok?
        ==> format == "ntriples" && forall i :: 0 <= i < |Triples(g)| ==> SupportedKind(Triples(g)[i].value.kind)
    ensures format == "ntriples" && (forall i :: 0 <= i < |Triples(g)| ==> SupportedKind(Triples(g)[i].value.kind))
        ==> SerialiseSpec(g, format).Ok?
  {
    var ts := Triples(g);
    JoinLinesOkIff(ts, TripleLine);
    forall i | 0 <= i < |ts|
      ensures TripleLine(ts[i]).Ok? <==> SupportedKind(ts[i].value.kind)
    {
    }
  }

  lemma {:induction false} JoinLinesFirstError(ts: seq<Triple>, line: Triple -> Result<string, Error>, i: nat)
    requires i < |ts| && line(ts[i]).Err?
    requires forall j :: 0 <= j < i ==> line(ts[j]).Ok?
    ensures JoinLines(ts, line) == Err(line(ts[i]).error)
  {
    if i == 0 {
      assert ts == [] + ([ts[0]] + ts[1..]);
      JoinLinesFails([], ts[0], ts[1..], line);
    } else {
      assert forall j :: 0 <= j < i - 1 ==> ts[1..][j] == ts[j + 1];
      JoinLinesFirstError(ts[1..], line, i - 1);
    }
  }

  /** The value that fails is the first unsupported one in walk order, and the
      error names its kind; nothing of the output is returned. */
  lemma SerialiseFirstError(g: Graph, i: nat)
    requires i < |Triples(g)| && !SupportedKind(Triples(g)[i].value.kind)
    requires forall j :: 0 <= j < i ==> SupportedKind(Triples(g)[j].value.kind)
    ensures SerialiseSpec(g, "ntriples") == Err(UnsupportedValueKind(Triples(g)[i].value.kind))
  {
    JoinLinesFirstError(Triples(g), TripleLine, i);
  }

  /** A graph without values, the empty graph among them, serialises to "". */
  lemma {:induction false} SerialiseNoValues(g: Graph)
    requires forall i, j :: 0 <= i < |g| && 0 <= j < |g[i].1| ==> g[i].1[j].1 == []
    ensures SerialiseSpec(g, "ntriples") == Ok("")
  {
    NoValuesNoTriples(g);
  }

  lemma {:induction false} NoValuesNoTriples(g: Graph)
    requires forall i, j :: 0 <= i < |g| && 0 <= j < |g[i].1| ==> g[i].1[j].1 == []
    ensures Triples(g) == []
  {
    if g != [] {
      NoPropertyValues(g[0].0, g[0].1);
      NoValuesNoTriples(g[1..]);
    }
  }

  lemma {:induction false} NoPropertyValues(s: string, ps: seq<(string, seq<Value>)>)
    requires forall j :: 0 <= j < |ps| ==> ps[j].1 == []
    ensures PropertyTriples(s, ps) == []
  {
    if ps != [] {
      NoPropertyValues(s, ps[1..]);
    }
  }

  /** Serialising two graphs one after the other gives the two outputs one
      after the other: each triple's line depends on that triple alone. */
  lemma SerialiseGraphConcat(g1: Graph, g2: Graph)
    requires SerialiseSpec(g1, "ntriples").Ok?
    ensures SerialiseSpec(g1 + g2, "ntriples")
         == if SerialiseSpec(g2, "ntriples").Ok?
            then Ok(SerialiseSpec(g1, "ntriples").value + SerialiseSpec(g2, "ntriples").value)
            else SerialiseSpec(g2, "ntriples")
  {
    TriplesConcat(g1, g2);
    JoinLinesAppend(Triples(g1), Triples(g2), TripleLine);
  }

  predicate IsLineFeed(c: char) {
    c == '\n'
  }

  /** Without a line feed in a language tag, a triple's line holds exactly one
      line feed: the one that ends it. */
  lemma TripleLineBreaks(t: Triple)
    requires SupportedKind(t.value.kind)
    requires t.value.lang.Some? ==> '\n' !in t.value.lang.value
    ensures TripleLine(t).Ok? && CountWhere(TripleLine(t).value, IsLineFeed) == 1
  {
    EscapeIriClean(t.property);
    var body := SerialiseResource(t.subject) + " " + "<" + EscapeIri(t.property) + "> " + SerialiseValue(t.value).value;
    assert '\n' !in body;
    CountWhereNone(body, IsLineFeed);
    assert TripleLine(t).value == body + " .\n";
    CountWhereConcat(body, " .\n", IsLineFeed);
  }

  lemma {:induction false} JoinLinesCount(ts: seq<Triple>, line: Triple -> Result<string, Error>, p: char -> bool)
    requires forall i :: 0 <= i < |ts| ==> line(ts[i]).Ok? && CountWhere(line(ts[i]).value, p) == 1
    ensures JoinLines(ts, line).Ok? && CountWhere(JoinLines(ts, line).value, p) == |ts|
  {
    if ts != [] {
      assert forall i :: 0 <= i < |ts| - 1 ==> ts[1..][i] == ts[i + 1];
      JoinLinesCount(ts[1..], line, p);
      assert line(ts[0]).Ok? && CountWhere(line(ts[0]).value, p) == 1;
      CountWhereConcat(line(ts[0]).value, JoinLines(ts[1..], line).value, p);
    }
  }

  /** One line per triple: unless a language tag holds a line feed, the output
      of a graph whose values are all supported has exactly as many line feeds
      as the graph has triples. */
  lemma SerialiseLineCount(g: Graph)
    requires forall i :: 0 <= i < |Triples(g)| ==> SupportedKind(Triples(g)[i].value.kind)
    requires forall i :: 0 <= i < |Triples(g)| && Triples(g)[i].value.lang.Some?
               ==> '\n' !in Triples(g)[i].value.lang.value
    ensures SerialiseSpec(g, "ntriples").Ok?
    ensures CountWhere(SerialiseSpec(g, "ntriples").value, IsLineFeed) == |Triples(g)|
  {
    var ts := Triples(g);
    forall i | 0 <= i < |ts|
      ensures TripleLine(ts[i]).Ok? && CountWhere(TripleLine(ts[i]).value, IsLineFeed) == 1
    {
      TripleLineBreaks(ts[i]);
    }
    JoinLinesCount(ts, TripleLine, IsLineFeed);
  }
}

