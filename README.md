# EasyRdf N-Triples serialiser, modelled in Dafny

This project models EasyRdf's N-Triples serialiser, the class
`EasyRdf\Serialiser\Ntriples`. The serialiser is built in three parts:

- two `strtr` escape tables:
  - one escapes the characters that the IRIREF production of W3C RDF 1.1
    N-Triples (rule [8]) forbids, each as a `\uXXXX` UCHAR;
  - the other escapes line feed, carriage return, double quote and backslash
    in a STRING_LITERAL_QUOTE (rule [9]);
- a writer for one resource and one value (`uri`, `bnode`, `literal` with a
  language tag, a datatype or neither), which throws for any other `type`;
- `serialise`, which walks the graph's subjects, then properties, then values
  in three nested loops and appends one line per triple. It throws for any
  format other than `ntriples`.

The project has four modules:

- `Wrappers` holds `Option` and `Result`. The serialiser's exceptions become
  `Err` values.
- `Escaping` holds the two tables as functions from a character to its
  replacement, with `strtr` as a single pass over the characters. Its lemmas
  prove three things:
  - each table entry is what the grammar requires;
  - escaping is a per-character map, with exact output lengths;
  - the output is clean: nothing the grammar forbids is left.
- `Ntriples` holds the value writer as functions and `serialise` as a method
  with the source's three nested loops. The method is proved equal to a
  specification function, `SerialiseSpec`, which joins the lines of the
  graph's triples in walk order. The lemmas cover:
  - when serialisation succeeds, and which error it returns;
  - the empty graph;
  - concatenated graphs;
  - one line per triple.
- `Reader` is an independent N-Triples reader for the output's shape. Its
  lemmas prove that reading back the output of a graph whose values all have
  a supported type, and whose language tags hold no line feed, gives
  `Meanings(Triples(g))`: the graph's triples in walk order, with every
  subject, predicate, lexical form, language tag and resource name intact,
  and with the datatype of every literal without a language tag. So both
  escapes lose nothing. Three things cannot be recovered from the output, and
  different inputs that differ only in them are written alike:
  - the `uri` or `bnode` kind of a value, because the `_:` prefix of its text
    decides how it is written;
  - a datatype set next to a language tag, which is not written;
  - the grouping of triples into subjects and properties, because a subject
    or property listed twice is written like one listed once.

## Model

| member | source | states |
|---|---|---|
| Escaping.IriEscapeTable | lib/Serialiser/Ntriples.php:61-104 | the IRI escape table, entry for entry; what each entry is, is stated by `IriTableDomain` and `IriTableIsUChar` |
| Escaping.LiteralEscapeTable | lib/Serialiser/Ntriples.php:111-116 | the literal escape table, entry for entry; its contents are stated by `LiteralTableIsEchar` |
| Escaping.Strtr | lib/Serialiser/Ntriples.php:118-126 | `strtr` with single-character keys: one pass, each character replaced by its entry or kept; `StrtrConcat` states that it is a per-character map |
| Escaping.EscapeIri | lib/Serialiser/Ntriples.php:123-126 | `escapeIri`: `strtr` with the IRI table; stated by `EscapeIriChar`, `EscapeIriLength`, `EscapeIriClean` and `Reader.UnescapeEscapeIri` |
| Escaping.EscapeLiteral | lib/Serialiser/Ntriples.php:118-121 | `escapeLiteral`: `strtr` with the literal table; stated by `EscapeLiteralChar`, `EscapeLiteralLength`, `EscapeLiteralClean` and `Reader.ScanEscapedLiteral` |
| Escaping.IriTableDomain | lib/Serialiser/Ntriples.php:61-104 | the IRI table has an entry exactly for the characters 0x00-0x20 and for `<`, `>`, `"`, `{`, `}`, the vertical bar, `^`, the backtick and the backslash |
| Escaping.IriTableIsUChar | lib/Serialiser/Ntriples.php:61-104 | every entry of the IRI table is `\u` followed by the key's code point as four upper-case, zero-padded hexadecimal digits; every key is ASCII |
| Escaping.LiteralTableIsEchar | lib/Serialiser/Ntriples.php:111-116 | the literal table has an entry exactly for LF, CR, `"` and `\`, and each entry is a backslash followed by `n`, `r`, `"` or `\` |
| Escaping.StrtrConcat | lib/Serialiser/Ntriples.php:118-126 | `strtr` with single-character keys escapes `a + b` as the escape of `a` followed by the escape of `b`, so replacement text is never escaped again |
| Escaping.EscapeIriChar | lib/Serialiser/Ntriples.php:123-126 | `escapeIri` writes a forbidden character as its `\uXXXX` and passes every other character through unchanged |
| Escaping.EscapeIriLength | lib/Serialiser/Ntriples.php:123-126 | the length of `escapeIri(s)` is the length of `s` plus 5 for each forbidden character |
| Escaping.EscapeIriClean | lib/Serialiser/Ntriples.php:61-104 | the output of `escapeIri` holds no character up to 0x20 and none of `<`, `>`, `"`, `{`, `}`, the vertical bar, `^` and the backtick, and every backslash in it starts `\u` followed by four upper-case hexadecimal digits |
| Escaping.EscapeLiteralChar | lib/Serialiser/Ntriples.php:111-121 | `escapeLiteral` maps LF to `\n`, CR to `\r`, `"` to `\"` and `\` to `\\`, and leaves every other character, other control characters included, unchanged |
| Escaping.EscapeLiteralLength | lib/Serialiser/Ntriples.php:118-121 | the length of `escapeLiteral(s)` is the length of `s` plus 1 for each of the four special characters |
| Escaping.EscapeLiteralClean | lib/Serialiser/Ntriples.php:111-121 | the output of `escapeLiteral` holds no raw LF or CR, and a backslash comes before every `"` in it (a necessary condition only; that every quote is escaped is `Reader.ScanEscapedLiteral`) |
| Ntriples.SerialiseResource | lib/Serialiser/Ntriples.php:131-139 | a written resource holds no space and no line feed, so it cannot run into the next field or the next line |
| Ntriples.SerialiseValue | lib/Serialiser/Ntriples.php:153-177 | writing a value fails exactly when its `type` is not `uri`, `bnode` or `literal`, with the error naming that type; without a line feed in the language tag, the written value holds no line feed |
| Ntriples.Message | lib/Serialiser/Ntriples.php:173-175 | the text of the two exceptions (the format one is thrown at lines 206-208): `EasyRdf\Serialiser\Ntriples does not support: ` and the format, or `Unable to serialise object of type '`, the type and `' to ntriples: `; what it promises is stated by `MessageIdentifiesError` |
| Ntriples.MessageIdentifiesError | lib/Serialiser/Ntriples.php:173-175 | two exceptions with the same message are the same exception: the message tells an unsupported format from an unsupported value type and gives back the format or type it names |
| Ntriples.TripleLine | lib/Serialiser/Ntriples.php:198-200 | the line of one triple: resource, space, `<` escaped property `> `, value, ` .` and a line feed, or the value's error; read back by `Reader.LineRoundTrip` |
| Ntriples.SerialiseSpec | lib/Serialiser/Ntriples.php:193-209 | what `serialise` returns: the format error, or the lines of the graph's triples in walk order, or the first value's error; stated by `SerialiseOkIff`, `SerialiseFirstError`, `SerialiseNoValues`, `SerialiseGraphConcat`, `SerialiseLineCount` and `Reader.SerialiseRoundTrip` |
| Ntriples.Serialise | lib/Serialiser/Ntriples.php:189-210 | the three nested loops return what `SerialiseSpec` says: the error for a format other than `ntriples`; otherwise the lines of all triples in subject, property, value order, or the first value's error |
| Ntriples.OneLine | lib/Serialiser/Ntriples.php:198-200 | the three appends of the inner loop add exactly the triple's line: resource, space, `<` escaped property `> `, value, ` .` and a line feed |
| Ntriples.SerialiseOkIff | lib/Serialiser/Ntriples.php:193-209 | serialisation succeeds if and only if the format is `ntriples` and every value of the graph has a supported type |
| Ntriples.SerialiseFirstError | lib/Serialiser/Ntriples.php:172-176 | when serialisation fails on values, the error names the type of the first unsupported value in walk order |
| Ntriples.FailureAbortsWalk | lib/Serialiser/Ntriples.php:195-203 | a value that fails part-way through the walk makes the whole walk fail with that value's error, whatever follows it |
| Ntriples.SerialiseNoValues | lib/Serialiser/Ntriples.php:194-204 | a graph without values, the empty graph among them, serialises to the empty string |
| Ntriples.SerialiseGraphConcat | lib/Serialiser/Ntriples.php:195-203 | serialising two graphs one after the other gives the first output followed by the second, or the second graph's error |
| Ntriples.TriplesConcat | lib/Serialiser/Ntriples.php:195-197 | the triples of two graphs one after the other are the first graph's triples followed by the second's |
| Ntriples.TripleLineBreaks | lib/Serialiser/Ntriples.php:198-200 | without a line feed in its language tag, a triple's line holds exactly one line feed |
| Ntriples.SerialiseLineCount | lib/Serialiser/Ntriples.php:193-204 | without a line feed in any language tag, the output holds exactly one line feed per triple |
| Reader.UnescapeEscapeIri | lib/Serialiser/Ntriples.php:123-126 | decoding the UCHARs of `escapeIri(s)` gives back `s`, so `escapeIri` is injective |
| Reader.ScanEscapedLiteral | lib/Serialiser/Ntriples.php:118-121 | decoding the ECHARs of `escapeLiteral(s)` gives back `s` and stops exactly at the closing quote |
| Reader.EscapeIriKeepsBNodePrefix | lib/Serialiser/Ntriples.php:133-135 | escaping keeps the blank-node prefix `_:` at the start of a name |
| Reader.ResourceRoundTrip | lib/Serialiser/Ntriples.php:131-139 | a written resource reads back as a blank node with its name when the name starts with `_:`, and as an IRI with its name otherwise |
| Reader.ValueRoundTrip | lib/Serialiser/Ntriples.php:159-171 | a value of supported type reads back with its lexical form, its language tag if it has one, or else its datatype, or as its resource; the datatype is dropped when a language tag is set |
| Reader.LangLiteralRoundTrip | lib/Serialiser/Ntriples.php:163-165 | a literal with a language tag reads back with its lexical form and the tag verbatim, and with no datatype |
| Reader.TypedLiteralRoundTrip | lib/Serialiser/Ntriples.php:166-168 | a literal with a datatype and no language tag reads back with its lexical form and its datatype |
| Reader.PlainLiteralRoundTrip | lib/Serialiser/Ntriples.php:169-170 | a literal with neither reads back as a plain literal with its lexical form |
| Reader.ResourceValueRoundTrip | lib/Serialiser/Ntriples.php:159-160 | a `uri` or `bnode` value reads back as the resource its name stands for |
| Reader.LineRoundTrip | lib/Serialiser/Ntriples.php:198-200 | the line written for a triple reads back as its subject, predicate and object |
| Reader.LinesRoundTrip | lib/Serialiser/Ntriples.php:195-203 | the lines of a sequence of triples read back, in order, as those triples, provided no language tag holds a line feed |
| Reader.SerialiseRoundTrip | lib/Serialiser/Ntriples.php:189-204 | reading back the serialisation of a graph whose values are all supported, with no line feed in a language tag, gives the graph's triples in walk order |

## Left out

- `parent::checkSerialiseParams($format)` (lib/Serialiser/Ntriples.php:191) belongs to the `Serialiser` base class, which is not part of this model. The model treats it as always passing.
- `$value->toRdfPhp()` on objects (line 156) and `$graph->toRdfPhp()` (line 195) belong to the graph and resource API, which is not part of this model. The model takes their results as input: a `Value` record and the ordered nested sequence `Graph`.
- The `$options` parameter of `serialise` is unused by the source and is not modelled.
- The Rapper bridge tested by test/EasyRdf/Parser/RapperTest.php is not part of this model. It runs an external program and checks its version and exit code.
- PHP strings are bytes and `strtr` works on bytes; the model works on characters. The two agree for ASCII, and no table key is at or above 0x80, so UTF-8 bytes of other characters pass through in both.
- PHP compares `type` and `format` with loose `==`; the model compares strings exactly. The two agree for the string values involved.
- A PHP array cannot hold the same key twice. The model allows repeated subjects and properties in `Graph`; every result holds without that restriction.
- Determinism needs no lemma: `Ntriples.Serialise` is proved equal to the function `SerialiseSpec`, so equal inputs give equal outputs.
- Whether a resource is a blank node follows its text, as the source does: a `uri` whose text starts with `_:` is written bare, and a `bnode` without the prefix is written in angle brackets. `Reader.ResourceTerm` states this meaning.
- `Reader` reads only what the serialiser writes plus the standard escapes. It takes the language tag verbatim to the end of the term and does not check LANGTAG (rule [144s]), because the serialiser does not check it either.
- Reader.LinesRoundTrip: requires that no language tag holds a line feed, because the source writes the tag verbatim and such a tag breaks its line in two.
- Blank-node labels and language tags are not checked against the grammar. The source escapes a blank-node label like an IRI, so a label with a space or another forbidden character comes out with a `\uXXXX` in it, which BLANK_NODE_LABEL (rule [141s] of W3C RDF 1.1 N-Triples) does not allow; it writes a language tag verbatim, which LANGTAG (rule [144s]) may not allow. A standard reader rejects such output. `Reader` accepts both on purpose, to state what the serialiser writes rather than what the grammar admits.
