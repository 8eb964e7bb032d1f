/** Character escaping for N-Triples output: the serialiser's two substitution
    tables and the single-pass, per-character replacement (PHP's `strtr` with
    one-character keys) that applies them. */
module Escaping {
  import opened Wrappers

  /** The IRI escape table, entry for entry: every character that the IRIREF
      production (rule [8], section 7 of W3C RDF 1.1 N-Triples) forbids between
      the angle brackets, mapped to its `\uXXXX` escape. */
  function IriEscapeTable(c: char): Option<string> {
    match c
    case '<' => Some("\\u003C")
    case '>' => Some("\\u003E")
    case '"' => Some("\\u0022")
    case '{' => Some("\\u007B")
    case '}' => Some("\\u007D")
    case '|' => Some("\\u007C")
    case '^' => Some("\\u005E")
    case '`' => Some("\\u0060")
    case '\\' => Some("\\u005C")
    case '\U{0000}' => Some("\\u0000")
    case '\U{0001}' => Some("\\u0001")
    case '\U{0002}' => Some("\\u0002")
    case '\U{0003}' => Some("\\u0003")
    case '\U{0004}' => Some("\\u0004")
    case '\U{0005}' => Some("\\u0005")
    case '\U{0006}' => Some("\\u0006")
    case '\U{0007}' => Some("\\u0007")
    case '\U{0008}' => Some("\\u0008")
    case '\U{0009}' => Some("\\u0009")
    case '\U{000A}' => Some("\\u000A")
    case '\U{000B}' => Some("\\u000B")
    case '\U{000C}' => Some("\\u000C")
    case '\U{000D}' => Some("\\u000D")
    case '\U{000E}' => Some("\\u000E")
    case '\U{000F}' => Some("\\u000F")
    case '\U{0010}' => Some("\\u0010")
    case '\U{0011}' => Some("\\u0011")
    case '\U{0012}' => Some("\\u0012")
    case '\U{0013}' => Some("\\u0013")
    case '\U{0014}' => Some("\\u0014")
    case '\U{0015}' => Some("\\u0015")
    case '\U{0016}' => Some("\\u0016")
    case '\U{0017}' => Some("\\u0017")
    case '\U{0018}' => Some("\\u0018")
    case '\U{0019}' => Some("\\u0019")
    case '\U{001A}' => Some("\\u001A")
    case '\U{001B}' => Some("\\u001B")
    case '\U{001C}' => Some("\\u001C")
    case '\U{001D}' => Some("\\u001D")
    case '\U{001E}' => Some("\\u001E")
    case '\U{001F}' => Some("\\u001F")
    case '\U{0020}' => Some("\\u0020")
    case _ => None
  }

  /** The literal escape table: the four characters that the STRING_LITERAL_QUOTE
      production (rule [9]) forbids raw, mapped to their two-character escapes. */
  function LiteralEscapeTable(c: char): Option<string> {
    match c
    case '\n' => Some("\\n")
    case '\r' => Some("\\r")
    case '"' => Some("\\\"")
    case '\\' => Some("\\\\")
    case _ => None
  }

  /** The replacement of one character: its table entry, or the character itself. */
  function Subst(c: char, table: char -> Option<string>): string {
    match table(c)
    case Some(t) => t
    case None => [c]
  }

  /** `strtr($str, $table)` for a table whose keys are single characters: one
      left-to-right pass that replaces each character by its entry. The text of
      a replacement is never looked at again. */
  function Strtr(s: string, table: char -> Option<string>): string {
    if s == [] then [] else Subst(s[0], table) + Strtr(s[1..], table)
  }

  function EscapeIri(s: string): string {
    Strtr(s, IriEscapeTable)
  }

  function EscapeLiteral(s: string): string {
    Strtr(s, LiteralEscapeTable)
  }

  // ---------------------------------------------------------------------------
  // What the tables should contain, stated as rules

  /** A character that may not appear raw between the brackets of an IRIREF. */
  predicate IriForbidden(c: char) {
    c as int <= 0x20 || c in "<>\"{}|^`\\"
  }

  /** A character that may not appear raw in a STRING_LITERAL_QUOTE. */
  predicate LiteralSpecial(c: char) {
    c == '\n' || c == '\r' || c == '"' || c == '\\'
  }

  predicate IsUpperHex(c: char) {
    '0' <= c <= '9' || 'A' <= c <= 'F'
  }

  /** The upper-case hexadecimal digit (HEX, rule [162s]) of value `d`. */
  function HexDigit(d: nat): (c: char)
    requires d < 16
    ensures IsUpperHex(c)
  {
    if d < 10 then ('0' as int + d) as char else ('A' as int + d - 10) as char
  }

  /** Four upper-case hexadecimal digits of `n`, most significant first. */
  function Hex4(n: nat): (r: string)
    requires n < 0x10000
    ensures |r| == 4 && forall i :: 0 <= i < 4 ==> IsUpperHex(r[i])
  {
    [HexDigit(n / 0x1000), HexDigit(n / 0x100 % 16), HexDigit(n / 0x10 % 16), HexDigit(n % 16)]
  }

  /** The UCHAR escape `\uXXXX` (rule [10]) of a character of the Basic
      Multilingual Plane. */
  function UChar(c: char): (r: string)
    requires c as int < 0x10000
    ensures |r| == 6 && r[0] == '\\' && r[1] == 'u'
    ensures forall i :: 2 <= i < 6 ==> IsUpperHex(r[i])
  {
    "\\u" + Hex4(c as int)
  }

  /** The letter of the ECHAR escape (rule [153s]) of a literal special character. */
  function EcharLetter(c: char): char
    requires LiteralSpecial(c)
  {
    if c == '\n' then 'n' else if c == '\r' then 'r' else c
  }

  /** The number of characters of `s` that `p` selects. */
  function CountWhere(s: string, p: char -> bool): nat {
    if s == [] then 0 else (if p(s[0]) then 1 else 0) + CountWhere(s[1..], p)
  }

  // ---------------------------------------------------------------------------
  // The tables against the rules

  /** The IRI table has an entry exactly for the forbidden characters. */
  lemma IriTableDomain(c: char)
    ensures IriEscapeTable(c).Some? <==> IriForbidden(c)
  {
  }

  /** `v` spelled out character by character as the escape `\uXXXX` of `n`. */
  predicate SpellsUChar(v: string, n: nat)
    requires n < 0x10000
  {
    |v| == 6 && v[0] == '\\' && v[1] == 'u' && v[2] == HexDigit(n / 0x1000)
    && v[3] == HexDigit(n / 0x100 % 16) && v[4] == HexDigit(n / 0x10 % 16) && v[5] == HexDigit(n % 16)
  }

  lemma IriTableEntriesFrom00(c: char)
    requires IriEscapeTable(c).Some? && c as int < 0x08
    ensures SpellsUChar(IriEscapeTable(c).value, c as int)
  {
  }

  lemma IriTableEntriesFrom08(c: char)
    requires IriEscapeTable(c).Some? && 0x08 <= c as int < 0x10
    ensures SpellsUChar(IriEscapeTable(c).value, c as int)
  {
  }

  lemma IriTableEntriesFrom10(c: char)
    requires IriEscapeTable(c).Some? && 0x10 <= c as int < 0x18
    ensures SpellsUChar(IriEscapeTable(c).value, c as int)
  {
  }

  lemma IriTableEntriesFrom18(c: char)
    requires IriEscapeTable(c).Some? && 0x18 <= c as int < 0x20
    ensures SpellsUChar(IriEscapeTable(c).value, c as int)
  {
  }

  lemma IriTableEntriesFrom20(c: char)
    requires IriEscapeTable(c).Some? && 0x20 <= c as int
    ensures c as int < 0x80 && SpellsUChar(IriEscapeTable(c).value, c as int)
  {
  }

  /** Every entry of the IRI table is `\u` followed by the code point of its key
      in four upper-case, zero-padded hexadecimal digits. */
  lemma IriTableIsUChar(c: char)
    requires IriEscapeTable(c).Some?
    ensures c as int < 0x80 && IriEscapeTable(c).value == UChar(c)
  {
    var n := c as int;
    if n < 0x08 {
      IriTableEntriesFrom00(c);
    } else if n < 0x10 {
      IriTableEntriesFrom08(c);
    } else if n < 0x18 {
      IriTableEntriesFrom10(c);
    } else if n < 0x20 {
      IriTableEntriesFrom18(c);
    } else {
      IriTableEntriesFrom20(c);
    }
    assert IriEscapeTable(c).value == UChar(c);
  }

  /** The literal table escapes exactly the four special characters, each as a
      backslash followed by its ECHAR letter. */
  lemma LiteralTableIsEchar(c: char)
    ensures LiteralEscapeTable(c).Some? <==> LiteralSpecial(c)
    ensures LiteralSpecial(c) ==> LiteralEscapeTable(c).value == ['\\', EcharLetter(c)]
  {
  }

  // ---------------------------------------------------------------------------
  // strtr is a single pass: escaping is a homomorphism of concatenation

  /** Escaping `a + b` is escaping `a`, then `b`: no replacement text, and no
      character of `a`, takes part in the escaping of `b`. */
  lemma {:induction false} StrtrConcat(a: string, b: string, table: char -> Option<string>)
    ensures Strtr(a + b, table) == Strtr(a, table) + Strtr(b, table)
  {
    if a == [] {
      assert a + b == b;
    } else {
      assert (a + b)[0] == a[0] && (a + b)[1..] == a[1..] + b;
      StrtrConcat(a[1..], b, table);
    }
  }

  /** The escape of one character: `\uXXXX` for a forbidden one, the character
      itself otherwise. */
  lemma EscapeIriChar(c: char)
    ensures IriForbidden(c) ==> c as int < 0x80 && EscapeIri([c]) == UChar(c)
    ensures !IriForbidden(c) ==> EscapeIri([c]) == [c]
  {
    IriTableDomain(c);
    if IriForbidden(c) {
      IriTableIsUChar(c);
    }
    assert [c][1..] == [];
    assert EscapeIri([c]) == Subst(c, IriEscapeTable) + Strtr([], IriEscapeTable);
  }

  /** With every entry of `table` one character plus `w` longer than its key and
      an entry exactly for the characters `p` selects, each such character
      makes the output `w` characters longer. */
  lemma {:induction false} StrtrLength(s: string, table: char -> Option<string>, p: char -> bool, w: nat)
    requires forall c :: table(c).Some? <==> p(c)
    requires forall c :: table(c).Some? ==> |table(c).value| == w + 1
    ensures |Strtr(s, table)| == |s| + w * CountWhere(s, p)
  {
    if s != [] {
      StrtrLength(s[1..], table, p, w);
    }
  }

  /** Each escaped character adds five characters to the output. */
  lemma EscapeIriLength(s: string)
    ensures |EscapeIri(s)| == |s| + 5 * CountWhere(s, IriForbidden)
  {
    forall c
      ensures IriEscapeTable(c).Some? <==> IriForbidden(c)
      ensures IriEscapeTable(c).Some? ==> |IriEscapeTable(c).value| == 6
    {
      IriTableDomain(c);
      if IriEscapeTable(c).Some? {
        IriTableIsUChar(c);
      }
    }
    StrtrLength(s, IriEscapeTable, IriForbidden, 5);
  }

  /** The output shape the IRIREF production allows: no raw control character,
      space or `<>"{}|^``, and every backslash the start of a `\u` and four
      upper-case hexadecimal digits. */
  predicate IriClean(r: string) {
    && (forall i :: 0 <= i < |r| ==> r[i] as int > 0x20 && r[i] !in "<>\"{}|^`")
    && (forall i :: 0 <= i < |r| && r[i] == '\\' ==>
          i + 6 <= |r| && r[i + 1] == 'u' && IsUpperHex(r[i + 2]) && IsUpperHex(r[i + 3])
          && IsUpperHex(r[i + 4]) && IsUpperHex(r[i + 5]))
  }

  lemma IriCleanConcat(a: string, b: string)
    requires IriClean(a) && IriClean(b)
    ensures IriClean(a + b)
  {
    var r := a + b;
    forall i | 0 <= i < |r| && r[i] == '\\'
      ensures i + 6 <= |r| && r[i + 1] == 'u' && IsUpperHex(r[i + 2]) && IsUpperHex(r[i + 3])
              && IsUpperHex(r[i + 4]) && IsUpperHex(r[i + 5])
    {
      if i < |a| {
        assert a[i] == '\\';
      } else {
        assert b[i - |a|] == '\\';
      }
    }
  }

  lemma UCharClean(c: char)
    requires c as int < 0x10000
    ensures IriClean(UChar(c))
  {
    var e := UChar(c);
    assert forall i :: 1 <= i < 6 ==> e[i] != '\\' && e[i] as int > 0x20 && e[i] !in "<>\"{}|^`";
  }

  lemma SubstIriClean(c: char)
    ensures IriClean(Subst(c, IriEscapeTable))
  {
    IriTableDomain(c);
    if IriEscapeTable(c).Some? {
      IriTableIsUChar(c);
      UCharClean(c);
    }
  }

  lemma {:induction false} StrtrIriClean(s: string, table: char -> Option<string>)
    requires forall c :: IriClean(Subst(c, table))
    ensures IriClean(Strtr(s, table))
  {
    if s != [] {
      StrtrIriClean(s[1..], table);
      IriCleanConcat(Subst(s[0], table), Strtr(s[1..], table));
    }
  }

  /** `escapeIri` leaves nothing the IRIREF production forbids. */
  lemma EscapeIriClean(s: string)
    ensures IriClean(EscapeIri(s))
  {
    forall c
      ensures IriClean(Subst(c, IriEscapeTable))
    {
      SubstIriClean(c);
    }
    StrtrIriClean(s, IriEscapeTable);
  }

  /** The escape of one character: a backslash and its ECHAR letter for a
      special one, the character itself otherwise. */
  lemma EscapeLiteralChar(c: char)
    ensures LiteralSpecial(c) ==> EscapeLiteral([c]) == ['\\', EcharLetter(c)]
    ensures !LiteralSpecial(c) ==> EscapeLiteral([c]) == [c]
  {
    LiteralTableIsEchar(c);
    assert [c][1..] == [];
    assert EscapeLiteral([c]) == Subst(c, LiteralEscapeTable) + Strtr([], LiteralEscapeTable);
  }

  /** Each escaped character adds one character to the output. */
  lemma EscapeLiteralLength(s: string)
    ensures |EscapeLiteral(s)| == |s| + CountWhere(s, LiteralSpecial)
  {
    forall c
      ensures LiteralEscapeTable(c).Some? <==> LiteralSpecial(c)
      ensures LiteralEscapeTable(c).Some? ==> |LiteralEscapeTable(c).value| == 2
    {
      LiteralTableIsEchar(c);
    }
    StrtrLength(s, LiteralEscapeTable, LiteralSpecial, 1);
  }

  /** No raw line feed or carriage return, and a backslash before every double
      quote. The second part is only a necessary condition: it also holds of a
      raw quote after an escaped backslash. That every quote is escaped, so a
      reader stops at the closing quote, is `Reader.ScanEscapedLiteral`. */
  predicate LiteralClean(r: string) {
    && (forall i :: 0 <= i < |r| ==> r[i] != '\n' && r[i] != '\r')
    && (forall i :: 0 <= i < |r| && r[i] == '"' ==> 0 < i && r[i - 1] == '\\')
  }

  lemma LiteralCleanConcat(a: string, b: string)
    requires LiteralClean(a) && LiteralClean(b)
    ensures LiteralClean(a + b)
  {
    var r := a + b;
    forall i | 0 <= i < |r| && r[i] == '"'
      ensures 0 < i && r[i - 1] == '\\'
    {
      if i < |a| {
        assert a[i] == '"';
      } else {
        assert b[i - |a|] == '"';
      }
    }
  }

  lemma {:induction false} StrtrLiteralClean(s: string, table: char -> Option<string>)
    requires forall c :: LiteralClean(Subst(c, table))
    ensures LiteralClean(Strtr(s, table))
  {
    if s != [] {
      StrtrLiteralClean(s[1..], table);
      LiteralCleanConcat(Subst(s[0], table), Strtr(s[1..], table));
    }
  }

  /** `escapeLiteral` leaves no raw line break and no unescaped double quote. */
  lemma EscapeLiteralClean(s: string)
    ensures LiteralClean(EscapeLiteral(s))
  {
    forall c
      ensures LiteralClean(Subst(c, LiteralEscapeTable))
    {
      LiteralTableIsEchar(c);
    }
    StrtrLiteralClean(s, LiteralEscapeTable);
  }

  // ---------------------------------------------------------------------------
  // Counting

  lemma {:induction false} CountWhereConcat(a: string, b: string, p: char -> bool)
    ensures CountWhere(a + b, p) == CountWhere(a, p) + CountWhere(b, p)
  {
    if a == [] {
      assert a + b == b;
    } else {
      assert (a + b)[0] == a[0] && (a + b)[1..] == a[1..] + b;
      CountWhereConcat(a[1..], b, p);
    }
  }

  lemma {:induction false} CountWhereNone(s: string, p: char -> bool)
    requires forall i :: 0 <= i < |s| ==> !p(s[i])
    ensures CountWhere(s, p) == 0
  {
    if s != [] {
      CountWhereNone(s[1..], p);
    }
  }
}
