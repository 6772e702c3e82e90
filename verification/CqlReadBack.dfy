/**
 What the lexer makes of a text that is given character by character: names, words of the
 grammar in any case of letters, geometries, numbers and single characters, each after any
 white space. Nothing here refers to the character classes that the lexer's loops test.
 */
module CqlReadBack {
  import opened CqlLexer

  ghost predicate Letter(c: char) { 'a' <= c <= 'z' || 'A' <= c <= 'Z' }

  ghost predicate Figure(c: char) { '0' <= c <= '9' }

  /** A letter, a digit, an underscore or a byte beyond ASCII. */
  ghost predicate NameChar(c: char) { Letter(c) || Figure(c) || c == '_' || c as int >= 128 }

  /** From i to b there are only blanks, tabs and line ends. */
  ghost predicate Gap(s: string, i: nat, b: nat) {
    i <= b <= |s| && forall k :: i <= k < b ==> s[k] == ' ' || s[k] == '\t' || s[k] == '\n' || s[k] == '\r'
  }

  /** From b to w there is a name, and it goes no further. */
  ghost predicate NameAt(s: string, b: nat, w: nat) {
    && b < w <= |s| && Letter(s[b]) && (forall k :: b < k < w ==> NameChar(s[k]))
    && (w < |s| ==> !NameChar(s[w]))
  }

  /** The word v, which is in upper case, in any case of letters. */
  ghost predicate CaseOf(word: string, v: string) {
    && |word| == |v|
    && forall k :: 0 <= k < |v| ==> word[k] == v[k] || ('A' <= v[k] <= 'Z' && word[k] as int == v[k] as int + 32)
  }

  ghost predicate IsKeyword(v: string) {
    v in ["OR", "AND", "NOT", "LIKE", "IN", "BETWEEN", "IS", "NULL", "CASEI", "DIV",
          "S_INTERSECTS", "S_EQUALS", "S_DISJOINT", "S_TOUCHES", "S_WITHIN", "S_OVERLAPS", "S_CROSSES", "S_CONTAINS"]
  }

  ghost predicate IsGeometry(v: string) {
    v in ["POINT", "LINESTRING", "POLYGON", "MULTIPOINT", "MULTILINESTRING", "MULTIPOLYGON", "GEOMETRYCOLLECTION"]
  }

  // ----- the words -----

  lemma CaseIsSame(word: string, v: string)
    requires IsUpper(v)
    ensures CaseOf(word, v) <==> Same(word, v)
  {
    if |word| == |v| {
      forall k | 0 <= k < |v|
        ensures Upper(word[k]) == Upper(v[k]) <==>
                word[k] == v[k] || ('A' <= v[k] <= 'Z' && word[k] as int == v[k] as int + 32)
      {
        CaseOfChar(word[k], v[k]);
      }
    }
  }

  lemma CaseOfChar(c: char, v: char)
    requires Upper(v) == v
    ensures Upper(c) == v <==> c == v || ('A' <= v <= 'Z' && c as int == v as int + 32)
  {
  }

  lemma KeywordsAre(v: string)
    ensures IsKeyword(v) <==> v in KEYWORDS
    ensures IsGeometry(v) <==> v in GEOMETRIES
  {
  }

  lemma GeometriesUpper(v: string)
    requires v in GEOMETRIES
    ensures IsUpper(v)
  {
  }

  lemma TruthIsNoKeyword(v: string)
    requires v in KEYWORDS
    ensures !Same("true", v) && !Same("false", v)
  {
    if |v| == 4 { assert Upper("true"[0]) != Upper(v[0]); }
    if |v| == 5 { assert Upper("false"[0]) != Upper(v[0]); }
  }

  // ----- where a token starts -----

  lemma StartsAt(s: string, i: nat, b: nat, t: Token, j: nat)
    requires Gap(s, i, b) && Lexed(s, i, t, j)
    requires b < |s| ==> !(s[b] == ' ' || s[b] == '\t' || s[b] == '\n' || s[b] == '\r')
    ensures LexedFrom(s, i, b, t, j)
  {
    var a :| Blank(s, i, a) && LexedFrom(s, i, a, t, j);
    BlankOnce(s, i, a, b);
  }

  /** A name is one word for the lexer. */
  lemma NameIsWord(s: string, i: nat, b: nat, w: nat, t: Token, j: nat)
    requires Gap(s, i, b) && NameAt(s, b, w) && Lexed(s, i, t, j)
    ensures WordToken(s, b, w, t, j)
  {
    StartsAt(s, i, b, t, j);
    assert IsAlnum(s[b]) && !IsDigit(s[b]) && !IsQuote(s[b]);
    var v :| Word(s, b, v) && WordToken(s, b, v, t, j);
    WordOnce(s, b, v, w);
  }

  ghost predicate IsReserved(word: string) {
    || word == "true" || word == "false"
    || (exists v :: IsKeyword(v) && CaseOf(word, v))
    || (exists v :: IsGeometry(v) && CaseOf(word, v))
  }

  lemma KeywordCase(word: string)
    ensures IsOneOf(word, KEYWORDS) <==> exists v :: IsKeyword(v) && CaseOf(word, v)
  {
    forall v | IsKeyword(v) ensures CaseOf(word, v) <==> Same(word, v) {
      KeywordsAre(v);
      KeywordsUpper(v);
      CaseIsSame(word, v);
    }
    forall v ensures IsKeyword(v) <==> v in KEYWORDS {
      KeywordsAre(v);
    }
    if IsOneOf(word, KEYWORDS) {
      var k :| 0 <= k < |KEYWORDS| && Same(word, KEYWORDS[k]);
      assert IsKeyword(KEYWORDS[k]);
    }
  }

  lemma GeometryCase(word: string)
    ensures IsOneOf(word, GEOMETRIES) <==> exists v :: IsGeometry(v) && CaseOf(word, v)
  {
    forall v | IsGeometry(v) ensures CaseOf(word, v) <==> Same(word, v) {
      KeywordsAre(v);
      GeometriesUpper(v);
      CaseIsSame(word, v);
    }
    forall v ensures IsGeometry(v) <==> v in GEOMETRIES {
      KeywordsAre(v);
    }
    if IsOneOf(word, GEOMETRIES) {
      var k :| 0 <= k < |GEOMETRIES| && Same(word, GEOMETRIES[k]);
      assert IsGeometry(GEOMETRIES[k]);
    }
  }

  // ----- the laws -----

  /** A name that is not reserved is read as that identifier and nothing more. */
  lemma IdentifierReadBack(s: string, i: nat, b: nat, w: nat, t: Token, j: nat)
    requires Gap(s, i, b) && NameAt(s, b, w) && Lexed(s, i, t, j) && !IsReserved(s[b..w])
    ensures t == Identifier(s[b..w]) && j == w
  {
    NameIsWord(s, i, b, w, t, j);
    KeywordCase(s[b..w]);
    GeometryCase(s[b..w]);
  }

  /** A truth value is in lower case. */
  lemma TruthReadBack(s: string, i: nat, b: nat, w: nat, t: Token, j: nat)
    requires Gap(s, i, b) && NameAt(s, b, w) && Lexed(s, i, t, j)
    ensures s[b..w] == "true" ==> t == Truth(true) && j == w
    ensures s[b..w] == "false" ==> t == Truth(false) && j == w
  {
    NameIsWord(s, i, b, w, t, j);
  }

  /** A word of the grammar, in any case of letters, is read as that word. */
  lemma KeywordReadBack(s: string, i: nat, b: nat, w: nat, v: string, t: Token, j: nat)
    requires Gap(s, i, b) && NameAt(s, b, w) && Lexed(s, i, t, j) && IsKeyword(v) && CaseOf(s[b..w], v)
    ensures t == Keyword(v) && j == w
  {
    var word := s[b..w];
    NameIsWord(s, i, b, w, t, j);
    KeywordCase(word);
    KeywordsAre(v);
    KeywordsUpper(v);
    CaseIsSame(word, v);
    TruthIsNoKeyword(v);
    KeywordOnce(word, t.word, v);
  }

  /** A geometry word, in any case of letters, takes the parentheses after it and after any
      blanks along, up to where they match; without parentheses it is an identifier. */
  lemma GeometryReadBack(s: string, i: nat, b: nat, w: nat, v: string, t: Token, j: nat)
    requires Gap(s, i, b) && NameAt(s, b, w) && Lexed(s, i, t, j) && IsGeometry(v) && CaseOf(s[b..w], v)
    ensures (exists p :: Opens(s, w, p)) ==> exists p :: Opens(s, w, p) && GeometryToken(s, b, w, p, t, j)
    ensures !(exists p :: Opens(s, w, p)) ==> t == Identifier(s[b..w]) && j == w
    ensures t.Failure? ==> t.message == "Unbalanced or missing parenthesis in WKT"
  {
    var word := s[b..w];
    NameIsWord(s, i, b, w, t, j);
    GeometryCase(word);
    GeometryIsNoKeyword(word, v);
  }

  lemma GeometryIsNoKeyword(word: string, v: string)
    requires IsGeometry(v) && CaseOf(word, v)
    ensures word != "true" && word != "false" && !IsOneOf(word, KEYWORDS)
  {
    assert |v| == 5 ==> v == "POINT" && v[0] == 'P';
    KeywordsAre(v);
    GeometriesUpper(v);
    KeywordCase(word);
    forall u | IsKeyword(u) ensures !CaseOf(word, u) {
      KeywordsAre(u);
      KeywordsUpper(u);
      if CaseOf(word, u) { UpperOnce(word, u, v); }
    }
  }

  lemma UpperOnce(word: string, u: string, v: string)
    requires IsUpper(u) && IsUpper(v) && CaseOf(word, u) && CaseOf(word, v)
    ensures u == v
  {
    forall k | 0 <= k < |v| ensures u[k] == v[k] {
      CaseOfChar(word[k], u[k]);
      CaseOfChar(word[k], v[k]);
    }
  }

  /** Digits alone are an integer. */
  lemma IntegerReadBack(s: string, i: nat, b: nat, w: nat, t: Token, j: nat)
    requires Gap(s, i, b) && b < w <= |s| && (forall k :: b <= k < w ==> Figure(s[k])) && Lexed(s, i, t, j)
    requires w < |s| ==> !Figure(s[w]) && s[w] != '.' && s[w] != 'e' && s[w] != 'E'
    ensures t == Integer(s[b..w]) && j == w
  {
    StartsAt(s, i, b, t, j);
    assert Digits(s, b + 1, w) && Decimals(s, w, w) && Exponent(s, w, w);
    NumeralOnce(s, b, j, w);
  }

  /** Digits, a point and digits are a decimal number. */
  lemma DecimalReadBack(s: string, i: nat, b: nat, a: nat, w: nat, t: Token, j: nat)
    requires Gap(s, i, b) && b < a < w <= |s| && s[a] == '.' && Lexed(s, i, t, j)
    requires forall k :: b <= k < w && k != a ==> Figure(s[k])
    requires w < |s| ==> !Figure(s[w]) && s[w] != 'e' && s[w] != 'E'
    ensures t == Double(s[b..w]) && j == w
  {
    StartsAt(s, i, b, t, j);
    assert Digits(s, b + 1, a) && Decimals(s, a, w) && Exponent(s, w, w);
    NumeralOnce(s, b, j, w);
    assert s[b..w][a - b] == '.';
  }

  /** Any other character of ASCII stands for itself, and after the last one there is the end. */
  lemma SpecialReadBack(s: string, i: nat, b: nat, t: Token, j: nat)
    requires Gap(s, i, b) && Lexed(s, i, t, j)
    requires b < |s| ==> !NameChar(s[b]) || s[b] == '_'
    requires b < |s| ==> s[b] !in [' ', '\t', '\n', '\r', '"', '\'']
    ensures b < |s| ==> t == Special(s[b]) && j == b + 1
    ensures b == |s| ==> t == End && j == b
  {
    StartsAt(s, i, b, t, j);
  }

  /** Text between apostrophes is that literal, unless an apostrophe follows. */
  lemma TextReadBack(s: string, i: nat, b: nat, text: string, rest: string, t: Token, j: nat)
    requires Gap(s, i, b) && s[b..] == ['\''] + PrintedText(text, rest) && Lexed(s, i, t, j)
    requires rest == [] || rest[0] != '\''
    ensures t == Literal(text) && j == b + |Escaped(text)| + 2
  {
    LiteralStart(s, b, PrintedText(text, rest));
    StartsAt(s, i, b, t, j);
    QuotedTextIsRead(text, rest);
  }

  /** A name between quotation marks is that identifier, unless it ends in an apostrophe. */
  lemma NameReadBack(s: string, i: nat, b: nat, name: string, rest: string, t: Token, j: nat)
    requires Gap(s, i, b) && s[b..] == ['"'] + PrintedName(name, rest) && Lexed(s, i, t, j)
    requires name == [] || name[|name| - 1] != '\''
    ensures t == Identifier(name) && j == b + |EscapedName(name)| + 2
  {
    assert s[b..][0] == '"' && s[b..][1..] == PrintedName(name, rest);
    assert s[b + 1..] == PrintedName(name, rest);
    StartsAt(s, i, b, t, j);
    QuotedNameIsRead(name, rest);
  }

  /** A quote that is never closed is reported, and the cursor stays. */
  lemma UnclosedReadBack(s: string, i: nat, b: nat, t: Token, j: nat)
    requires Gap(s, i, b) && b < |s| && (s[b] == '"' || s[b] == '\'') && Lexed(s, i, t, j)
    requires s[b] !in s[b + 1..]
    ensures t == Failure("Did not find end-of-string character") && j == i
  {
    StartsAt(s, i, b, t, j);
    NeverUnquoted(s[b + 1..], s[b]);
  }

  lemma {:induction false} NeverUnquoted(s: string, q: char)
    requires q !in s
    ensures Unquoted(s, q) == None
  {
    if |s| > 1 { NeverUnquoted(s[2..], q); }
    if s != [] { NeverUnquoted(s[1..], q); }
  }
}
