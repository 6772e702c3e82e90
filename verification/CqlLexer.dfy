/**
 The lexer of the filter language: a cursor into a NUL-terminated text and loops that
 collect one token at a time. Text is a sequence of bytes without its terminator.
 */
module CqlLexer {

  datatype Token =
    | Start
    | End
    | Failure(message: string)
    | Identifier(text: string)
    | Literal(text: string)
    | Integer(text: string)
    | Double(text: string)
    | Truth(b: bool)
    | Keyword(word: string)
    | Wkt(text: string)
    | Special(c: char)
    | Negative

  predicate IsText(s: string) { forall i :: 0 <= i < |s| ==> 0 < s[i] as int < 256 }

  predicate IsSpace(c: char) { c == ' ' || c == '\t' || c == '\n' || c == '\r' }

  predicate IsDigit(c: char) { '0' <= c <= '9' }

  predicate IsAlnum(c: char) { IsDigit(c) || 'a' <= c <= 'z' || 'A' <= c <= 'Z' }

  predicate IsQuote(c: char) { c == '"' || c == '\'' }

  predicate IsWordPart(c: char) { IsAlnum(c) || c == '_' || c as int > 127 }

  // ----- quoted text -----

  datatype Option<T> = None | Some(value: T)

  /** What follows an opening quote q, up to the quote that ends it: the text and the
      number of characters used. A backslash takes the next character as it is, and so does
      an apostrophe before q. */
  function Unquoted(s: string, q: char): (r: Option<(string, nat)>)
    ensures r.Some? ==> 0 < r.value.1 <= |s| && |r.value.0| < r.value.1
  {
    if s == [] then None
    else if (s[0] == '\\' || (s[0] == '\'' && |s| > 1 && s[1] == q)) && |s| > 1 then Then(s[1], 2, Unquoted(s[2..], q))
    else if s[0] == q then Some(("", 1))
    else Then(s[0], 1, Unquoted(s[1..], q))
  }

  function Then(c: char, used: nat, rest: Option<(string, nat)>): Option<(string, nat)> {
    if rest.None? then None else Some(([c] + rest.value.0, used + rest.value.1))
  }

  /** Apostrophes doubled, backslashes escaped. */
  function Escaped(text: string): string {
    if text == [] then []
    else (if text[0] == '\'' then "''" else if text[0] == '\\' then "\\\\" else [text[0]]) + Escaped(text[1..])
  }

  /** An ordinary character is taken as it is. */
  lemma UnquotedPlain(c: char, tail: string, q: char)
    requires c != '\\' && c != q && !(c == '\'' && tail != [] && tail[0] == q)
    ensures Unquoted([c] + tail, q) == Then(c, 1, Unquoted(tail, q))
  {
    assert ([c] + tail)[1..] == tail;
  }

  /** After a backslash, or an apostrophe before q, the next character is taken as it is. */
  lemma UnquotedPair(a: char, c: char, tail: string, q: char)
    requires a == '\\' || (a == '\'' && c == q)
    ensures Unquoted([a, c] + tail, q) == Then(c, 2, Unquoted(tail, q))
  {
    var s := [a, c] + tail;
    assert s[0] == a && s[1] == c && s[2..] == tail;
  }

  /** The quote ends the text. */
  lemma UnquotedEnd(tail: string, q: char)
    requires q != '\\' && !(q == '\'' && tail != [] && tail[0] == q)
    ensures Unquoted([q] + tail, q) == Some(("", 1))
  {
    var s := [q] + tail;
    assert s[0] == q && (tail != [] ==> s[1] == tail[0]);
  }

  /** What is printed for a text, from after the opening apostrophe on. */
  function PrintedText(text: string, rest: string): string { Escaped(text) + ['\''] + rest }

  lemma PrintedStep(text: string, rest: string)
    requires text != []
    ensures PrintedText(text, rest) ==
            (if text[0] == '\'' then ['\'', '\''] else if text[0] == '\\' then ['\\', '\\'] else [text[0]])
            + PrintedText(text[1..], rest)
    ensures |Escaped(text)| == |Escaped(text[1..])| + if text[0] == '\'' || text[0] == '\\' then 2 else 1
  {
  }

  /** A text between apostrophes is read back, unless another apostrophe follows. */
  lemma {:induction false} QuotedTextIsRead(text: string, rest: string)
    requires rest == [] || rest[0] != '\''
    ensures Unquoted(PrintedText(text, rest), '\'') == Some((text, |Escaped(text)| + 1))
  {
    if text == [] {
      assert PrintedText(text, rest) == ['\''] + rest;
      UnquotedEnd(rest, '\'');
    } else {
      var tail := PrintedText(text[1..], rest);
      QuotedTextIsRead(text[1..], rest);
      PrintedStep(text, rest);
      if text[0] == '\'' || text[0] == '\\' {
        UnquotedPair(text[0], text[0], tail, '\'');
      } else {
        UnquotedPlain(text[0], tail, '\'');
      }
      assert [text[0]] + text[1..] == text;
    }
  }

  /** Quotation marks and backslashes escaped by a backslash. */
  function EscapedName(name: string): string {
    if name == [] then []
    else (if name[0] == '"' || name[0] == '\\' then ['\\', name[0]] else [name[0]]) + EscapedName(name[1..])
  }

  /** What is printed for a name, from after the opening quotation mark on. */
  function PrintedName(name: string, rest: string): string { EscapedName(name) + ['"'] + rest }

  lemma PrintedNameStep(name: string, rest: string)
    requires name != []
    ensures PrintedName(name, rest) ==
            (if name[0] == '"' || name[0] == '\\' then ['\\', name[0]] else [name[0]]) + PrintedName(name[1..], rest)
    ensures |EscapedName(name)| == |EscapedName(name[1..])| + if name[0] == '"' || name[0] == '\\' then 2 else 1
  {
    PrintedConcat(if name[0] == '"' || name[0] == '\\' then ['\\', name[0]] else [name[0]], EscapedName(name[1..]), ['"'], rest);
  }

  lemma PrintedConcat(a: string, b: string, c: string, d: string)
    ensures (a + b) + c + d == a + (b + c + d)
  {
  }

  /** What is printed for a name that is not empty does not begin with a bare quotation mark. */
  lemma PrintedNameFirst(name: string, rest: string)
    requires name != []
    ensures PrintedName(name, rest)[0] != '"'
  {
  }

  /** The name, escaped and between quotation marks, is read as itself and nothing more. */
  ghost predicate ReadsBack(name: string, rest: string) {
    Unquoted(PrintedName(name, rest), '"') == Some((name, |EscapedName(name)| + 1))
  }

  /** A name put between quotation marks is read back exactly if it does not end in an
      apostrophe: there the closing mark is taken as part of the name. */
  lemma {:induction false} QuotedNameIsRead(name: string, rest: string)
    ensures ReadsBack(name, rest) <==> name == [] || name[|name| - 1] != '\''
  {
    if name == [] {
      assert PrintedName(name, rest) == ['"'] + rest;
      UnquotedEnd(rest, '"');
    } else {
      if name == ['\''] { ApostropheLast(rest); } else { NameStep(name, rest); }
      QuotedNameIsRead(name[1..], rest);
    }
  }

  /** A lone apostrophe takes the closing mark for an escaped one. */
  lemma ApostropheLast(rest: string)
    ensures !ReadsBack(['\''], rest)
  {
    var name := ['\''];
    assert name[1..] == [];
    PrintedNameStep(name, rest);
    assert PrintedName([], rest) == ['"'] + rest;
    assert PrintedName(name, rest) == ['\'', '"'] + rest;
    UnquotedPair('\'', '"', rest, '"');
  }

  /** The first character of any other name is read back, and the rest exactly if it is on its own. */
  lemma NameStep(name: string, rest: string)
    requires name != [] && name != ['\'']
    ensures ReadsBack(name, rest) <==> ReadsBack(name[1..], rest)
  {
    var tail := PrintedName(name[1..], rest);
    PrintedNameStep(name, rest);
    if name[0] == '"' || name[0] == '\\' {
      UnquotedPair('\\', name[0], tail, '"');
      ThenReads(name, 2, Unquoted(tail, '"'), |EscapedName(name[1..])| + 1);
    } else {
      if |name| > 1 { PrintedNameFirst(name[1..], rest); }
      UnquotedPlain(name[0], tail, '"');
      ThenReads(name, 1, Unquoted(tail, '"'), |EscapedName(name[1..])| + 1);
    }
  }

  lemma ThenReads(name: string, used: nat, r: Option<(string, nat)>, n: nat)
    requires name != []
    ensures Then(name[0], used, r) == Some((name, used + n)) <==> r == Some((name[1..], n))
  {
    assert [name[0]] + name[1..] == name;
    if r.Some? { assert ([name[0]] + r.value.0)[1..] == r.value.0; }
  }

  // ----- parentheses -----

  function Level(s: string): int {
    if s == [] then 0
    else Level(s[..|s| - 1]) + (if s[|s| - 1] == '(' then 1 else if s[|s| - 1] == ')' then -1 else 0)
  }

  /** The parentheses match, and for the first time at the end. */
  ghost predicate Balanced(s: string) {
    s != [] && Level(s) == 0 && forall k :: 0 < k < |s| ==> Level(s[..k]) > 0
  }

  // ----- words -----

  function Upper(c: char): char { if 'a' <= c <= 'z' then (c as int - 32) as char else c }

  /** Equality up to the case of letters. */
  predicate Same(s: string, t: string) {
    |s| == |t| && forall i :: 0 <= i < |s| ==> Upper(s[i]) == Upper(t[i])
  }

  const KEYWORDS: seq<string> := [
    "OR", "AND", "NOT", "LIKE", "IN", "BETWEEN", "IS", "NULL", "CASEI", "DIV",
    "S_INTERSECTS", "S_EQUALS", "S_DISJOINT", "S_TOUCHES", "S_WITHIN", "S_OVERLAPS", "S_CROSSES", "S_CONTAINS"
  ]

  const GEOMETRIES: seq<string> := [
    "POINT", "LINESTRING", "POLYGON", "MULTIPOINT", "MULTILINESTRING", "MULTIPOLYGON", "GEOMETRYCOLLECTION"
  ]

  /** The first of the words that equals s, or their number. */
  method Find(s: string, words: seq<string>) returns (k: nat)
    ensures k <= |words| && (k < |words| ==> Same(s, words[k])) && forall i :: 0 <= i < k ==> !Same(s, words[i])
  {
    k := 0;
    while k < |words| && !Same(s, words[k])
      invariant k <= |words| && forall i :: 0 <= i < k ==> !Same(s, words[i])
    {
      k := k + 1;
    }
  }

  ghost predicate IsOneOf(s: string, words: seq<string>) { exists i :: 0 <= i < |words| && Same(s, words[i]) }

  // ----- what a token is made from -----

  /** From i to j every character is white space, and j is not. */
  ghost predicate Blank(s: string, i: nat, j: nat) {
    i <= j <= |s| && (forall k :: i <= k < j ==> IsSpace(s[k])) && (j < |s| ==> !IsSpace(s[j]))
  }

  ghost predicate Digits(s: string, i: nat, j: nat) {
    i <= j <= |s| && (forall k :: i <= k < j ==> IsDigit(s[k])) && (j < |s| ==> !IsDigit(s[j]))
  }

  /** A word is taken as far as it goes. */
  ghost predicate Word(s: string, i: nat, j: nat) {
    i < j <= |s| && IsAlnum(s[i]) && !IsDigit(s[i]) && (forall k :: i < k < j ==> IsWordPart(s[k])) && (j < |s| ==> !IsWordPart(s[j]))
  }

  /** Digits, decimals and exponent, each taken as far as it goes. */
  ghost predicate Numeral(s: string, i: nat, j: nat) {
    i < |s| && IsDigit(s[i]) && exists a, b :: i < a <= b && Digits(s, i + 1, a) && Decimals(s, a, b) && Exponent(s, b, j)
  }

  ghost predicate Decimals(s: string, a: nat, b: nat) {
    if a < |s| && s[a] == '.' then Digits(s, a + 1, b) else b == a
  }

  ghost predicate Exponent(s: string, b: nat, j: nat) {
    if b < |s| && (s[b] == 'e' || s[b] == 'E') then
      Digits(s, if b + 1 < |s| && (s[b + 1] == '-' || s[b + 1] == '+') then b + 2 else b + 1, j)
    else j == b
  }

  ghost predicate Fractional(text: string) { '.' in text || 'e' in text || 'E' in text }

  /** The number from i to j. */
  ghost predicate NumberToken(s: string, i: nat, t: Token, j: nat) {
    Numeral(s, i, j) && i < j <= |s| && t == if Fractional(s[i..j]) then Double(s[i..j]) else Integer(s[i..j])
  }

  /** After blanks from w on there is a parenthesis at p. */
  ghost predicate Opens(s: string, w: nat, p: nat) {
    w <= p < |s| && (forall k :: w <= k < p ==> s[k] == ' ') && s[p] == '('
  }

  /** The parentheses that open at p match up to j, or never do. */
  ghost predicate GeometryToken(s: string, i: nat, w: nat, p: nat, t: Token, j: nat)
    requires i <= w <= |s|
  {
    if t.Wkt? then p < j <= |s| && Balanced(s[p..j]) && t.text == s[i..w] + s[p..j]
    else t == Failure(UNBALANCED) && j == w && p <= |s| && forall k :: p < k <= |s| ==> !Balanced(s[p..k])
  }

  const UNBALANCED := "Unbalanced or missing parenthesis in WKT"

  const UNTERMINATED := "Did not find end-of-string character"

  /** What the word from i to w gives: a truth value, a keyword, a geometry if parentheses
      follow, else an identifier. */
  ghost predicate WordToken(s: string, i: nat, w: nat, t: Token, j: nat)
    requires i <= w <= |s|
  {
    var word := s[i..w];
    if word == "true" || word == "false" then t == Truth(word == "true") && j == w
    else if IsOneOf(word, KEYWORDS) then t.Keyword? && t.word in KEYWORDS && Same(word, t.word) && j == w
    else if IsOneOf(word, GEOMETRIES) && exists p :: Opens(s, w, p) then
      exists p :: Opens(s, w, p) && GeometryToken(s, i, w, p, t, j)
    else t == Identifier(word) && j == w
  }

  ghost predicate QuotedToken(s: string, i: nat, b: nat, t: Token, j: nat)
    requires b < |s|
  {
    match Unquoted(s[b + 1..], s[b])
    case None => t == Failure(UNTERMINATED) && j == i
    case Some((text, n)) => t == (if s[b] == '"' then Identifier(text) else Literal(text)) && j == b + 1 + n
  }

  /** The token that starts at b, for a cursor at i, and where the cursor is left. */
  ghost predicate LexedFrom(s: string, i: nat, b: nat, t: Token, j: nat)
    requires b <= |s|
  {
    if b == |s| then t == End && j == b
    else if IsQuote(s[b]) then QuotedToken(s, i, b, t, j)
    else if IsDigit(s[b]) then NumberToken(s, b, t, j)
    else if IsAlnum(s[b]) then exists w :: Word(s, b, w) && WordToken(s, b, w, t, j)
    else t == (if s[b] as int < 128 then Special(s[b]) else Negative) && j == b + 1
  }

  /** What a call returns when the cursor is at i: the token, and where the cursor is left. */
  ghost predicate Lexed(s: string, i: nat, t: Token, j: nat) {
    exists b :: Blank(s, i, b) && LexedFrom(s, i, b, t, j)
  }

  /** Every token takes at least one character, and none beyond the terminator. */
  lemma Progress(s: string, i: nat, t: Token, j: nat)
    requires i <= |s| && Lexed(s, i, t, j)
    ensures j <= |s| && (t != End && !t.Failure? ==> i < j)
  {
    var b :| Blank(s, i, b) && LexedFrom(s, i, b, t, j);
    ProgressFrom(s, i, b, t, j);
  }

  lemma ProgressFrom(s: string, i: nat, b: nat, t: Token, j: nat)
    requires i <= b <= |s| && LexedFrom(s, i, b, t, j)
    ensures j <= |s| && (t != End && !t.Failure? ==> b < j)
  {
    if b < |s| && !IsQuote(s[b]) && !IsDigit(s[b]) && IsAlnum(s[b]) {
      var w :| Word(s, b, w) && WordToken(s, b, w, t, j);
    }
  }

  // ----- there is one answer -----

  lemma BlankOnce(s: string, i: nat, a: nat, b: nat)
    requires Blank(s, i, a) && Blank(s, i, b)
    ensures a == b
  {
  }

  lemma DigitsOnce(s: string, i: nat, a: nat, b: nat)
    requires Digits(s, i, a) && Digits(s, i, b)
    ensures a == b
  {
  }

  lemma WordOnce(s: string, i: nat, a: nat, b: nat)
    requires Word(s, i, a) && Word(s, i, b)
    ensures a == b
  {
  }

  lemma NumeralOnce(s: string, i: nat, j: nat, j': nat)
    requires Numeral(s, i, j) && Numeral(s, i, j')
    ensures j == j'
  {
    var a, b :| i < a <= b && Digits(s, i + 1, a) && Decimals(s, a, b) && Exponent(s, b, j);
    var a', b' :| i < a' <= b' && Digits(s, i + 1, a') && Decimals(s, a', b') && Exponent(s, b', j');
    DigitsOnce(s, i + 1, a, a');
    DecimalsOnce(s, a, b, b');
    ExponentOnce(s, b, j, j');
  }

  lemma DecimalsOnce(s: string, a: nat, b: nat, b': nat)
    requires Decimals(s, a, b) && Decimals(s, a, b')
    ensures b == b'
  {
    if a < |s| && s[a] == '.' { DigitsOnce(s, a + 1, b, b'); }
  }

  lemma ExponentOnce(s: string, b: nat, j: nat, j': nat)
    requires Exponent(s, b, j) && Exponent(s, b, j')
    ensures j == j'
  {
    if b < |s| && (s[b] == 'e' || s[b] == 'E') {
      DigitsOnce(s, if b + 1 < |s| && (s[b + 1] == '-' || s[b + 1] == '+') then b + 2 else b + 1, j, j');
    }
  }

  predicate IsUpper(word: string) { forall k :: 0 <= k < |word| ==> Upper(word[k]) == word[k] }

  lemma KeywordsUpper(word: string)
    requires word in KEYWORDS
    ensures IsUpper(word)
  {
  }

  /** Two keywords that a word equals are the same. */
  lemma KeywordOnce(word: string, a: string, b: string)
    requires a in KEYWORDS && b in KEYWORDS && Same(word, a) && Same(word, b)
    ensures a == b
  {
    KeywordsUpper(a);
    KeywordsUpper(b);
    forall k | 0 <= k < |word| ensures a[k] == b[k] {
      assert Upper(a[k]) == Upper(b[k]);
    }
  }

  lemma OpensOnce(s: string, w: nat, p: nat, q: nat)
    requires Opens(s, w, p) && Opens(s, w, q)
    ensures p == q
  {
  }

  lemma PrefixLevel(s: string, p: nat, j: nat, k: nat)
    requires p < j <= |s| && p < k <= |s| && Balanced(s[p..k])
    ensures j < k ==> Level(s[p..j]) > 0
  {
    if j < k { assert s[p..k][..j - p] == s[p..j]; }
  }

  lemma BalancedOnce(s: string, p: nat, j: nat, k: nat)
    requires p < j <= |s| && p < k <= |s| && Balanced(s[p..j]) && Balanced(s[p..k])
    ensures j == k
  {
    PrefixLevel(s, p, j, k);
    PrefixLevel(s, p, k, j);
  }

  lemma GeometryOnce(s: string, i: nat, w: nat, p: nat, t: Token, j: nat, t': Token, j': nat)
    requires i <= w <= |s| && GeometryToken(s, i, w, p, t, j) && GeometryToken(s, i, w, p, t', j')
    ensures t == t' && j == j'
  {
    if t.Wkt? && t'.Wkt? { BalancedOnce(s, p, j, j'); }
  }

  lemma WordTokenOnce(s: string, i: nat, w: nat, t: Token, j: nat, t': Token, j': nat)
    requires i <= w <= |s| && WordToken(s, i, w, t, j) && WordToken(s, i, w, t', j')
    ensures t == t' && j == j'
  {
    var word := s[i..w];
    if word == "true" || word == "false" {
    } else if IsOneOf(word, KEYWORDS) {
      KeywordOnce(word, t.word, t'.word);
    } else if IsOneOf(word, GEOMETRIES) && exists p :: Opens(s, w, p) {
      var p :| Opens(s, w, p) && GeometryToken(s, i, w, p, t, j);
      var q :| Opens(s, w, q) && GeometryToken(s, i, w, q, t', j');
      OpensOnce(s, w, p, q);
      GeometryOnce(s, i, w, p, t, j, t', j');
    }
  }

  /** For every text and cursor there is only one token and one place to go on from. */
  lemma LexedOnce(s: string, i: nat, t: Token, j: nat, t': Token, j': nat)
    requires Lexed(s, i, t, j) && Lexed(s, i, t', j')
    ensures t == t' && j == j'
  {
    var b :| Blank(s, i, b) && LexedFrom(s, i, b, t, j);
    var b' :| Blank(s, i, b') && LexedFrom(s, i, b', t', j');
    BlankOnce(s, i, b, b');
    LexedFromOnce(s, i, b, t, j, t', j');
  }

  lemma LexedFromOnce(s: string, i: nat, b: nat, t: Token, j: nat, t': Token, j': nat)
    requires b <= |s| && LexedFrom(s, i, b, t, j) && LexedFrom(s, i, b, t', j')
    ensures t == t' && j == j'
  {
    if b < |s| && !IsQuote(s[b]) {
      if IsDigit(s[b]) {
        NumeralOnce(s, b, j, j');
      } else if IsAlnum(s[b]) {
        var w :| Word(s, b, w) && WordToken(s, b, w, t, j);
        var w' :| Word(s, b, w') && WordToken(s, b, w', t', j');
        WordOnce(s, b, w, w');
        WordTokenOnce(s, b, w, t, j, t', j');
      }
    }
  }

  /** Text printed between apostrophes is read back as a literal, unless an apostrophe follows. */
  lemma LiteralReadBack(s: string, i: nat, text: string, rest: string, t: Token, j: nat)
    requires i <= |s| && s[i..] == ['\''] + PrintedText(text, rest) && (rest == [] || rest[0] != '\'')
    requires Lexed(s, i, t, j)
    ensures t == Literal(text) && j == i + |Escaped(text)| + 2
  {
    LiteralStart(s, i, PrintedText(text, rest));
    QuotedTextIsRead(text, rest);
    assert LexedFrom(s, i, i, Literal(text), i + |Escaped(text)| + 2);
    LexedOnce(s, i, t, j, Literal(text), i + |Escaped(text)| + 2);
  }

  lemma LiteralStart(s: string, i: nat, tail: string)
    requires i <= |s| && s[i..] == ['\''] + tail
    ensures i < |s| && s[i] == '\'' && s[i + 1..] == tail && Blank(s, i, i)
  {
    assert s[i..][0] == '\'' && s[i..][1..] == tail;
  }

  // ----- the lexer -----

  class Lexer {
    const input: string
    var next: nat
    var atStart: bool

    ghost predicate Valid()
      reads this
    {
      next <= |input| && IsText(input)
    }

    constructor (input: string)
      requires IsText(input)
      ensures Valid() && this.input == input && next == 0 && atStart
    {
      this.input, next, atStart := input, 0, true;
    }

    /** Quoted text after the quote at i. */
    method ScanQuoted(i: nat, q: char) returns (r: Option<(string, nat)>)
      requires i < |input|
      ensures r == Unquoted(input[i + 1..], q)
    {
      var p, token := i + 1, "";
      ghost var whole := Unquoted(input[p..], q);
      ghost var rest, n: nat := whole, 0;
      PrefixedNothing(whole);
      while p < |input|
        invariant i < p <= |input| && n == p - i - 1 && Tail(input, p, q, rest) && whole == Prefixed(token, n, rest)
      {
        ghost var more, after, size := TailStep(input, p, q, rest, token, n);
        if input[p] == '\\' && p + 1 < |input| {
          p := p + 1;
        } else if input[p] == '\'' && p + 1 < |input| && input[p + 1] == q {
          p := p + 1;
        } else if input[p] == q {
          return Some((token, p - i));
        }
        token := token + [input[p]];
        p := p + 1;
        assert p == after;
        rest, n := more, size;
      }
      TailEnd(input, q, rest);
      r := None;
    }

    /** The digits from i on. */
    method SkipDigits(i: nat) returns (j: nat)
      requires i <= |input|
      ensures Digits(input, i, j)
    {
      j := i;
      while j < |input| && IsDigit(input[j])
        invariant i <= j <= |input| && forall k :: i <= k < j ==> IsDigit(input[k])
      {
        j := j + 1;
      }
    }

    /** A number: digits, decimals, exponent. */
    method ScanNumber(i: nat) returns (t: Token, j: nat)
      requires i < |input| && IsDigit(input[i])
      ensures NumberToken(input, i, t, j)
    {
      j := SkipDigits(i + 1);
      ghost var a := j;
      if j < |input| && input[j] == '.' {
        j := SkipDigits(j + 1);
      }
      ghost var b := j;
      if j < |input| && (input[j] == 'e' || input[j] == 'E') {
        j := j + 1;
        if j < |input| && (input[j] == '-' || input[j] == '+') {
          j := j + 1;
        }
        j := SkipDigits(j);
      }
      assert Digits(input, i + 1, a) && Decimals(input, a, b) && Exponent(input, b, j);
      var text := input[i..j];
      t := if '.' in text || 'e' in text || 'E' in text then Double(text) else Integer(text);
    }

    method SkipWord(i: nat) returns (j: nat)
      requires i < |input| && IsAlnum(input[i]) && !IsDigit(input[i])
      ensures Word(input, i, j)
    {
      j := i + 1;
      while j < |input| && IsWordPart(input[j])
        invariant i < j <= |input| && forall k :: i < k < j ==> IsWordPart(input[k])
      {
        j := j + 1;
      }
    }

    /** Parenthesised text from p on. */
    method ScanParentheses(p: nat) returns (ok: bool, j: nat)
      requires p < |input| && input[p] == '('
      ensures ok ==> p < j <= |input| && Balanced(input[p..j])
      ensures !ok ==> forall k :: p < k <= |input| ==> !Balanced(input[p..k])
    {
      var level := 0;
      j := p;
      while j < |input|
        invariant p <= j <= |input| && level == Level(input[p..j]) && (j > p ==> level > 0)
        invariant forall k :: p < k <= j ==> Level(input[p..k]) > 0
      {
        assert input[p..j + 1][..j - p] == input[p..j];
        if input[j] == '(' {
          level := level + 1;
        } else if input[j] == ')' {
          level := level - 1;
          if level <= 0 {
            j := j + 1;
            forall k | 0 < k < j - p ensures Level(input[p..j][..k]) > 0 {
              assert input[p..j][..k] == input[p..p + k];
            }
            return true, j;
          }
        }
        j := j + 1;
      }
      ok := false;
    }

    /** A keyword, a truth value, a geometry or an identifier. */
    method ScanWord(i: nat) returns (t: Token, j: nat, ghost w: nat)
      requires i < |input| && IsAlnum(input[i]) && !IsDigit(input[i])
      ensures Word(input, i, w) && WordToken(input, i, w, t, j)
    {
      j := SkipWord(i);
      w := j;
      var word := input[i..j];
      if word == "true" { return Truth(true), j, w; }
      if word == "false" { return Truth(false), j, w; }
      var k := Find(word, KEYWORDS);
      if k < |KEYWORDS| { return Keyword(KEYWORDS[k]), j, w; }
      var g := Find(word, GEOMETRIES);
      if g < |GEOMETRIES| {
        t, j := ScanGeometry(i, j);
      } else {
        t := Identifier(word);
      }
    }

    /** A geometry, if parentheses follow its word; else an identifier. */
    method ScanGeometry(i: nat, w: nat) returns (t: Token, j: nat)
      requires Word(input, i, w)
      ensures if exists p :: Opens(input, w, p) then exists p :: Opens(input, w, p) && GeometryToken(input, i, w, p, t, j)
              else t == Identifier(input[i..w]) && j == w
    {
      var p := w;
      while p < |input| && input[p] == ' '
        invariant w <= p <= |input| && forall m :: w <= m < p ==> input[m] == ' '
      {
        p := p + 1;
      }
      if p < |input| && input[p] == '(' {
        var ok, end := ScanParentheses(p);
        t, j := if ok then Wkt(input[i..w] + input[p..end]) else Failure(UNBALANCED), if ok then end else w;
        assert Opens(input, w, p) && GeometryToken(input, i, w, p, t, j);
      } else {
        t, j := Identifier(input[i..w]), w;
      }
    }

    /** Reads the next token. */
    method Next() returns (t: Token)
      requires Valid()
      modifies this
      ensures Valid() && !atStart
      ensures old(atStart) ==> t == Start && next == old(next)
      ensures !old(atStart) ==> Lexed(input, old(next), t, next)
    {
      if atStart {
        atStart := false;
        return Start;
      }
      var i := next;
      while i < |input| && IsSpace(input[i])
        invariant next <= i <= |input| && forall k :: next <= k < i ==> IsSpace(input[k])
      {
        i := i + 1;
      }
      assert Blank(input, next, i);
      if i == |input| {
        next := i;
        assert LexedFrom(input, old(next), i, End, i);
        return End;
      }
      t, next := TokenFrom(i);
      Progress(input, old(next), t, next);
    }

    /** The token at i, which is not white space. */
    method TokenFrom(i: nat) returns (t: Token, j: nat)
      requires Valid() && i < |input|
      ensures LexedFrom(input, next, i, t, j)
    {
      var c := input[i];
      if c == '"' || c == '\'' {
        var r := ScanQuoted(i, c);
        if r.None? { return Failure(UNTERMINATED), next; }
        t := if c == '"' then Identifier(r.value.0) else Literal(r.value.0);
        j := i + 1 + r.value.1;
      } else if IsDigit(c) {
        t, j := ScanNumber(i);
      } else if IsAlnum(c) {
        ghost var w;
        t, j, w := ScanWord(i);
      } else {
        t, j := if c as int < 128 then Special(c) else Negative, i + 1;
      }
    }
  }

  /** The rest of a quoted text, after part of it. */
  function Prefixed(text: string, used: nat, rest: Option<(string, nat)>): Option<(string, nat)> {
    if rest.None? then None else Some((text + rest.value.0, used + rest.value.1))
  }

  lemma PrefixedNothing(rest: Option<(string, nat)>)
    ensures Prefixed("", 0, rest) == rest
  {
    if rest.Some? { assert "" + rest.value.0 == rest.value.0; }
  }

  lemma PrefixedThen(text: string, n: nat, c: char, used: nat, rest: Option<(string, nat)>)
    ensures Prefixed(text, n, Then(c, used, rest)) == Prefixed(text + [c], n + used, rest)
  {
    if rest.Some? { assert text + ([c] + rest.value.0) == text + [c] + rest.value.0; }
  }

  /** rest is what the quoted text amounts to from p on. Folded; opened by Peek. */
  ghost predicate Tail(s: string, p: nat, q: char, rest: Option<(string, nat)>) {
    p <= |s| && forall k: int :: Peek(k) ==> rest == Unquoted(s[p..], q)
  }

  ghost predicate Peek(k: int) { true }

  lemma TailEnd(s: string, q: char, rest: Option<(string, nat)>)
    requires Tail(s, |s|, q, rest)
    ensures rest == None
  {
    assert Peek(0);
  }

  predicate IsEscape(s: string, p: nat, q: char)
    requires p < |s|
  {
    p + 1 < |s| && (s[p] == '\\' || (s[p] == '\'' && s[p + 1] == q))
  }

  /** One character of quoted text, or two. */
  lemma TailStep(s: string, p: nat, q: char, rest: Option<(string, nat)>, token: string, n: nat)
    returns (more: Option<(string, nat)>, after: nat, size: nat)
    requires p < |s| && Tail(s, p, q, rest)
    ensures after == (if IsEscape(s, p, q) then p + 2 else p + 1) && size == n + after - p
    ensures if !IsEscape(s, p, q) && s[p] == q then Prefixed(token, n, rest) == Some((token, n + 1))
            else Tail(s, after, q, more) && Prefixed(token, n, rest) == Prefixed(token + [s[after - 1]], size, more)
  {
    assert Peek(0);
    after := if IsEscape(s, p, q) then p + 2 else p + 1;
    size := n + after - p;
    var t := s[p..];
    assert t[0] == s[p] && t[1..] == s[p + 1..];
    more := None;
    if IsEscape(s, p, q) {
      assert t[1] == s[p + 1] && t[2..] == s[p + 2..];
      more := Unquoted(s[p + 2..], q);
      PrefixedThen(token, n, s[p + 1], 2, more);
    } else if s[p] == q {
      assert token + "" == token;
    } else {
      more := Unquoted(s[p + 1..], q);
      PrefixedThen(token, n, s[p], 1, more);
    }
  }
}
