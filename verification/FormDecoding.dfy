/**
 Decoding of a query string, in place on NUL-terminated buffers: parameters are cut off
 at "&", plus signs and escapes are decoded, and names are cut off at "=".
 */
module FormDecoding {

  /** Text without the terminator; characters are bytes. */
  predicate IsText(t: string) { forall i :: 0 <= i < |t| ==> 0 < t[i] as int < 256 }

  /** The buffer holds the text, terminated. */
  ghost predicate Holds(a: array<char>, t: string)
    reads a
  {
    |t| < a.Length && (forall k :: 0 <= k < |t| ==> a[k] == t[k]) && a[|t|] == '\0' && IsText(t)
  }

  // ----- cutting off words -----

  function Before(t: string, stop: char): (r: string)
    ensures |r| <= |t|
  {
    if t == [] || t[0] == stop then [] else [t[0]] + Before(t[1..], stop)
  }

  function After(t: string, stop: char): (r: string)
    ensures |r| <= |t| && (t != [] ==> |r| < |t|)
  {
    if t == [] then [] else if t[0] == stop then t[1..] else After(t[1..], stop)
  }

  /** The word ends at the first stop, which is dropped. */
  lemma {:induction false} CutAt(a: string, stop: char, b: string)
    requires stop !in a
    ensures Before(a + [stop] + b, stop) == a && After(a + [stop] + b, stop) == b
  {
    var t := a + [stop] + b;
    if a == [] {
      assert t == [stop] + b;
    } else {
      CutAt(a[1..], stop, b);
      assert t[1..] == a[1..] + [stop] + b;
    }
  }

  lemma {:induction false} CutNowhere(a: string, stop: char)
    requires stop !in a
    ensures Before(a, stop) == a && After(a, stop) == []
  {
    if a != [] { CutNowhere(a[1..], stop); }
  }

  /** Where the first word ends. */
  lemma {:induction false} CutIndex(t: string, stop: char, x: nat)
    requires x <= |t| && stop !in t[..x] && (x < |t| ==> t[x] == stop)
    ensures Before(t, stop) == t[..x] && After(t, stop) == if x < |t| then t[x + 1..] else []
  {
    if x < |t| {
      assert t == t[..x] + [stop] + t[x + 1..];
      CutAt(t[..x], stop, t[x + 1..]);
    } else {
      assert t[..x] == t;
      CutNowhere(t, stop);
    }
  }

  /** Cuts the first word off the line; the rest is moved to the front of the line. */
  method MakeWord(line: array<char>, stop: char, ghost t: string) returns (word: array<char>)
    requires Holds(line, t) && stop != '\0'
    modifies line
    ensures fresh(word) && word.Length > |t|
    ensures Holds(word, Before(t, stop)) && Holds(line, After(t, stop))
  {
    word := new char[line.Length](i => '\0');
    var x := 0;
    while line[x] != '\0' && line[x] != stop
      invariant 0 <= x <= |t| && Holds(line, t) && stop !in t[..x]
      invariant forall k :: 0 <= k < x ==> word[k] == t[k]
      decreases |t| - x
    {
      word[x] := line[x];
      x := x + 1;
    }
    word[x] := '\0';
    CutIndex(t, stop, x);
    if line[x] != '\0' {
      x := x + 1;
    }
    ShiftLeft(line, x, t);
  }

  /** Moves the text from x on to the front. */
  method ShiftLeft(line: array<char>, from: nat, ghost t: string)
    requires Holds(line, t) && from <= |t|
    modifies line
    ensures Holds(line, t[from..])
  {
    var y, x := 0, from;
    while line[x] != '\0'
      invariant from <= x <= |t| && y == x - from
      invariant forall k :: 0 <= k < y ==> line[k] == t[from + k]
      invariant forall k :: x <= k < |t| ==> line[k] == t[k]
      invariant line[|t|] == '\0'
      decreases |t| - x
    {
      line[y] := line[x];
      y, x := y + 1, x + 1;
    }
    line[y] := '\0';
  }

  // ----- decoding -----

  function Spaced(t: string): (r: string)
    ensures |r| == |t|
  {
    seq(|t|, i requires 0 <= i < |t| => if t[i] == '+' then ' ' else t[i])
  }

  /** Turns every plus sign into a space. */
  method PlusToSpace(str: array<char>, ghost t: string)
    requires Holds(str, t)
    modifies str
    ensures Holds(str, Spaced(t))
  {
    var x := 0;
    while str[x] != '\0'
      invariant 0 <= x <= |t| && str[|t|] == '\0'
      invariant forall k :: 0 <= k < |t| ==> str[k] == if k < x then Spaced(t)[k] else t[k]
      decreases |t| - x
    {
      if str[x] == '+' {
        str[x] := ' ';
      }
      x := x + 1;
    }
  }

  function HexToInteger(c: char): (v: int)
    ensures -1 <= v < 16
  {
    if '0' <= c <= '9' then c as int - '0' as int
    else if 'A' <= c <= 'F' then c as int - 'A' as int + 10
    else if 'a' <= c <= 'f' then c as int - 'a' as int + 10
    else -1
  }

  /** The text begins with a well-formed escape. */
  predicate IsEscape(t: string) {
    |t| > 2 && t[0] == '%' && HexToInteger(t[1]) >= 0 && HexToInteger(t[2]) >= 0
  }

  function EscapedChar(t: string): char
    requires IsEscape(t)
  {
    (HexToInteger(t[1]) * 16 + HexToInteger(t[2])) as char
  }

  /** Escapes decoded; malformed ones are left as they are. */
  function Unescaped(t: string): (r: string)
    ensures |r| <= |t|
  {
    if t == [] then []
    else if IsEscape(t) then [EscapedChar(t)] + Unescaped(t[3..])
    else [t[0]] + Unescaped(t[1..])
  }

  /** What a NUL-terminated buffer shows of a sequence of bytes. */
  function UpToNul(t: string): (r: string)
    ensures |r| <= |t|
    ensures forall i :: 0 <= i < |r| ==> r[i] == t[i] && r[i] != '\0'
    ensures |r| < |t| ==> t[|r|] == '\0'
  {
    if t == [] || t[0] == '\0' then [] else [t[0]] + UpToNul(t[1..])
  }

  /** rest is the decoded text from y on. Folded; opened by Peek. */
  ghost predicate Tail(t: string, y: nat, rest: string) {
    y <= |t| && forall k: int :: Peek(k) ==> rest == Unescaped(t[y..])
  }

  ghost predicate Peek(k: int) { true }

  lemma TailAll(t: string)
    ensures Tail(t, 0, Unescaped(t))
  {
    assert t[0..] == t;
  }

  lemma TailEnd(t: string, rest: string)
    requires Tail(t, |t|, rest)
    ensures rest == []
  {
    assert Peek(0);
  }

  predicate EscapeAt(t: string, y: nat)
    requires y < |t|
  {
    y + 2 < |t| && t[y] == '%' && HexToInteger(t[y + 1]) >= 0 && HexToInteger(t[y + 2]) >= 0
  }

  /** One decoded character. */
  lemma TailStep(t: string, y: nat, rest: string) returns (c: char, more: string, next: nat)
    requires y < |t| && Tail(t, y, rest)
    ensures rest == [c] + more && Tail(t, next, more) && y < next <= |t|
    ensures next == (if EscapeAt(t, y) then y + 3 else y + 1) && c as int == DecodedAt(t, y)
  {
    assert Peek(0);
    var s := t[y..];
    assert s[1..] == t[y + 1..];
    if EscapeAt(t, y) {
      assert s[3..] == t[y + 3..];
      c, more, next := EscapedChar(s), Unescaped(t[y + 3..]), y + 3;
    } else {
      c, more, next := t[y], Unescaped(t[y + 1..]), y + 1;
    }
  }

  /** Decodes the escapes in place; the text can only become shorter, and an escaped NUL
      ends it. */
  method UnescapeUrl(url: array<char>, ghost t: string)
    requires Holds(url, t)
    modifies url
    ensures Holds(url, UpToNul(Unescaped(t)))
  {
    ghost var whole := Unescaped(t);
    ghost var done, rest := "", whole;
    var x, y := 0, 0;
    TailAll(t);
    while url[y] != '\0'
      invariant 0 <= x <= y <= |t| && x == |done| && url[|t|] == '\0'
      invariant forall k :: 0 <= k < x ==> url[k] == done[k] && done[k] as int < 256
      invariant forall k :: y <= k < |t| ==> url[k] == t[k]
      invariant Tail(t, y, rest) && whole == done + rest
      decreases |t| - y
    {
      ghost var c, more, next := TailStep(t, y, rest);
      y := DecodeOne(url, x, y, t, c, next);
      Regroup(done, c, more);
      done, rest := done + [c], more;
      x := x + 1;
    }
    url[x] := '\0';
    TailEnd(t, rest);
    assert whole == done;
    ShowsUpToNul(url, done);
  }

  lemma ShowsUpToNul(url: array<char>, s: string)
    requires |s| < url.Length && url[|s|] == '\0'
    requires forall k :: 0 <= k < |s| ==> url[k] == s[k] && s[k] as int < 256
    ensures Holds(url, UpToNul(s))
  {
  }

  lemma Regroup(done: string, c: char, more: string)
    ensures done + ([c] + more) == done + [c] + more
  {
  }

  function DecodedAt(t: string, y: nat): int
    requires y < |t|
  {
    if EscapeAt(t, y) then HexToInteger(t[y + 1]) * 16 + HexToInteger(t[y + 2]) else t[y] as int
  }

  /** Decodes the character at y and stores it at x. */
  method DecodeOne(url: array<char>, x: nat, y: nat, ghost t: string, ghost c: char, ghost to: nat)
    returns (next: nat)
    requires x <= y < |t| < url.Length && url[|t|] == '\0' && (forall k :: y <= k < |t| ==> url[k] == t[k])
    requires c as int == DecodedAt(t, y) && to == if EscapeAt(t, y) then y + 3 else y + 1
    modifies url
    ensures next == to && url[x] == c
    ensures forall k :: 0 <= k < url.Length && k != x ==> url[k] == old(url[k])
  {
    next := y + 1;
    if url[y] == '%' {
      var hi := HexToInteger(url[y + 1]);
      if hi >= 0 {
        var lo := HexToInteger(url[y + 2]);
        if lo >= 0 {
          url[x] := (hi * 16 + lo) as char;
          next := y + 3;
          return;
        }
      }
      url[x] := '%';
    } else {
      url[x] := url[y];
    }
  }

  // ----- the parameters of a query -----

  datatype Param = Param(name: string, value: string)

  /** One parameter as it is decoded, before its name is cut off. */
  function Item(t: string): string { UpToNul(Unescaped(Spaced(t))) }

  function Decode(query: string): seq<Param>
    decreases |query|
  {
    if query == [] then []
    else
      var item := Item(Before(query, '&'));
      [Param(Before(item, '='), After(item, '='))] + Decode(After(query, '&'))
  }

  /** Copies the text out of its buffer. */
  method Read(a: array<char>, ghost t: string) returns (r: string)
    requires Holds(a, t)
    ensures r == t
  {
    r := [];
    while a[|r|] != '\0'
      invariant |r| <= |t| && r == t[..|r|]
      decreases |t| - |r|
    {
      r := r + [a[|r|]];
    }
  }

  /** Cuts the first parameter off the query and decodes it. */
  method NextParam(query: array<char>, ghost t: string) returns (p: Param)
    requires Holds(query, t)
    modifies query
    ensures Holds(query, After(t, '&'))
    ensures var item := Item(Before(t, '&')); p == Param(Before(item, '='), After(item, '='))
  {
    ghost var word := Before(t, '&');
    var value := MakeWord(query, '&', t);
    PlusToSpace(value, word);
    UnescapeUrl(value, Spaced(word));
    ghost var item := Item(word);
    var name := MakeWord(value, '=', item);
    var n := Read(name, Before(item, '='));
    var v := Read(value, After(item, '='));
    p := Param(n, v);
  }

  /** The loop over the query string. */
  method LoadParams(query: array<char>, ghost t: string) returns (params: seq<Param>)
    requires Holds(query, t)
    modifies query
    ensures params == Decode(t)
  {
    params := [];
    ghost var rest := t;
    while query[0] != '\0'
      invariant Holds(query, rest) && Decode(t) == params + Decode(rest)
      decreases |rest|
    {
      var p := NextParam(query, rest);
      assert Decode(rest) == [p] + Decode(After(rest, '&'));
      rest := After(rest, '&');
      params := params + [p];
    }
  }

  // ----- encoding -----

  /** A hexadecimal digit, in either case, and what it stands for. */
  ghost predicate IsHexDigit(c: char, v: int) {
    || (0 <= v < 10 && c as int == v + '0' as int)
    || (10 <= v < 16 && (c as int == v - 10 + 'A' as int || c as int == v - 10 + 'a' as int))
  }

  /** What application/x-www-form-urlencoded may have for a character: a plus sign for a space,
      the character itself unless it is one of %, +, & and =, or an escape. */
  ghost predicate EncodesChar(e: string, c: char) {
    || (e == "+" && c == ' ')
    || (e == [c] && c != '%' && c != '+' && c != '&' && c != '=')
    || (|e| == 3 && e[0] == '%' && IsHexDigit(e[1], c as int / 16) && IsHexDigit(e[2], c as int % 16))
  }

  ghost predicate EncodesText(e: string, t: string)
    decreases |t|
  {
    if t == [] then e == []
    else exists n :: 0 < n <= |e| && EncodesChar(e[..n], t[0]) && EncodesText(e[n..], t[1..])
  }

  /** A name and a value as they are encoded. */
  datatype Code = Code(name: string, value: string) {
    function Text(): string { name + "=" + value }
  }

  ghost predicate EncodesParam(c: Code, p: Param) {
    IsText(p.name) && IsText(p.value) && EncodesText(c.name, p.name) && EncodesText(c.value, p.value)
  }

  ghost predicate EncodesAll(cs: seq<Code>, ps: seq<Param>) {
    |cs| == |ps| && forall i :: 0 <= i < |ps| ==> EncodesParam(cs[i], ps[i])
  }

  /** The parameters joined by "&". */
  function Query(cs: seq<Code>): string {
    if cs == [] then []
    else if |cs| == 1 then cs[0].Text()
    else cs[0].Text() + "&" + Query(cs[1..])
  }

  /** A percent sign without two hexadecimal digits after it stands for itself. */
  lemma MalformedKept(t: string)
    requires t != [] && t[0] == '%'
    requires |t| > 2 ==> (forall v :: !IsHexDigit(t[1], v)) || (forall v :: !IsHexDigit(t[2], v))
    ensures Unescaped(t) == ['%'] + Unescaped(t[1..])
  {
    if |t| > 2 {
      HexDigitOnly(t[1]);
      HexDigitOnly(t[2]);
    }
  }

  lemma HexDigitOnly(c: char)
    ensures HexToInteger(c) >= 0 ==> IsHexDigit(c, HexToInteger(c))
  {
  }

  lemma HexDigitRead(c: char, v: int)
    requires IsHexDigit(c, v)
    ensures HexToInteger(c) == v && c != '&' && c != '=' && c != '+'
  {
  }

  /** An encoded character is decoded, whatever follows. */
  lemma CharDecoded(e: string, c: char, rest: string)
    requires EncodesChar(e, c)
    ensures Unescaped(Spaced(e) + rest) == [c] + Unescaped(rest)
    ensures '&' !in e && '=' !in e
  {
    var t := Spaced(e) + rest;
    if |e| == 3 {
      HexDigitRead(e[1], c as int / 16);
      HexDigitRead(e[2], c as int % 16);
      assert t[0] == '%' && t[1] == e[1] && t[2] == e[2] && t[3..] == rest;
      assert c as int / 16 * 16 + c as int % 16 == c as int;
    } else {
      assert Spaced(e) == [c];
      assert t[1..] == rest;
    }
  }

  lemma SpacedConcat(a: string, b: string)
    ensures Spaced(a + b) == Spaced(a) + Spaced(b)
  {
  }

  lemma {:induction false} TextHasNoStops(e: string, t: string)
    requires EncodesText(e, t)
    ensures '&' !in e && '=' !in e
    decreases |t|
  {
    if t != [] {
      var n :| 0 < n <= |e| && EncodesChar(e[..n], t[0]) && EncodesText(e[n..], t[1..]);
      CharDecoded(e[..n], t[0], []);
      TextHasNoStops(e[n..], t[1..]);
      assert e == e[..n] + e[n..];
    }
  }

  /** An encoded text is decoded, whatever follows. */
  lemma {:induction false} TextDecoded(e: string, t: string, rest: string)
    requires EncodesText(e, t)
    ensures Unescaped(Spaced(e) + rest) == t + Unescaped(rest)
    decreases |t|
  {
    if t == [] {
      assert Spaced([]) + rest == rest;
    } else {
      var n :| 0 < n <= |e| && EncodesChar(e[..n], t[0]) && EncodesText(e[n..], t[1..]);
      EncodedStep(e, n, rest);
      CharDecoded(e[..n], t[0], Spaced(e[n..]) + rest);
      TextDecoded(e[n..], t[1..], rest);
      Joined(t[0], t[1..], Unescaped(rest));
      assert t == [t[0]] + t[1..];
    }
  }

  lemma EncodedStep(e: string, n: nat, rest: string)
    requires n <= |e|
    ensures Spaced(e) + rest == Spaced(e[..n]) + (Spaced(e[n..]) + rest)
  {
    assert e == e[..n] + e[n..];
    SpacedConcat(e[..n], e[n..]);
    Associates(Spaced(e[..n]), Spaced(e[n..]), rest);
  }

  lemma Associates(a: string, b: string, c: string)
    ensures (a + b) + c == a + (b + c)
  {
  }

  lemma Joined(c: char, a: string, b: string)
    ensures [c] + (a + b) == [c] + a + b
  {
  }

  lemma {:induction false} NoNul(t: string)
    requires forall i :: 0 <= i < |t| ==> t[i] != '\0'
    ensures UpToNul(t) == t
  {
    if t != [] { NoNul(t[1..]); }
  }

  /** A parameter is decoded to its name, "=" and its value. */
  lemma ParamDecoded(c: Code, p: Param)
    requires EncodesParam(c, p)
    ensures Item(c.Text()) == p.name + "=" + p.value
    ensures '&' !in c.Text() && c.Text() != []
  {
    TextHasNoStops(c.name, p.name);
    TextHasNoStops(c.value, p.value);
    ParamSpaced(c);
    ParamUnescaped(c, p);
    NoNul(p.name + "=" + p.value);
  }

  lemma ParamSpaced(c: Code)
    ensures Spaced(c.Text()) == Spaced(c.name) + ("=" + Spaced(c.value))
  {
    SpacedConcat(c.name + "=", c.value);
    SpacedConcat(c.name, "=");
    assert Spaced("=") == "=";
    Associates(Spaced(c.name), "=", Spaced(c.value));
  }

  lemma ParamUnescaped(c: Code, p: Param)
    requires EncodesParam(c, p)
    ensures Unescaped(Spaced(c.name) + ("=" + Spaced(c.value))) == p.name + "=" + p.value
  {
    var b := Spaced(c.value);
    TextDecoded(c.name, p.name, "=" + b);
    UnescapedEquals(b);
    ValueDecoded(c.value, p.value);
    Associates(p.name, "=", p.value);
  }

  lemma UnescapedEquals(u: string)
    ensures Unescaped("=" + u) == "=" + Unescaped(u)
  {
    assert ("=" + u)[1..] == u;
  }

  lemma ValueDecoded(e: string, t: string)
    requires EncodesText(e, t)
    ensures Unescaped(Spaced(e)) == t
  {
    TextDecoded(e, t, []);
    assert Spaced(e) + [] == Spaced(e);
    assert Unescaped([]) == [] && t + [] == t;
  }

  /** The first "=" of a decoded parameter ends its name. */
  lemma SplitAtFirst(p: Param)
    ensures var item := p.name + "=" + p.value;
            Param(Before(item, '='), After(item, '=')) == p <==> '=' !in p.name
  {
    var item := p.name + "=" + p.value;
    if '=' !in p.name {
      CutAt(p.name, '=', p.value);
    } else {
      BeforeStops(item, '=');
    }
  }

  lemma {:induction false} BeforeStops(t: string, stop: char)
    ensures stop !in Before(t, stop)
  {
    if t != [] && t[0] != stop { BeforeStops(t[1..], stop); }
  }

  /** What decoding makes of one parameter. */
  function Recovered(p: Param): Param {
    var item := p.name + "=" + p.value;
    Param(Before(item, '='), After(item, '='))
  }

  function RecoveredAll(ps: seq<Param>): (rs: seq<Param>)
    ensures |rs| == |ps|
  {
    seq(|ps|, i requires 0 <= i < |ps| => Recovered(ps[i]))
  }

  lemma RecoveredStep(ps: seq<Param>)
    requires ps != []
    ensures RecoveredAll(ps) == [Recovered(ps[0])] + RecoveredAll(ps[1..])
  {
  }

  lemma {:induction false} DecodeEncoded(cs: seq<Code>, ps: seq<Param>)
    requires EncodesAll(cs, ps)
    ensures Decode(Query(cs)) == RecoveredAll(ps)
    decreases |ps|
  {
    if ps != [] {
      ParamDecoded(cs[0], ps[0]);
      if |ps| == 1 {
        DecodeLast(cs[0].Text());
      } else {
        DecodeFirst(cs[0].Text(), Query(cs[1..]));
        DecodeEncoded(cs[1..], ps[1..]);
        RecoveredStep(ps);
      }
    }
  }

  function Split(item: string): Param { Param(Before(item, '='), After(item, '=')) }

  lemma DecodeFirst(e: string, rest: string)
    requires '&' !in e
    ensures Decode(e + "&" + rest) == [Split(Item(e))] + Decode(rest)
  {
    CutAt(e, '&', rest);
  }

  lemma DecodeLast(e: string)
    requires '&' !in e && e != []
    ensures Decode(e) == [Split(Item(e))]
  {
    CutNowhere(e, '&');
    assert Decode([]) == [];
  }

  /** Decoding inverts every encoding exactly if no name contains "=": escapes are decoded
      before the name is cut off. */
  lemma {:induction false} RoundTrip(cs: seq<Code>, ps: seq<Param>)
    requires EncodesAll(cs, ps)
    ensures Decode(Query(cs)) == ps <==> forall i :: 0 <= i < |ps| ==> '=' !in ps[i].name
  {
    DecodeEncoded(cs, ps);
    var rs := RecoveredAll(ps);
    forall i | 0 <= i < |ps| ensures rs[i] == ps[i] <==> '=' !in ps[i].name {
      SplitAtFirst(ps[i]);
    }
    assert Decode(Query(cs)) == rs;
    if forall i :: 0 <= i < |ps| ==> '=' !in ps[i].name {
      assert rs == ps;
    }
  }

  // ----- every parameter can be encoded -----

  function Digit(v: nat, lower: bool): (c: char)
    requires v < 16
    ensures IsHexDigit(c, v)
  {
    if v < 10 then (v + '0' as int) as char else (v - 10 + (if lower then 'a' else 'A') as int) as char
  }

  /** The text with everything escaped. */
  function EscapedText(t: string, lower: bool): (e: string)
    requires IsText(t)
    ensures EncodesText(e, t)
  {
    if t == [] then []
    else
      var first := ['%', Digit(t[0] as int / 16, lower), Digit(t[0] as int % 16, lower)];
      var rest := EscapedText(t[1..], lower);
      assert (first + rest)[..3] == first && (first + rest)[3..] == rest;
      first + rest
  }

  /** Every list of parameters has encodings, with digits in either case. */
  function EscapedParams(ps: seq<Param>, lower: bool): (cs: seq<Code>)
    requires forall i :: 0 <= i < |ps| ==> IsText(ps[i].name) && IsText(ps[i].value)
    ensures EncodesAll(cs, ps)
  {
    seq(|ps|, i requires 0 <= i < |ps| => Code(EscapedText(ps[i].name, lower), EscapedText(ps[i].value, lower)))
  }
}
