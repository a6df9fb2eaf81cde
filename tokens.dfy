/** The tokens of the world definition language and the classification of one word
    (keyword, vector literal `(x,y)`, scalar literal with an optional `px` suffix). */
module Tokens {
  import opened Objects

  /** Rust's `i32`. Literals are unsigned digit groups, so only `0 ..= I32Max` is ever produced. */
  newtype i32 = x: int | -0x8000_0000 <= x < 0x8000_0000

  const I32Max: int := 0x7FFF_FFFF

  datatype Option<T> = None | Some(value: T)

  datatype TokenizerError = UnknownToken(word: string) | UnexpectedEOF | UnknownUnit(suffix: string)

  /** The suffix of a scalar literal: none, or `px`. */
  datatype UnitSuffix = Default | Pixel

  datatype Token =
    | Unit
    | Kind(kind: ObjectKind)
    | Is
    | At
    | OfSize
    | WithIS
    | Vector(x: i32, y: i32)
    | Scalar(value: i32, unit: UnitSuffix)
    | EndOfFile

  /** What a lexer operation comes to: a value, an error it returns, or a panic (an `unwrap` of a
      failed integer parse, an arithmetic underflow, a string slice off a character boundary). */
  datatype Lexed<T> = Success(value: T) | Failure(error: TokenizerError) | Panic

  predicate IsDigit(c: char) { '0' <= c <= '9' }

  predicate AllDigits(d: string) { forall k :: 0 <= k < |d| ==> IsDigit(d[k]) }

  function DigitValue(c: char): nat
    requires IsDigit(c)
  {
    (c as int) - ('0' as int)
  }

  /** The number a string of decimal digits denotes (leading zeros allowed). */
  function DigitsValue(d: string): nat
    requires AllDigits(d)
  {
    if |d| == 0 then 0 else DigitsValue(d[..|d| - 1]) * 10 + DigitValue(d[|d| - 1])
  }

  /** `str::parse::<i32>` on a buffer: it succeeds exactly on a nonempty digit string whose value
      fits in an `i32`, and then yields that value. */
  function ParseI32(d: string): (r: Option<i32>)
    ensures r.Some? <==> |d| > 0 && AllDigits(d) && DigitsValue(d) <= I32Max
    ensures r.Some? ==> r.value as int == DigitsValue(d)
  {
    if |d| > 0 && AllDigits(d) && DigitsValue(d) <= I32Max then Some(DigitsValue(d) as i32) else None
  }

  /** The shortest decimal spelling of a natural number. */
  function Decimal(n: nat): (d: string)
    ensures |d| > 0 && AllDigits(d)
    decreases n
  {
    if n < 10 then [('0' as int + n) as char] else Decimal(n / 10) + [('0' as int + n % 10) as char]
  }

  /** Reading back a printed number gives the number. */
  lemma {:induction false} DecimalValue(n: nat)
    ensures DigitsValue(Decimal(n)) == n
    decreases n
  {
    if n >= 10 {
      DecimalValue(n / 10);
      var d := Decimal(n);
      assert d[..|d| - 1] == Decimal(n / 10);
    }
  }

  /** States of the literal automaton. */
  datatype VectorParsingState = Initial | X | Y | Bidimensional | ScalarDefault | ScalarUnit | Done

  /** Whether a vector was opened, and the two numbers read so far. */
  datatype Parsed = Parsed(isVector: bool, first: i32, second: i32)

  /** The automaton's state, its character buffer and what it has parsed. */
  datatype Scan = Scan(state: VectorParsingState, buffer: string, parsed: Parsed)

  const Start: Scan := Scan(Initial, "", Parsed(false, 0, 0))

  /** One transition on character `c` while classifying `word`. The character is pushed on the
      buffer first; where the automaton then pops, the buffer is as it was before `c`. */
  function Step(word: string, sc: Scan, c: char): Lexed<Scan> {
    var pushed := sc.buffer + [c];
    match sc.state
    case Initial =>
      if c == '(' then Success(Scan(X, "", sc.parsed.(isVector := true)))
      else if IsDigit(c) then Success(Scan(ScalarDefault, pushed, sc.parsed))
      else Failure(UnknownToken(word))
    case X =>
      if IsDigit(c) then Success(sc.(buffer := pushed))
      else if c == ',' then
        match ParseI32(sc.buffer)
        case None => Panic
        case Some(v) => Success(Scan(Y, "", sc.parsed.(first := v)))
      else Failure(UnknownToken(word))
    case Y =>
      if IsDigit(c) then Success(sc.(buffer := pushed))
      else if c == ')' then
        match ParseI32(sc.buffer)
        case None => Panic
        case Some(v) => Success(Scan(Bidimensional, "", sc.parsed.(second := v)))
      else Failure(UnknownToken(word))
    case Bidimensional =>
      if c == '\n' then Success(Scan(Done, pushed, sc.parsed)) else Failure(UnknownToken(word))
    case ScalarDefault =>
      if IsDigit(c) then Success(sc.(buffer := pushed))
      else if c == '\n' || c == 'p' then
        match ParseI32(sc.buffer)
        case None => Panic
        case Some(v) =>
          Success(Scan(if c == 'p' then ScalarUnit else Done, if c == 'p' then "p" else "",
                       sc.parsed.(first := v)))
      else Failure(UnknownToken(word))
    case ScalarUnit =>
      if c == '\n' then Success(sc.(state := Done)) else Success(sc.(buffer := pushed))
    case Done =>
      Failure(UnknownToken(word))
  }

  /** The automaton run over `w` from outcome `r`; an error or a panic ends the run. */
  function ScanFrom(word: string, r: Lexed<Scan>, w: string): Lexed<Scan>
    decreases |w|
  {
    if |w| == 0 then r
    else
      match ScanFrom(word, r, w[..|w| - 1])
      case Success(sc) => Step(word, sc, w[|w| - 1])
      case Failure(e) => Failure(e)
      case Panic => Panic
  }

  /** The token the automaton's final outcome stands for. */
  function Finish(r: Lexed<Scan>): Lexed<Token> {
    match r
    case Panic => Panic
    case Failure(e) => Failure(e)
    case Success(sc) =>
      if sc.state != Done then Failure(UnexpectedEOF)
      else if sc.parsed.isVector then Success(Vector(sc.parsed.first, sc.parsed.second))
      else if sc.buffer == "px" then Success(Scalar(sc.parsed.first, Pixel))
      else if sc.buffer == "" then Success(Scalar(sc.parsed.first, Default))
      else Failure(UnknownUnit(sc.buffer))
  }

  /** A word that is not a keyword: the automaton run over the word and a terminating newline. */
  function Literal(word: string): Lexed<Token> {
    Finish(ScanFrom(word, Success(Start), word + "\n"))
  }

  predicate IsKeyword(word: string) {
    word in {"Unit", "Spike", "Player", "Wall", "is", "at", "ofsize", "wiso"}
  }

  /** The token of one word: keywords first, then the literal grammar. */
  function FromWord(word: string): Lexed<Token> {
    if word == "Unit" then Success(Unit)
    else if word == "Spike" || word == "Player" || word == "Wall" then Success(Kind(KindNamed(word)))
    else if word == "is" then Success(Is)
    else if word == "at" then Success(At)
    else if word == "ofsize" then Success(OfSize)
    else if word == "wiso" then Success(WithIS)
    else Literal(word)
  }

  // ---------------------------------------------------------------------------------------------
  // How runs compose

  lemma {:induction false} ScanFromAppend(word: string, r: Lexed<Scan>, u: string, v: string)
    ensures ScanFrom(word, r, u + v) == ScanFrom(word, ScanFrom(word, r, u), v)
    decreases |v|
  {
    if |v| == 0 {
      assert u + v == u;
    } else {
      assert (u + v)[..|u + v| - 1] == u + v[..|v| - 1];
      ScanFromAppend(word, r, u, v[..|v| - 1]);
    }
  }

  /** An error or a panic is final. */
  lemma {:induction false} ScanFromStops(word: string, r: Lexed<Scan>, w: string)
    requires !r.Success?
    ensures ScanFrom(word, r, w) == r
    decreases |w|
  {
    if |w| > 0 {
      ScanFromStops(word, r, w[..|w| - 1]);
    }
  }

  /** In the digit-reading states, digits are pushed on the buffer and nothing else happens. */
  lemma {:induction false} ScanDigits(word: string, sc: Scan, d: string)
    requires sc.state == X || sc.state == Y || sc.state == ScalarDefault
    requires AllDigits(d)
    ensures ScanFrom(word, Success(sc), d) == Success(sc.(buffer := sc.buffer + d))
    decreases |d|
  {
    if |d| == 0 {
      assert sc.buffer + d == sc.buffer;
    } else {
      ScanDigits(word, sc, d[..|d| - 1]);
      assert sc.buffer + d[..|d| - 1] + [d[|d| - 1]] == sc.buffer + d;
    }
  }

  /** After a `p`, everything up to the newline is the unit suffix. */
  lemma {:induction false} ScanSuffix(word: string, sc: Scan, u: string)
    requires sc.state == ScalarUnit
    requires '\n' !in u
    ensures ScanFrom(word, Success(sc), u) == Success(sc.(buffer := sc.buffer + u))
    decreases |u|
  {
    if |u| == 0 {
      assert sc.buffer + u == sc.buffer;
    } else {
      ScanSuffix(word, sc, u[..|u| - 1]);
      assert sc.buffer + u[..|u| - 1] + [u[|u| - 1]] == sc.buffer + u;
    }
  }

  // ---------------------------------------------------------------------------------------------
  // The literal grammar

  /** A run over one character is one transition. */
  lemma ScanOne(word: string, sc: Scan, c: char)
    ensures ScanFrom(word, Success(sc), [c]) == Step(word, sc, c)
  {
    assert [c][..0] == [];
  }

  /** The only error the automaton itself reports is the unknown word. */
  lemma {:induction false} ScanRejectsAsUnknown(word: string, w: string)
    ensures ScanFrom(word, Success(Start), w).Failure? ==>
            ScanFrom(word, Success(Start), w).error == UnknownToken(word)
    decreases |w|
  {
    if |w| > 0 {
      ScanRejectsAsUnknown(word, w[..|w| - 1]);
    }
  }

  /** Nothing may follow a completed literal. */
  lemma DoneRejects(word: string, sc: Scan, w: string)
    requires sc.state == Done && |w| > 0
    ensures ScanFrom(word, Success(sc), w) == Failure(UnknownToken(word))
  {
    ScanFromAppend(word, Success(sc), [w[0]], w[1..]);
    assert [w[0]] + w[1..] == w;
    ScanOne(word, sc, w[0]);
    ScanFromStops(word, Failure(UnknownToken(word)), w[1..]);
  }

  /** The fixed words and the three kind names. */
  lemma KeywordTokens()
    ensures FromWord("Unit") == Success(Unit) && FromWord("is") == Success(Is)
    ensures FromWord("at") == Success(At) && FromWord("ofsize") == Success(OfSize)
    ensures FromWord("wiso") == Success(WithIS)
    ensures FromWord("Spike") == Success(Kind(Spike)) && FromWord("Wall") == Success(Kind(Wall))
    ensures FromWord("Player") == Success(Kind(Player(Jumping, 0)))
  {
  }

  /** A word that is not a keyword is classified by the automaton. */
  lemma NotKeyword(word: string)
    requires !IsKeyword(word)
    ensures FromWord(word) == Literal(word)
  {
  }

  /** The terminating newline either completes the literal or is rejected. */
  lemma StepNewline(word: string, sc: Scan)
    ensures Step(word, sc, '\n').Success? ==> Step(word, sc, '\n').value.state == Done
  {
  }

  /** Classification never reports an unexpected end of word: the terminating newline always
      either completes the literal or is rejected by the automaton. */
  lemma NeverUnexpectedEOF(word: string)
    ensures FromWord(word) != Failure(UnexpectedEOF)
  {
    if !IsKeyword(word) {
      NotKeyword(word);
      ScanFromAppend(word, Success(Start), word, "\n");
      var r := ScanFrom(word, Success(Start), word);
      if r.Success? {
        ScanOne(word, r.value, '\n');
        StepNewline(word, r.value);
      } else {
        ScanFromStops(word, r, "\n");
        ScanRejectsAsUnknown(word, word);
      }
    }
  }

  /** A leading digit group puts the automaton in the scalar state with the digits buffered. */
  lemma ScanLeadingDigits(word: string, d: string)
    requires |d| > 0 && AllDigits(d)
    ensures ScanFrom(word, Success(Start), d) == Success(Scan(ScalarDefault, d, Start.parsed))
  {
    var sc := Scan(ScalarDefault, [d[0]], Start.parsed);
    ScanOne(word, Start, d[0]);
    assert Start.buffer + [d[0]] == [d[0]];
    assert Step(word, Start, d[0]) == Success(sc);
    ScanDigits(word, sc, d[1..]);
    assert [d[0]] + d[1..] == d;
    ScanFromAppend(word, Success(Start), [d[0]], d[1..]);
  }

  /** A bare digit group is a scalar without unit, or a panic when it does not fit in an `i32`. */
  lemma ScalarWord(d: string)
    requires |d| > 0 && AllDigits(d)
    ensures FromWord(d) ==
      if DigitsValue(d) <= I32Max then Success(Scalar(DigitsValue(d) as i32, Default)) else Panic
  {
    assert !IsKeyword(d) by { assert IsDigit(d[0]); }
    NotKeyword(d);
    ScanDigitWord(d);
  }

  /** The run over a digit group and the terminating newline. */
  lemma ScanDigitWord(d: string)
    requires |d| > 0 && AllDigits(d)
    ensures ScanFrom(d, Success(Start), d + "\n") ==
      if DigitsValue(d) <= I32Max then Success(Scan(Done, "", Parsed(false, DigitsValue(d) as i32, 0)))
      else Panic
  {
    ScanLeadingDigits(d, d);
    ScanFromAppend(d, Success(Start), d, "\n");
    ScanOne(d, Scan(ScalarDefault, d, Start.parsed), '\n');
  }

  /** A digit group followed by `p` and a suffix: a pixel scalar when the suffix is `px`, an unknown
      unit carrying the suffix otherwise, and a panic when the number does not fit. */
  lemma SuffixedWord(d: string, u: string)
    requires |d| > 0 && AllDigits(d) && '\n' !in u
    ensures FromWord(d + "p" + u) ==
      if DigitsValue(d) > I32Max then Panic
      else if "p" + u == "px" then Success(Scalar(DigitsValue(d) as i32, Pixel))
      else Failure(UnknownUnit("p" + u))
  {
    var word := d + "p" + u;
    assert !IsKeyword(word) by { assert word[0] == d[0] && IsDigit(d[0]); }
    NotKeyword(word);
    ScanSuffixedWord(word, d, u);
  }

  /** The run over a digit group, `p`, a suffix and the terminating newline. */
  lemma ScanSuffixedWord(word: string, d: string, u: string)
    requires |d| > 0 && AllDigits(d) && '\n' !in u
    ensures ScanFrom(word, Success(Start), d + "p" + u + "\n") ==
      if DigitsValue(d) > I32Max then Panic
      else Success(Scan(Done, "p" + u, Parsed(false, DigitsValue(d) as i32, 0)))
  {
    ScanLeadingDigits(word, d);
    ScanFromAppend(word, Success(Start), d, "p");
    ScanOne(word, Scan(ScalarDefault, d, Start.parsed), 'p');
    assert d + "p" + u + "\n" == (d + "p") + (u + "\n");
    ScanFromAppend(word, Success(Start), d + "p", u + "\n");
    if DigitsValue(d) > I32Max {
      ScanFromStops(word, Panic, u + "\n");
    } else {
      var su := Scan(ScalarUnit, "p", Start.parsed.(first := DigitsValue(d) as i32));
      ScanSuffix(word, su, u);
      ScanFromAppend(word, Success(su), u, "\n");
      ScanOne(word, su.(buffer := "p" + u), '\n');
    }
  }

  /** `(a,b)` followed by `rest`: a vector when both groups are nonempty and fit and nothing follows
      the closing parenthesis; a panic when a group is empty or too large (the first group is read
      first); and an unknown token when something follows. */
  lemma VectorWord(a: string, b: string, rest: string)
    requires AllDigits(a) && AllDigits(b)
    ensures FromWord("(" + a + "," + b + ")" + rest) ==
      if ParseI32(a).None? || ParseI32(b).None? then Panic
      else if rest == "" then Success(Vector(ParseI32(a).value, ParseI32(b).value))
      else Failure(UnknownToken("(" + a + "," + b + ")" + rest))
  {
    var word := "(" + a + "," + b + ")" + rest;
    assert !IsKeyword(word) by { assert word[0] == '('; }
    NotKeyword(word);
    var tail := b + ")" + rest + "\n";
    assert word + "\n" == "(" + a + "," + tail;
    ScanFromAppend(word, Success(Start), "(" + a + ",", tail);
    VectorFirst(word, a);
    if ParseI32(a).None? {
      ScanFromStops(word, Panic, tail);
    } else {
      VectorSecond(word, ParseI32(a).value, b, rest);
    }
  }

  /** Reading `(a,`: a panic when `a` does not parse, the second group's state otherwise. */
  lemma VectorFirst(word: string, a: string)
    requires AllDigits(a)
    ensures ScanFrom(word, Success(Start), "(" + a + ",") ==
      if ParseI32(a).None? then Panic else Success(Scan(Y, "", Parsed(true, ParseI32(a).value, 0)))
  {
    var opening := Scan(X, "", Parsed(true, 0, 0));
    ScanOne(word, Start, '(');
    ScanDigits(word, opening, a);
    assert "" + a == a;
    ScanFromAppend(word, Success(Start), "(", a);
    ScanFromAppend(word, Success(Start), "(" + a, ",");
    ScanOne(word, opening.(buffer := a), ',');
  }

  /** Reading `b)` after `(a,`: a panic when `b` does not parse, the closed vector otherwise. */
  lemma VectorClose(word: string, x: i32, b: string)
    requires AllDigits(b)
    ensures ScanFrom(word, Success(Scan(Y, "", Parsed(true, x, 0))), b + ")") ==
      if ParseI32(b).None? then Panic else Success(Scan(Bidimensional, "", Parsed(true, x, ParseI32(b).value)))
  {
    var second := Scan(Y, "", Parsed(true, x, 0));
    ScanDigits(word, second, b);
    assert "" + b == b;
    ScanFromAppend(word, Success(second), b, ")");
    ScanOne(word, second.(buffer := b), ')');
  }

  /** After the closing parenthesis only the terminating newline is accepted. */
  lemma VectorEnd(word: string, closed: Scan, rest: string)
    requires closed.state == Bidimensional
    ensures ScanFrom(word, Success(closed), rest + "\n") ==
      if rest == "" then Success(closed.(state := Done, buffer := closed.buffer + "\n"))
      else Failure(UnknownToken(word))
  {
    var t := rest + "\n";
    ScanFromAppend(word, Success(closed), [t[0]], t[1..]);
    assert [t[0]] + t[1..] == t;
    ScanOne(word, closed, t[0]);
    if rest != "" {
      if t[0] == '\n' {
        DoneRejects(word, closed.(state := Done, buffer := closed.buffer + "\n"), t[1..]);
      } else {
        ScanFromStops(word, Failure(UnknownToken(word)), t[1..]);
      }
    } else {
      assert t[1..] == [];
    }
  }

  /** Reading `b)rest` and the newline after `(a,`. */
  lemma VectorSecond(word: string, x: i32, b: string, rest: string)
    requires AllDigits(b)
    ensures Finish(ScanFrom(word, Success(Scan(Y, "", Parsed(true, x, 0))), b + ")" + rest + "\n")) ==
      if ParseI32(b).None? then Panic
      else if rest == "" then Success(Vector(x, ParseI32(b).value))
      else Failure(UnknownToken(word))
  {
    var second := Scan(Y, "", Parsed(true, x, 0));
    VectorClose(word, x, b);
    assert b + ")" + rest + "\n" == (b + ")") + (rest + "\n");
    ScanFromAppend(word, Success(second), b + ")", rest + "\n");
    if ParseI32(b).None? {
      ScanFromStops(word, Panic, rest + "\n");
    } else {
      VectorEnd(word, Scan(Bidimensional, "", Parsed(true, x, ParseI32(b).value)), rest);
    }
  }

  /** A digit group followed by a character other than a digit, `p` or the newline is an unknown
      token, whatever follows it. */
  lemma ScalarStray(d: string, c: char, rest: string)
    requires |d| > 0 && AllDigits(d) && !IsDigit(c) && c != 'p' && c != '\n'
    ensures FromWord(d + [c] + rest) == Failure(UnknownToken(d + [c] + rest))
  {
    var word := d + [c] + rest;
    assert !IsKeyword(word) by { assert word[0] == d[0] && IsDigit(d[0]); }
    NotKeyword(word);
    assert word + "\n" == (d + [c]) + (rest + "\n");
    ScanStray(word, d, c);
    ScanFromAppend(word, Success(Start), d + [c], rest + "\n");
    ScanFromStops(word, Failure(UnknownToken(word)), rest + "\n");
  }

  lemma ScanStray(word: string, d: string, c: char)
    requires |d| > 0 && AllDigits(d) && !IsDigit(c) && c != 'p' && c != '\n'
    ensures ScanFrom(word, Success(Start), d + [c]) == Failure(UnknownToken(word))
  {
    ScanLeadingDigits(word, d);
    ScanFromAppend(word, Success(Start), d, [c]);
    ScanOne(word, Scan(ScalarDefault, d, Start.parsed), c);
  }

  /** Inside the first group of a vector, a character other than a digit or `,` (a sign, say)
      makes the word an unknown token. */
  lemma VectorInterrupted(a: string, c: char, rest: string)
    requires AllDigits(a) && !IsDigit(c) && c != ','
    ensures FromWord("(" + a + [c] + rest) == Failure(UnknownToken("(" + a + [c] + rest))
  {
    var word := "(" + a + [c] + rest;
    assert !IsKeyword(word) by { assert word[0] == '('; }
    NotKeyword(word);
    assert word + "\n" == ("(" + a + [c]) + (rest + "\n");
    ScanInterrupted(word, a, c);
    ScanFromAppend(word, Success(Start), "(" + a + [c], rest + "\n");
    ScanFromStops(word, Failure(UnknownToken(word)), rest + "\n");
  }

  lemma ScanInterrupted(word: string, a: string, c: char)
    requires AllDigits(a) && !IsDigit(c) && c != ','
    ensures ScanFrom(word, Success(Start), "(" + a + [c]) == Failure(UnknownToken(word))
  {
    var opening := Scan(X, "", Parsed(true, 0, 0));
    ScanOne(word, Start, '(');
    ScanDigits(word, opening, a);
    assert "" + a == a;
    ScanFromAppend(word, Success(Start), "(", a);
    ScanFromAppend(word, Success(Start), "(" + a, [c]);
    ScanOne(word, opening.(buffer := a), c);
  }

  /** A vector without its closing parenthesis is an unknown token, once its first group has been
      read. */
  lemma VectorUnclosed(a: string, b: string)
    requires AllDigits(a) && AllDigits(b)
    ensures FromWord("(" + a + "," + b) ==
      if ParseI32(a).None? then Panic else Failure(UnknownToken("(" + a + "," + b))
  {
    var word := "(" + a + "," + b;
    assert !IsKeyword(word) by { assert word[0] == '('; }
    NotKeyword(word);
    assert word + "\n" == ("(" + a + ",") + (b + "\n");
    ScanFromAppend(word, Success(Start), "(" + a + ",", b + "\n");
    VectorFirst(word, a);
    if ParseI32(a).None? {
      ScanFromStops(word, Panic, b + "\n");
    } else {
      VectorOpen(word, ParseI32(a).value, b);
    }
  }

  /** The newline inside the second group of a vector is rejected. */
  lemma VectorOpen(word: string, x: i32, b: string)
    requires AllDigits(b)
    ensures ScanFrom(word, Success(Scan(Y, "", Parsed(true, x, 0))), b + "\n") == Failure(UnknownToken(word))
  {
    var second := Scan(Y, "", Parsed(true, x, 0));
    ScanDigits(word, second, b);
    assert "" + b == b;
    ScanFromAppend(word, Success(second), b, "\n");
    ScanOne(word, second.(buffer := b), '\n');
  }

  /** Inside the second group of a vector, a character other than a digit or `)` (a sign, a second
      comma) makes the word an unknown token, once the first group has been read. */
  lemma VectorSecondInterrupted(a: string, b: string, c: char, rest: string)
    requires AllDigits(a) && AllDigits(b) && !IsDigit(c) && c != ')'
    ensures FromWord("(" + a + "," + b + [c] + rest) ==
      if ParseI32(a).None? then Panic else Failure(UnknownToken("(" + a + "," + b + [c] + rest))
  {
    var word := "(" + a + "," + b + [c] + rest;
    assert !IsKeyword(word) by { assert word[0] == '('; }
    NotKeyword(word);
    var tail := b + [c] + rest + "\n";
    assert word + "\n" == ("(" + a + ",") + tail;
    ScanFromAppend(word, Success(Start), "(" + a + ",", tail);
    VectorFirst(word, a);
    if ParseI32(a).None? {
      ScanFromStops(word, Panic, tail);
    } else {
      VectorSecondTail(word, Scan(Y, "", Parsed(true, ParseI32(a).value, 0)), b, c, rest);
    }
  }

  lemma VectorSecondTail(word: string, second: Scan, b: string, c: char, rest: string)
    requires second.state == Y && AllDigits(b) && !IsDigit(c) && c != ')'
    ensures ScanFrom(word, Success(second), b + [c] + rest + "\n") == Failure(UnknownToken(word))
  {
    ScanSecondInterrupted(word, second, b, c);
    assert b + [c] + rest + "\n" == (b + [c]) + (rest + "\n");
    ScanFromAppend(word, Success(second), b + [c], rest + "\n");
    ScanFromStops(word, Failure(UnknownToken(word)), rest + "\n");
  }

  lemma ScanSecondInterrupted(word: string, second: Scan, b: string, c: char)
    requires second.state == Y && AllDigits(b) && !IsDigit(c) && c != ')'
    ensures ScanFrom(word, Success(second), b + [c]) == Failure(UnknownToken(word))
  {
    ScanDigits(word, second, b);
    ScanFromAppend(word, Success(second), b, [c]);
    ScanOne(word, second.(buffer := second.buffer + b), c);
  }

  /** A word that is neither a keyword nor starts like a literal is an unknown token. */
  lemma OtherWord(word: string)
    requires !IsKeyword(word)
    requires |word| == 0 || (word[0] != '(' && !IsDigit(word[0]))
    ensures FromWord(word) == Failure(UnknownToken(word))
  {
    NotKeyword(word);
    var w := word + "\n";
    ScanFromAppend(word, Success(Start), [w[0]], w[1..]);
    assert [w[0]] + w[1..] == w;
    ScanOne(word, Start, w[0]);
    ScanFromStops(word, Failure(UnknownToken(word)), w[1..]);
  }

  /** A word never stands for the end-of-file token, and a literal is a vector or a scalar. */
  lemma FromWordNotEndOfFile(word: string)
    ensures FromWord(word).Success? ==> FromWord(word).value != EndOfFile
    ensures FromWord(word).Success? && !IsKeyword(word) ==>
      FromWord(word).value.Vector? || FromWord(word).value.Scalar?
  {
  }

  /** Printing a pair of numbers in the vector syntax and reading it back gives the pair. */
  lemma VectorRoundTrip(x: i32, y: i32)
    requires 0 <= x && 0 <= y
    ensures FromWord("(" + Decimal(x as nat) + "," + Decimal(y as nat) + ")") == Success(Vector(x, y))
  {
    DecimalValue(x as nat);
    DecimalValue(y as nat);
    VectorWord(Decimal(x as nat), Decimal(y as nat), "");
    assert "(" + Decimal(x as nat) + "," + Decimal(y as nat) + ")" + "" ==
           "(" + Decimal(x as nat) + "," + Decimal(y as nat) + ")";
  }

  /** Printing a scalar, bare or with `px`, and reading it back gives the scalar. */
  lemma ScalarRoundTrip(n: i32, unit: UnitSuffix)
    requires 0 <= n
    ensures FromWord(Decimal(n as nat) + (if unit == Pixel then "px" else "")) == Success(Scalar(n, unit))
  {
    DecimalValue(n as nat);
    if unit == Pixel {
      SuffixedWord(Decimal(n as nat), "x");
      assert Decimal(n as nat) + "p" + "x" == Decimal(n as nat) + "px";
    } else {
      ScalarWord(Decimal(n as nat));
      assert Decimal(n as nat) + "" == Decimal(n as nat);
    }
  }

  // ---------------------------------------------------------------------------------------------
  // The imperative classifier

  /** What one character does to the literal automaton: the body of the loop of `Token::from`,
      which pushes the character and then, in some states, pops it again. */
  method ScanChar(s: string, state0: VectorParsingState, buffer0: string, parsed0: Parsed, c: char)
    returns (state: VectorParsingState, buffer: string, parsed: Parsed,
             error: Option<TokenizerError>, panicked: bool)
    ensures Step(s, Scan(state0, buffer0, parsed0), c) ==
      if panicked then Panic
      else if error.Some? then Failure(error.value)
      else Success(Scan(state, buffer, parsed))
  {
    state, buffer, parsed, error, panicked := state0, buffer0, parsed0, None, false;
    buffer := buffer + [c];
    match state {
      case Initial =>
        if c == '(' {
          buffer := "";
          parsed := parsed.(isVector := true);
          state := X;
        } else if IsDigit(c) {
          state := ScalarDefault;
        } else {
          error := Some(UnknownToken(s));
        }
      case X =>
        if IsDigit(c) {
        } else if c == ',' {
          buffer := buffer[..|buffer| - 1];
          var v := ParseI32(buffer);
          if v.None? {
            panicked := true;
          } else {
            parsed := parsed.(first := v.value);
            buffer := "";
            state := Y;
          }
        } else {
          error := Some(UnknownToken(s));
        }
      case Y =>
        if IsDigit(c) {
        } else if c == ')' {
          buffer := buffer[..|buffer| - 1];
          var v := ParseI32(buffer);
          if v.None? {
            panicked := true;
          } else {
            parsed := parsed.(second := v.value);
            buffer := "";
            state := Bidimensional;
          }
        } else {
          error := Some(UnknownToken(s));
        }
      case Bidimensional =>
        if c == '\n' {
          state := Done;
        } else {
          error := Some(UnknownToken(s));
        }
      case ScalarDefault =>
        if IsDigit(c) {
        } else if c == '\n' || c == 'p' {
          buffer := buffer[..|buffer| - 1];
          var v := ParseI32(buffer);
          if v.None? {
            panicked := true;
          } else {
            parsed := parsed.(first := v.value);
            buffer := "";
            if c == 'p' {
              buffer := "p";
              state := ScalarUnit;
            } else {
              state := Done;
            }
          }
        } else {
          error := Some(UnknownToken(s));
        }
      case ScalarUnit =>
        if c == '\n' {
          buffer := buffer[..|buffer| - 1];
          state := Done;
        }
      case Done =>
        error := Some(UnknownToken(s));
    }
  }

  /** `Token::from`: keyword match, else the character loop of the literal automaton. */
  method TokenFrom(s: string) returns (r: Lexed<Token>)
    ensures r == FromWord(s)
  {
    if s == "Unit" { return Success(Unit); }
    if s == "Spike" || s == "Player" || s == "Wall" { return Success(Kind(KindNamed(s))); }
    if s == "is" { return Success(Is); }
    if s == "at" { return Success(At); }
    if s == "ofsize" { return Success(OfSize); }
    if s == "wiso" { return Success(WithIS); }
    NotKeyword(s);
    r := ScanLiteral(s);
  }

  lemma SplitJoin<T>(s: seq<T>, k: nat)
    requires k <= |s|
    ensures s[..k] + s[k..] == s
  {
  }

  /** The fallback arm of `Token::from`: the character loop of the literal automaton over the word
      and a terminating newline, then the reading of its final state. */
  method ScanLiteral(s: string) returns (r: Lexed<Token>)
    ensures r == Literal(s)
  {
    var word := s + "\n";
    var state := Initial;
    var buffer := "";
    var parsed := Parsed(false, 0, 0);
    var error: Option<TokenizerError> := None;
    var panicked := false;

    var i := 0;
    while i < |word|
      invariant 0 <= i <= |word|
      invariant ScanFrom(s, Success(Start), word[..i]) == Success(Scan(state, buffer, parsed))
      invariant error.None? && !panicked
    {
      var c := word[i];
      ghost var before := Scan(state, buffer, parsed);
      assert word[..i + 1][..i] == word[..i];
      state, buffer, parsed, error, panicked := ScanChar(s, state, buffer, parsed, c);
      assert ScanFrom(s, Success(Start), word[..i + 1]) == Step(s, before, c);
      if panicked || error.Some? {
        r := if panicked then Panic else Failure(error.value);
        ghost var stopped: Lexed<Scan> := if panicked then Panic else Failure(error.value);
        assert ScanFrom(s, Success(Start), word[..i + 1]) == stopped;
        ScanFromStops(s, stopped, word[i + 1..]);
        ScanFromAppend(s, Success(Start), word[..i + 1], word[i + 1..]);
        SplitJoin(word, i + 1);
        return;
      }
      i := i + 1;
    }
    assert word[..i] == word;

    if state == Done {
      if parsed.isVector {
        r := Success(Vector(parsed.first, parsed.second));
      } else if buffer == "px" {
        r := Success(Scalar(parsed.first, Pixel));
      } else if buffer == "" {
        r := Success(Scalar(parsed.first, Default));
      } else {
        r := Failure(UnknownUnit(buffer));
      }
    } else {
      r := Failure(UnexpectedEOF);
    }
  }
}
