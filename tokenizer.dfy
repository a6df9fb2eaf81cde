/** The lexer pipeline of a world file: blanks removed inside parenthesised literals, lines split
    and comments dropped, words split, fixed phrases collapsed into keywords, and every word
    classified, with an end-of-file token appended. */
module Tokenizer {
  import opened Objects
  import opened Tokens

  // ---------------------------------------------------------------------------------------------
  // Removing blanks inside literals

  function Delta(c: char): int {
    if c == '(' then 1 else if c == ')' then -1 else 0
  }

  /** The nesting level after reading `s`: opening minus closing parentheses. */
  function Depth(s: string): int {
    if |s| == 0 then 0 else Depth(s[..|s| - 1]) + Delta(s[|s| - 1])
  }

  /** `s` without the spaces read while the nesting level is not zero. */
  function Stripped(s: string): (r: string)
    ensures |r| <= |s|
  {
    if |s| == 0 then ""
    else Stripped(s[..|s| - 1]) + (if s[|s| - 1] != ' ' || Depth(s) == 0 then [s[|s| - 1]] else "")
  }

  /** `s` without any space. */
  function NonSpace(s: string): string {
    if |s| == 0 then "" else NonSpace(s[..|s| - 1]) + (if s[|s| - 1] != ' ' then [s[|s| - 1]] else "")
  }

  /** No space of `r` sits inside a parenthesised group. */
  predicate NoInnerSpace(r: string) {
    forall k :: 0 <= k < |r| && r[k] == ' ' ==> Depth(r[..k + 1]) == 0
  }

  /** The character loop that drops blanks inside literals. */
  method StripLiteralSpaces(source: string) returns (s: string)
    ensures s == Stripped(source)
  {
    s := "";
    var level := 0;
    var i := 0;
    while i < |source|
      invariant 0 <= i <= |source|
      invariant level == Depth(source[..i])
      invariant s == Stripped(source[..i])
    {
      var c := source[i];
      assert source[..i + 1][..i] == source[..i];
      if c == ')' { level := level - 1; }
      if c == '(' { level := level + 1; }
      if (level != 0 && c != ' ') || level == 0 {
        s := s + [c];
      }
      i := i + 1;
    }
    assert source[..i] == source;
  }

  /** Only spaces are removed: every other character is kept, in order. */
  lemma {:induction false} StrippedKeepsNonSpace(s: string)
    ensures NonSpace(Stripped(s)) == NonSpace(s)
  {
    if |s| > 0 {
      var p := s[..|s| - 1];
      StrippedKeepsNonSpace(p);
      var kept := Stripped(p) + (if s[|s| - 1] != ' ' || Depth(s) == 0 then [s[|s| - 1]] else "");
      if s[|s| - 1] != ' ' || Depth(s) == 0 {
        assert kept[..|kept| - 1] == Stripped(p);
      } else {
        assert kept == Stripped(p);
      }
    }
  }

  /** Removing spaces leaves the nesting level unchanged. */
  lemma {:induction false} StrippedDepth(s: string)
    ensures Depth(Stripped(s)) == Depth(s)
  {
    if |s| > 0 {
      var p := s[..|s| - 1];
      StrippedDepth(p);
      var r := Stripped(s);
      assert s[..|s| - 1] == p;
      if s[|s| - 1] != ' ' || Depth(s) == 0 {
        assert r[..|r| - 1] == Stripped(p) && r[|r| - 1] == s[|s| - 1];
      } else {
        assert r == Stripped(p);
      }
    }
  }

  /** No blank is left inside a literal. */
  lemma {:induction false} StrippedHasNoInnerSpace(s: string)
    ensures NoInnerSpace(Stripped(s))
  {
    if |s| > 0 {
      var p, c := s[..|s| - 1], s[|s| - 1];
      StrippedHasNoInnerSpace(p);
      var q := Stripped(p);
      if c != ' ' || Depth(s) == 0 {
        StrippedDepth(p);
        DepthSnoc(q, c);
        SnocNoInnerSpace(q, c);
      } else {
        assert Stripped(s) == q;
      }
    }
  }

  lemma DepthSnoc(q: string, c: char)
    ensures Depth(q + [c]) == Depth(q) + Delta(c)
  {
    assert (q + [c])[..|q|] == q;
  }

  /** A character appended to a text without inner blanks keeps it so, unless it is a blank
      inside a group. */
  lemma SnocNoInnerSpace(q: string, c: char)
    requires NoInnerSpace(q)
    requires c == ' ' ==> Depth(q + [c]) == 0
    ensures NoInnerSpace(q + [c])
  {
    var r := q + [c];
    forall k | 0 <= k < |r| && r[k] == ' ' ensures Depth(r[..k + 1]) == 0 {
      if k < |q| {
        assert r[..k + 1] == q[..k + 1];
      } else {
        assert r[..k + 1] == r;
      }
    }
  }

  /** A text with no blank inside a literal is left as it is. */
  lemma {:induction false} NoInnerSpaceFixed(r: string)
    requires NoInnerSpace(r)
    ensures Stripped(r) == r
  {
    if |r| > 0 {
      var q := r[..|r| - 1];
      forall k | 0 <= k < |q| && q[k] == ' ' ensures Depth(q[..k + 1]) == 0 {
        assert q[..k + 1] == r[..k + 1];
      }
      NoInnerSpaceFixed(q);
      assert r[..|r|] == r;
    }
  }

  /** Removing blanks a second time changes nothing. */
  lemma StrippedIdempotent(s: string)
    ensures Stripped(Stripped(s)) == Stripped(s)
  {
    StrippedHasNoInnerSpace(s);
    NoInnerSpaceFixed(Stripped(s));
  }

  /** The spaces read at nesting level zero, counted. */
  function OuterSpaces(s: string): nat {
    if |s| == 0 then 0 else OuterSpaces(s[..|s| - 1]) + (if s[|s| - 1] == ' ' && Depth(s) == 0 then 1 else 0)
  }

  /** The spaces that survive are exactly those read at nesting level zero; with
      `StrippedKeepsNonSpace`, only the spaces inside a group are removed. */
  lemma {:induction false} StrippedKeepsOuterSpace(s: string)
    ensures multiset(Stripped(s))[' '] == OuterSpaces(s)
    ensures |Stripped(s)| == |s| - (multiset(s)[' '] - OuterSpaces(s))
  {
    if |s| > 0 {
      var p, c := s[..|s| - 1], s[|s| - 1];
      var extra := if c != ' ' || Depth(s) == 0 then [c] else "";
      StrippedKeepsOuterSpace(p);
      assert Stripped(s) == Stripped(p) + extra;
      CountAppend(Stripped(p), extra, ' ');
      CountSnoc(s, ' ');
    }
  }

  lemma CountAppend<T>(a: seq<T>, b: seq<T>, e: T)
    ensures multiset(a + b)[e] == multiset(a)[e] + multiset(b)[e]
  {
  }

  lemma CountSnoc<T>(a: seq<T>, e: T)
    requires |a| > 0
    ensures multiset(a)[e] == multiset(a[..|a| - 1])[e] + (if a[|a| - 1] == e then 1 else 0)
  {
    assert a == a[..|a| - 1] + [a[|a| - 1]];
  }

  // ---------------------------------------------------------------------------------------------
  // Splitting on a separator character

  /** `str::split` on one character: the pieces between separators, an empty piece included
      wherever two separators meet or the text starts or ends with one. */
  function Split(s: string, sep: char): (r: seq<string>)
    ensures |r| >= 1
  {
    if |s| == 0 then [""]
    else
      var r := Split(s[..|s| - 1], sep);
      if s[|s| - 1] == sep then r + [""] else r[..|r| - 1] + [r[|r| - 1] + [s[|s| - 1]]]
  }

  /** The pieces glued back together with the separator between them. */
  function Join(parts: seq<string>, sep: char): string
    requires |parts| >= 1
  {
    if |parts| == 1 then parts[0] else Join(parts[..|parts| - 1], sep) + [sep] + parts[|parts| - 1]
  }

  /** Splitting loses nothing: joining the pieces gives the text back. */
  lemma {:induction false} JoinSplit(s: string, sep: char)
    ensures Join(Split(s, sep), sep) == s
  {
    if |s| > 0 {
      var p := s[..|s| - 1];
      var c := s[|s| - 1];
      assert s == p + [c];
      JoinSplit(p, sep);
      var r := Split(p, sep);
      if c == sep {
        assert Split(s, sep) == r + [""];
        assert (r + [""])[..|r|] == r;
      } else if |r| == 1 {
        assert Split(s, sep) == [r[0] + [c]];
      } else {
        var r' := r[..|r| - 1] + [r[|r| - 1] + [c]];
        assert Split(s, sep) == r';
        assert r'[..|r'| - 1] == r[..|r| - 1];
        assert Join(r', sep) == Join(r[..|r| - 1], sep) + [sep] + (r[|r| - 1] + [c]);
      }
    }
  }

  /** No piece contains the separator. */
  lemma {:induction false} SplitAvoidsSeparator(s: string, sep: char)
    ensures forall i :: 0 <= i < |Split(s, sep)| ==> sep !in Split(s, sep)[i]
  {
    if |s| > 0 {
      SplitAvoidsSeparator(s[..|s| - 1], sep);
    }
  }

  /** There is one piece more than there are separators. */
  lemma {:induction false} SplitCount(s: string, sep: char)
    ensures |Split(s, sep)| == multiset(s)[sep] + 1
  {
    if |s| > 0 {
      SplitCount(s[..|s| - 1], sep);
      assert s == s[..|s| - 1] + [s[|s| - 1]];
    }
  }

  // ---------------------------------------------------------------------------------------------
  // Lines and words

  /** A line whose first character is not ASCII: taking its first byte as a string slice lands
      inside a multi-byte character, which panics. */
  predicate Garbled(line: string) {
    |line| > 0 && line[0] as int >= 0x80
  }

  /** A line that is kept: not empty and not a `#` comment. */
  predicate KeptLine(line: string) {
    |line| > 0 && line[0] != '#'
  }

  /** The space-separated fragments of the kept lines, in order, empty fragments included. */
  function Fragments(lines: seq<string>): seq<string> {
    if |lines| == 0 then []
    else Fragments(lines[..|lines| - 1]) + (if KeptLine(lines[|lines| - 1]) then Split(lines[|lines| - 1], ' ') else [])
  }

  /** The nonempty words, in order. */
  function NonEmpty(ws: seq<string>): (r: seq<string>)
    ensures forall k :: 0 <= k < |r| ==> r[k] != "" && r[k] in ws
    ensures |r| <= |ws|
  {
    if |ws| == 0 then []
    else NonEmpty(ws[..|ws| - 1]) + (if ws[|ws| - 1] != "" then [ws[|ws| - 1]] else [])
  }

  /** The filter keeps exactly the nonempty words, in order: it distributes over concatenation,
      keeps a single nonempty word and drops the empty one, so the words it keeps are the input's
      words minus every empty one. */
  lemma NonEmptyKeeps(a: seq<string>, b: seq<string>, w: string)
    ensures NonEmpty(a + b) == NonEmpty(a) + NonEmpty(b)
    ensures NonEmpty([w]) == if w == "" then [] else [w]
    ensures multiset(NonEmpty(a)) == multiset(a)["" := 0]
  {
    NonEmptyAppend(a, b);
    assert [w][..0] == [];
    NonEmptyCount(a);
  }

  lemma {:induction false} NonEmptyAppend(a: seq<string>, b: seq<string>)
    ensures NonEmpty(a + b) == NonEmpty(a) + NonEmpty(b)
    decreases |b|
  {
    if |b| == 0 {
      assert a + b == a;
    } else {
      var b' := b[..|b| - 1];
      var x := b[|b| - 1];
      assert a + b == (a + b') + [x];
      assert (a + b)[..|a + b| - 1] == a + b';
      NonEmptyAppend(a, b');
    }
  }

  lemma {:induction false} NonEmptyCount(a: seq<string>)
    ensures multiset(NonEmpty(a)) == multiset(a)["" := 0]
  {
    if |a| > 0 {
      var p, x := a[..|a| - 1], a[|a| - 1];
      var extra := if x != "" then [x] else [];
      NonEmptyCount(p);
      FilterSnoc(NonEmpty(p), a, "", extra);
    }
  }

  /** Counting after one more element: the filtered prefix plus the last element unless erased. */
  lemma FilterSnoc<T>(fp: seq<T>, a: seq<T>, e: T, extra: seq<T>)
    requires |a| > 0 && multiset(fp) == multiset(a[..|a| - 1])[e := 0]
    requires extra == if a[|a| - 1] != e then [a[|a| - 1]] else []
    ensures multiset(fp + extra) == multiset(a)[e := 0]
  {
    assert a == a[..|a| - 1] + [a[|a| - 1]];
    assert multiset(a) == multiset(a[..|a| - 1]) + multiset{a[|a| - 1]};
  }

  /** The words of a text whose literals are already free of blanks; a panic when a line starts
      with a non-ASCII character. */
  function Words(s: string): Lexed<seq<string>> {
    var lines := Split(s, '\n');
    if exists k :: 0 <= k < |lines| && Garbled(lines[k]) then Panic
    else Success(NonEmpty(Fragments(lines)))
  }

  /** Fragments come from the kept lines' pieces and so contain neither a newline nor a space
      when the lines contain no newline. */
  lemma {:induction false} FragmentsAvoidSeparators(lines: seq<string>)
    requires forall k :: 0 <= k < |lines| ==> '\n' !in lines[k]
    ensures forall k :: 0 <= k < |Fragments(lines)| ==> '\n' !in Fragments(lines)[k] && ' ' !in Fragments(lines)[k]
  {
    if |lines| > 0 {
      var l := lines[|lines| - 1];
      FragmentsAvoidSeparators(lines[..|lines| - 1]);
      SplitAvoidsSeparator(l, ' ');
      if KeptLine(l) {
        SplitAvoidsAbsent(l, ' ', '\n');
      }
    }
  }

  /** A character absent from the text is absent from every piece. */
  lemma {:induction false} SplitAvoidsAbsent(s: string, sep: char, c: char)
    requires c !in s
    ensures forall i :: 0 <= i < |Split(s, sep)| ==> c !in Split(s, sep)[i]
  {
    if |s| > 0 {
      assert s == s[..|s| - 1] + [s[|s| - 1]];
      SplitAvoidsAbsent(s[..|s| - 1], sep, c);
    }
  }

  /** Every word is nonempty and contains neither a space nor a newline. */
  lemma WordsAreWords(s: string)
    requires Words(s).Success?
    ensures forall k :: 0 <= k < |Words(s).value| ==>
      Words(s).value[k] != "" && ' ' !in Words(s).value[k] && '\n' !in Words(s).value[k]
  {
    var lines := Split(s, '\n');
    SplitAvoidsSeparator(s, '\n');
    FragmentsAvoidSeparators(lines);
  }

  // ---------------------------------------------------------------------------------------------
  // Collapsing phrases

  const WithInitialSpeedOf: seq<string> := ["with", "initial", "speed", "of"]
  const OfSizePhrase: seq<string> := ["of", "size"]

  /** The target phrase occurs in `src` at `i`. */
  predicate PhraseStarts<T(==)>(src: seq<T>, i: nat, tgt: seq<T>)
    requires i + |tgt| <= |src|
    decreases |tgt|
  {
    |tgt| == 0 || (src[i] == tgt[0] && PhraseStarts(src, i + 1, tgt[1..]))
  }

  /** Word by word, the phrase occurs at `i` exactly when the words from `i` are the phrase. */
  lemma {:induction false} PhraseStartsSlice<T>(src: seq<T>, i: nat, tgt: seq<T>)
    requires i + |tgt| <= |src|
    ensures PhraseStarts(src, i, tgt) <==> src[i..i + |tgt|] == tgt
    decreases |tgt|
  {
    if |tgt| > 0 {
      PhraseStartsSlice(src, i + 1, tgt[1..]);
      var w := src[i..i + |tgt|];
      assert w[0] == src[i] && w[1..] == src[i + 1..i + 1 + |tgt[1..]|];
      if w == tgt {
        assert w[1..] == tgt[1..];
      } else if src[i] == tgt[0] {
        assert w == [w[0]] + w[1..] && tgt == [tgt[0]] + tgt[1..];
      }
    }
  }

  /** The collapse loop's test at `i`: the phrase starts there and at least one word follows it. */
  predicate MatchAt<T(==)>(src: seq<T>, tgt: seq<T>, i: nat)
    requires i < |src|
  {
    i < |src| - |tgt| && PhraseStarts(src, i, tgt)
  }

  /** The words from `i` on, scanning left to right: where the target phrase starts and at least
      one word follows it, the phrase becomes the replacement and the scan resumes after it;
      every other word is kept. */
  function Collapsed<T(==)>(src: seq<T>, tgt: seq<T>, rep: T, i: nat): (r: seq<T>)
    requires |src| > 0 ==> |tgt| > 0
    requires i <= |src|
    decreases |src| - i
  {
    if i == |src| then []
    else if MatchAt(src, tgt, i) then [rep] + Collapsed(src, tgt, rep, i + |tgt|)
    else [src[i]] + Collapsed(src, tgt, rep, i + 1)
  }

  /** No window is tested in the last `|tgt|` words, so they are copied as they are. */
  lemma {:induction false} CollapsedTail<T>(src: seq<T>, tgt: seq<T>, rep: T, i: nat)
    requires |tgt| > 0 && i <= |src| <= i + |tgt|
    ensures Collapsed(src, tgt, rep, i) == src[i..]
    decreases |src| - i
  {
    if i < |src| {
      CollapsedTail(src, tgt, rep, i + 1);
      assert src[i..] == [src[i]] + src[i + 1..];
    }
  }

  /** A phrase that ends the word list, with no earlier word able to start it, is left unmerged
      and the words are unchanged. */
  lemma TrailingPhraseKept<T>(pre: seq<T>, tgt: seq<T>, rep: T)
    requires |tgt| > 0 && tgt[0] !in pre
    ensures Collapsed(pre + tgt, tgt, rep, 0) == pre + tgt
  {
    var src := pre + tgt;
    assert src[0..|pre|] == pre;
    CollapsedSkip(src, tgt, rep, 0, |pre|);
    CollapsedTail(src, tgt, rep, |pre|);
    assert src[0..|pre|] == pre && src[|pre|..] == tgt;
  }

  /** A phrase whose first word does not recur in it, and which ends the word list, survives at the
      end of the merged list whatever words precede it: the last window is never tested, and no
      earlier match can reach into it. */
  lemma TrailingPhraseSurvives<T>(pre: seq<T>, tgt: seq<T>, rep: T)
    requires |tgt| > 0 && tgt[0] !in tgt[1..]
    ensures var r := Collapsed(pre + tgt, tgt, rep, 0); |r| >= |tgt| && r[|r| - |tgt|..] == tgt
  {
    TrailingPhraseFrom(pre, tgt, rep, 0);
  }

  /** Both phrases the tokenizer merges meet the condition of `TrailingPhraseSurvives`. */
  lemma PhrasesHaveFreshHeads()
    ensures WithInitialSpeedOf[0] !in WithInitialSpeedOf[1..]
    ensures OfSizePhrase[0] !in OfSizePhrase[1..]
  {
  }

  lemma {:induction false} TrailingPhraseFrom<T>(pre: seq<T>, tgt: seq<T>, rep: T, i: nat)
    requires |tgt| > 0 && tgt[0] !in tgt[1..] && i <= |pre|
    ensures var r := Collapsed(pre + tgt, tgt, rep, i); |r| >= |tgt| && r[|r| - |tgt|..] == tgt
    decreases |pre| - i, 1
  {
    if i == |pre| {
      CollapsedTail(pre + tgt, tgt, rep, i);
      assert (pre + tgt)[i..] == tgt;
    } else if MatchAt(pre + tgt, tgt, i) {
      MatchCrossing(pre, tgt, i);
      ScanMatched(pre + tgt, tgt, rep, i);
      TrailingMatched(pre, tgt, rep, i);
    } else {
      ScanUnmatched(pre + tgt, tgt, rep, i);
      TrailingUnmatched(pre, tgt, rep, i);
    }
  }

  lemma {:induction false} TrailingMatched<T>(pre: seq<T>, tgt: seq<T>, rep: T, i: nat)
    requires |tgt| > 0 && tgt[0] !in tgt[1..] && i + |tgt| <= |pre|
    requires Collapsed(pre + tgt, tgt, rep, i) == [rep] + Collapsed(pre + tgt, tgt, rep, i + |tgt|)
    ensures var r := Collapsed(pre + tgt, tgt, rep, i); |r| >= |tgt| && r[|r| - |tgt|..] == tgt
    decreases |pre| - i, 0
  {
    TrailingPhraseFrom(pre, tgt, rep, i + |tgt|);
    SuffixKept([rep], Collapsed(pre + tgt, tgt, rep, i + |tgt|), tgt);
  }

  lemma {:induction false} TrailingUnmatched<T>(pre: seq<T>, tgt: seq<T>, rep: T, i: nat)
    requires |tgt| > 0 && tgt[0] !in tgt[1..] && i < |pre|
    requires Collapsed(pre + tgt, tgt, rep, i) == [(pre + tgt)[i]] + Collapsed(pre + tgt, tgt, rep, i + 1)
    ensures var r := Collapsed(pre + tgt, tgt, rep, i); |r| >= |tgt| && r[|r| - |tgt|..] == tgt
    decreases |pre| - i, 0
  {
    TrailingPhraseFrom(pre, tgt, rep, i + 1);
    SuffixKept([(pre + tgt)[i]], Collapsed(pre + tgt, tgt, rep, i + 1), tgt);
  }

  /** A match that starts in `pre` and runs into the trailing phrase puts the phrase's first word
      inside the phrase again. */
  lemma MatchCrossing<T>(pre: seq<T>, tgt: seq<T>, i: nat)
    requires i < |pre + tgt| && MatchAt(pre + tgt, tgt, i)
    ensures i + |tgt| > |pre| ==> tgt[0] in tgt[1..]
  {
    if i + |tgt| > |pre| {
      var src := pre + tgt;
      var d := |pre| - i;
      PhraseStartsSlice(src, i, tgt);
      assert src[i..i + |tgt|][d] == src[|pre|] == tgt[0];
      assert tgt[1..][d - 1] == tgt[d];
    }
  }

  lemma SuffixKept<T>(x: seq<T>, r: seq<T>, tgt: seq<T>)
    requires |r| >= |tgt| && r[|r| - |tgt|..] == tgt
    ensures |x + r| >= |tgt| && (x + r)[|x + r| - |tgt|..] == tgt
  {
    assert (x + r)[|x + r| - |tgt|..] == r[|r| - |tgt|..];
  }

  /** Collapsing never lengthens the words, and keeps at least two of them when there are two. */
  lemma {:induction false} CollapsedLength<T>(src: seq<T>, tgt: seq<T>, rep: T, i: nat)
    requires |src| > 0 ==> |tgt| > 0
    requires i <= |src|
    ensures |Collapsed(src, tgt, rep, i)| <= |src| - i
    ensures |Collapsed(src, tgt, rep, i)| >= (if |src| - i >= 2 then 2 else |src| - i)
    decreases |src| - i
  {
    if i < |src| {
      if i < |src| - |tgt| && PhraseStarts(src, i, tgt) {
        CollapsedLength(src, tgt, rep, i + |tgt|);
      } else {
        CollapsedLength(src, tgt, rep, i + 1);
      }
    }
  }

  /** Every replacement expanded back into the target phrase. */
  function Expand<T(==)>(ws: seq<T>, tgt: seq<T>, rep: T): seq<T> {
    if |ws| == 0 then [] else (if ws[0] == rep then tgt else [ws[0]]) + Expand(ws[1..], tgt, rep)
  }

  /** Collapsing loses nothing: when the replacement does not occur among the words, expanding
      it again gives the words back. */
  lemma {:induction false} ExpandCollapsed<T>(src: seq<T>, tgt: seq<T>, rep: T, i: nat)
    requires |src| > 0 ==> |tgt| > 0
    requires i <= |src|
    requires rep !in src
    ensures Expand(Collapsed(src, tgt, rep, i), tgt, rep) == src[i..]
    decreases |src| - i
  {
    if i < |src| {
      var r := Collapsed(src, tgt, rep, i);
      if i < |src| - |tgt| && PhraseStarts(src, i, tgt) {
        ExpandCollapsed(src, tgt, rep, i + |tgt|);
        PhraseStartsSlice(src, i, tgt);
        assert r[1..] == Collapsed(src, tgt, rep, i + |tgt|);
        assert src[i..] == src[i..i + |tgt|] + src[i + |tgt|..];
      } else {
        ExpandCollapsed(src, tgt, rep, i + 1);
        assert r[1..] == Collapsed(src, tgt, rep, i + 1);
        assert src[i] != rep;
        assert src[i..] == [src[i]] + src[i + 1..];
      }
    }
  }

  /** The last word is never part of a collapsed phrase. */
  lemma {:induction false} CollapsedKeepsLast<T>(src: seq<T>, tgt: seq<T>, rep: T, i: nat)
    requires |src| > 0 ==> |tgt| > 0
    requires i < |src|
    ensures Collapsed(src, tgt, rep, i)[|Collapsed(src, tgt, rep, i)| - 1] == src[|src| - 1]
    decreases |src| - i
  {
    var r := Collapsed(src, tgt, rep, i);
    if MatchAt(src, tgt, i) {
      var rest := Collapsed(src, tgt, rep, i + |tgt|);
      CollapsedKeepsLast(src, tgt, rep, i + |tgt|);
      assert r == [rep] + rest;
    } else if i + 1 < |src| {
      var rest := Collapsed(src, tgt, rep, i + 1);
      CollapsedKeepsLast(src, tgt, rep, i + 1);
      assert r == [src[i]] + rest;
    } else {
      assert r == [src[i]];
    }
  }

  /** Collapsing from `n + j` is collapsing the words from `n` on from their own index `j`. */
  lemma {:induction false} CollapsedShift<T>(src: seq<T>, tgt: seq<T>, rep: T, n: nat, j: nat)
    requires |tgt| > 0 && n + j <= |src|
    ensures Collapsed(src, tgt, rep, n + j) == Collapsed(src[n..], tgt, rep, j)
    decreases |src| - n - j, 1
  {
    if n + j < |src| {
      MatchShift(src, tgt, n, j);
      if MatchAt(src, tgt, n + j) {
        ShiftMatched(src, tgt, rep, n, j);
      } else {
        ShiftUnmatched(src, tgt, rep, n, j);
      }
    }
  }

  lemma {:induction false} ShiftMatched<T>(src: seq<T>, tgt: seq<T>, rep: T, n: nat, j: nat)
    requires |tgt| > 0 && n + j < |src|
    requires MatchAt(src, tgt, n + j) && MatchAt(src[n..], tgt, j)
    ensures Collapsed(src, tgt, rep, n + j) == Collapsed(src[n..], tgt, rep, j)
    decreases |src| - n - j, 0
  {
    var tail := src[n..];
    ScanMatched(src, tgt, rep, n + j);
    ScanMatched(tail, tgt, rep, j);
    CollapsedShift(src, tgt, rep, n, j + |tgt|);
  }

  lemma {:induction false} ShiftUnmatched<T>(src: seq<T>, tgt: seq<T>, rep: T, n: nat, j: nat)
    requires |tgt| > 0 && n + j < |src|
    requires !MatchAt(src, tgt, n + j) && !MatchAt(src[n..], tgt, j) && src[n + j] == src[n..][j]
    ensures Collapsed(src, tgt, rep, n + j) == Collapsed(src[n..], tgt, rep, j)
    decreases |src| - n - j, 0
  {
    var tail := src[n..];
    ScanUnmatched(src, tgt, rep, n + j);
    ScanUnmatched(tail, tgt, rep, j);
    CollapsedShift(src, tgt, rep, n, j + 1);
  }

  /** A step of the scan on a phrase: the replacement, then the scan after the phrase. */
  lemma ScanMatched<T>(src: seq<T>, tgt: seq<T>, rep: T, i: nat)
    requires |tgt| > 0 && i < |src| && MatchAt(src, tgt, i)
    ensures i + |tgt| < |src| && Collapsed(src, tgt, rep, i) == [rep] + Collapsed(src, tgt, rep, i + |tgt|)
  {
  }

  /** A step of the scan elsewhere: the word, then the scan after it. */
  lemma ScanUnmatched<T>(src: seq<T>, tgt: seq<T>, rep: T, i: nat)
    requires |tgt| > 0 && i < |src| && !MatchAt(src, tgt, i)
    ensures Collapsed(src, tgt, rep, i) == [src[i]] + Collapsed(src, tgt, rep, i + 1)
  {
  }

  /** The collapse loop's test at `n + j` is its test on the words from `n` at `j`. */
  lemma MatchShift<T>(src: seq<T>, tgt: seq<T>, n: nat, j: nat)
    requires n + j < |src|
    ensures MatchAt(src, tgt, n + j) == MatchAt(src[n..], tgt, j)
    ensures src[n + j] == src[n..][j]
  {
    if j < |src[n..]| - |tgt| {
      PhraseStartsSlice(src, n + j, tgt);
      PhraseStartsSlice(src[n..], j, tgt);
      assert src[n..][j..j + |tgt|] == src[n + j..n + j + |tgt|];
    }
  }

  /** Words that cannot start the phrase are copied as they are. */
  lemma {:induction false} CollapsedSkip<T>(src: seq<T>, tgt: seq<T>, rep: T, i: nat, n: nat)
    requires |tgt| > 0 && i <= n <= |src|
    requires tgt[0] !in src[i..n]
    ensures Collapsed(src, tgt, rep, i) == src[i..n] + Collapsed(src, tgt, rep, n)
    decreases n - i
  {
    if i < n {
      SliceHead(src, i, n);
      CollapsedCopies(src, tgt, rep, i);
      CollapsedSkip(src, tgt, rep, i + 1, n);
      Assoc([src[i]], src[i + 1..n], Collapsed(src, tgt, rep, n));
    }
  }

  lemma SliceHead<T>(s: seq<T>, i: nat, n: nat)
    requires i < n <= |s|
    ensures s[i..n] == [s[i]] + s[i + 1..n]
  {
  }

  lemma Assoc<T>(a: seq<T>, b: seq<T>, c: seq<T>)
    ensures a + (b + c) == (a + b) + c
  {
  }

  /** A word that cannot start the phrase is copied. */
  lemma CollapsedCopies<T>(src: seq<T>, tgt: seq<T>, rep: T, i: nat)
    requires |tgt| > 0 && i < |src| && src[i] != tgt[0]
    ensures Collapsed(src, tgt, rep, i) == [src[i]] + Collapsed(src, tgt, rep, i + 1)
  {
  }

  /** Collapsing is confluent: the full phrase and its keyword, written in the same place, give
      the same words, provided no word before them can start the phrase and some word follows. */
  lemma PhraseConfluence<T>(pre: seq<T>, post: seq<T>, tgt: seq<T>, rep: T)
    requires |tgt| > 0 && |post| > 0
    requires tgt[0] !in pre && rep != tgt[0]
    ensures Collapsed(pre + tgt + post, tgt, rep, 0) == pre + [rep] + Collapsed(post, tgt, rep, 0)
    ensures Collapsed(pre + [rep] + post, tgt, rep, 0) == pre + [rep] + Collapsed(post, tgt, rep, 0)
  {
    CollapsedAround(pre, tgt, post, tgt, rep);
    CollapsedAround(pre, [rep], post, tgt, rep);
  }

  /** The words `pre + mid + post` collapse to `pre`, one word for `mid`, and the collapse of
      `post`, when no word of `pre` starts the phrase and `mid` is the phrase or the replacement. */
  lemma CollapsedAround<T>(pre: seq<T>, mid: seq<T>, post: seq<T>, tgt: seq<T>, rep: T)
    requires |tgt| > 0 && |post| > 0
    requires tgt[0] !in pre && rep != tgt[0]
    requires mid == tgt || mid == [rep]
    ensures Collapsed(pre + mid + post, tgt, rep, 0) == pre + [rep] + Collapsed(post, tgt, rep, 0)
  {
    var src := pre + mid + post;
    var n := |pre|;
    var m := n + |mid|;
    assert src[..n] == pre;
    if mid == tgt {
      assert src[n..n + |tgt|] == tgt;
      PhraseStartsSlice(src, n, tgt);
    } else {
      assert src[n] == rep;
    }
    assert Collapsed(src, tgt, rep, n) == [rep] + Collapsed(src, tgt, rep, m);
    CollapsedWithOne(src, tgt, rep, n, m);
    assert src[..n] == pre;
    assert src[m..] == post;
  }

  /** When the collapse at `n` yields one replacement and resumes at `m`, and no word before `n`
      starts the phrase, the whole collapse is the words before `n`, the replacement, and the
      collapse of the words from `m`. */
  lemma CollapsedWithOne<T>(src: seq<T>, tgt: seq<T>, rep: T, n: nat, m: nat)
    requires |tgt| > 0 && n < m <= |src|
    requires tgt[0] !in src[..n]
    requires Collapsed(src, tgt, rep, n) == [rep] + Collapsed(src, tgt, rep, m)
    ensures Collapsed(src, tgt, rep, 0) == src[..n] + [rep] + Collapsed(src[m..], tgt, rep, 0)
  {
    var rest := Collapsed(src[m..], tgt, rep, 0);
    assert src[0..n] == src[..n];
    CollapsedSkip(src, tgt, rep, 0, n);
    CollapsedShift(src, tgt, rep, m, 0);
    assert Collapsed(src, tgt, rep, m) == rest;
    assert Collapsed(src, tgt, rep, 0) == src[0..n] + ([rep] + rest);
    assert src[0..n] == src[..n];
    assert src[..n] + ([rep] + rest) == src[..n] + [rep] + rest;
  }

  /** One iteration of the collapse loop: the word it pushes and where it resumes. */
  lemma CollapsedStep<T>(src: seq<T>, tgt: seq<T>, rep: T, i: nat, eq: bool, done: seq<T>)
    requires |src| > 0 ==> |tgt| > 0
    requires i < |src|
    requires eq <==> i < |src| - |tgt| && PhraseStarts(src, i, tgt)
    ensures done + Collapsed(src, tgt, rep, i) ==
      (done + [if eq then rep else src[i]]) + Collapsed(src, tgt, rep, if eq then i + |tgt| else i + 1)
  {
  }

  /** The inner comparison loop of the collapse: the phrase occurs at `i`. */
  method PhraseAt<T(==)>(source: seq<T>, i: nat, target: seq<T>) returns (eq: bool)
    requires i + |target| <= |source|
    ensures eq <==> PhraseStarts(source, i, target)
  {
    eq := true;
    var j := i;
    while j < i + |target|
      invariant i <= j <= i + |target|
      invariant eq <==> forall k :: i <= k < j ==> source[k] == target[k - i]
    {
      if source[j] != target[j - i] {
        eq := false;
      }
      j := j + 1;
    }
    PhraseStartsSlice(source, i, target);
    if eq {
      forall k | 0 <= k < |target| ensures source[i..i + |target|][k] == target[k] {
        assert source[i + k] == target[(i + k) - i];
      }
    } else {
      var k :| i <= k < i + |target| && source[k] != target[k - i];
      assert source[i..i + |target|][k - i] != target[k - i];
    }
  }

  /** `Tokenizer::collapse`: the phrase-matching loop. The caller must supply a nonempty phrase no
      longer than a nonempty word list, else the index arithmetic underflows. */
  method Collapse(source: seq<string>, target: seq<string>, replacement: string) returns (r: seq<string>)
    requires |source| > 0 ==> 0 < |target| <= |source|
    ensures r == Collapsed(source, target, replacement, 0)
  {
    r := [];
    var i := 0;
    while i < |source|
      invariant 0 <= i <= |source|
      invariant r + Collapsed(source, target, replacement, i) == Collapsed(source, target, replacement, 0)
      decreases |source| - i
    {
      var eq := false;
      if i < |source| - |target| {
        eq := PhraseAt(source, i, target);
      }
      CollapsedStep(source, target, replacement, i, eq, r);
      if eq {
        r := r + [replacement];
        i := i + |target| - 1;
      } else {
        r := r + [source[i]];
      }
      i := i + 1;
    }
  }

  // ---------------------------------------------------------------------------------------------
  // Classifying every word

  /** The tokens of the words followed by the end-of-file token; the first word that fails to
      classify decides the outcome. */
  function TokensOf(ws: seq<string>): Lexed<seq<Token>> {
    if |ws| == 0 then Success([EndOfFile])
    else
      match FromWord(ws[0])
      case Success(t) => Prefixed([t], TokensOf(ws[1..]))
      case Failure(e) => Failure(e)
      case Panic => Panic
  }

  /** On success there is one token per word, each the word's classification, and the end-of-file
      token last; otherwise the outcome is the failure of the first word that does not classify. */
  lemma {:induction false} TokensOfMeaning(ws: seq<string>)
    ensures TokensOf(ws).Success? ==>
      |TokensOf(ws).value| == |ws| + 1 && TokensOf(ws).value[|ws|] == EndOfFile &&
      forall k :: 0 <= k < |ws| ==> FromWord(ws[k]) == Success(TokensOf(ws).value[k])
    ensures !TokensOf(ws).Success? ==>
      exists k :: 0 <= k < |ws| && Fails(FromWord(ws[k]), TokensOf(ws)) &&
        forall j :: 0 <= j < k ==> FromWord(ws[j]).Success?
  {
    if |ws| > 0 {
      TokensOfMeaning(ws[1..]);
      var r := TokensOf(ws);
      if FromWord(ws[0]).Success? {
        var t := FromWord(ws[0]).value;
        if r.Success? {
          var ts := TokensOf(ws[1..]).value;
          assert r.value == [t] + ts;
          forall k | 0 <= k < |ws| ensures FromWord(ws[k]) == Success(r.value[k]) {
            if k > 0 {
              assert ws[k] == ws[1..][k - 1];
            }
          }
        } else {
          var k :| 0 <= k < |ws[1..]| && Fails(FromWord(ws[1..][k]), TokensOf(ws[1..])) &&
            forall j :: 0 <= j < k ==> FromWord(ws[1..][j]).Success?;
          assert Fails(FromWord(ws[k + 1]), r);
          forall j | 0 <= j < k + 1 ensures FromWord(ws[j]).Success? {
            if j > 0 {
              assert ws[j] == ws[1..][j - 1];
            }
          }
        }
      } else {
        assert Fails(FromWord(ws[0]), r);
      }
    }
  }

  /** A word's failed classification and a failed pipeline outcome are the same failure. */
  predicate Fails(t: Lexed<Token>, r: Lexed<seq<Token>>) {
    (t.Panic? && r.Panic?) || (t.Failure? && r.Failure? && t.error == r.error)
  }

  /** Tokens `done` in front of the outcome for the remaining words. */
  function Prefixed(done: seq<Token>, rest: Lexed<seq<Token>>): Lexed<seq<Token>> {
    match rest
    case Success(ts) => Success(done + ts)
    case Failure(e) => Failure(e)
    case Panic => Panic
  }

  lemma PrefixedTwice(a: seq<Token>, b: seq<Token>, rest: Lexed<seq<Token>>)
    ensures Prefixed(a, Prefixed(b, rest)) == Prefixed(a + b, rest)
  {
    if rest.Success? {
      assert a + (b + rest.value) == (a + b) + rest.value;
    }
  }

  // ---------------------------------------------------------------------------------------------
  // The whole pipeline

  /** The tokens of a world file. Between one and three words make the first collapse underflow
      and panic; every other outcome is decided by the words' classification. */
  function Tokenized(source: string): Lexed<seq<Token>> {
    match Words(Stripped(source))
    case Panic => Panic
    case Failure(e) => Failure(e)
    case Success(words) =>
      if 0 < |words| < |WithInitialSpeedOf| then Panic
      else
        var once := Collapsed(words, WithInitialSpeedOf, "wiso", 0);
        CollapsedLength(words, WithInitialSpeedOf, "wiso", 0);
        TokensOf(Collapsed(once, OfSizePhrase, "ofsize", 0))
  }

  /** A successful tokenization ends with the end-of-file token, which occurs nowhere else. */
  lemma TokenizedEndsOnce(source: string)
    requires Tokenized(source).Success?
    ensures var ts := Tokenized(source).value;
      |ts| > 0 && ts[|ts| - 1] == EndOfFile && forall k :: 0 <= k < |ts| - 1 ==> ts[k] != EndOfFile
  {
    var words := Words(Stripped(source)).value;
    var once := Collapsed(words, WithInitialSpeedOf, "wiso", 0);
    CollapsedLength(words, WithInitialSpeedOf, "wiso", 0);
    var ws := Collapsed(once, OfSizePhrase, "ofsize", 0);
    TokensOfMeaning(ws);
    forall k | 0 <= k < |ws| ensures FromWord(ws[k]).Success? ==> FromWord(ws[k]).value != EndOfFile {
      FromWordNotEndOfFile(ws[k]);
    }
  }

  /** Tokenization never reports an unexpected end of word. */
  lemma TokenizedNeverUnexpectedEOF(source: string)
    ensures Tokenized(source) != Failure(UnexpectedEOF)
  {
    if Words(Stripped(source)).Success? {
      var words := Words(Stripped(source)).value;
      if !(0 < |words| < |WithInitialSpeedOf|) {
        var once := Collapsed(words, WithInitialSpeedOf, "wiso", 0);
        CollapsedLength(words, WithInitialSpeedOf, "wiso", 0);
        var ws := Collapsed(once, OfSizePhrase, "ofsize", 0);
        TokensOfMeaning(ws);
        if TokensOf(ws).Failure? {
          var k :| 0 <= k < |ws| && Fails(FromWord(ws[k]), TokensOf(ws)) &&
            forall j :: 0 <= j < k ==> FromWord(ws[j]).Success?;
          NeverUnexpectedEOF(ws[k]);
        }
      }
    }
  }

  /** `Tokenizer::tokenize`. */
  method Tokenize(source: string) returns (r: Lexed<seq<Token>>)
    ensures r == Tokenized(source)
  {
    var s := StripLiteralSpaces(source);
    var words := Words(s);
    if words.Panic? {
      return Panic;
    }
    var binding := words.value;
    if 0 < |binding| < |WithInitialSpeedOf| {
      return Panic;
    }
    CollapsedLength(binding, WithInitialSpeedOf, "wiso", 0);
    binding := Collapse(binding, WithInitialSpeedOf, "wiso");
    binding := Collapse(binding, OfSizePhrase, "ofsize");

    r := ClassifyAll(binding);
  }

  /** The classification loop of `Tokenizer::tokenize`: every word in order, stopping at the first
      failure, then the end-of-file token. */
  method ClassifyAll(binding: seq<string>) returns (r: Lexed<seq<Token>>)
    ensures r == TokensOf(binding)
  {
    var tokens: seq<Token> := [];
    var i := 0;
    assert binding[0..] == binding;
    assert Prefixed([], TokensOf(binding)) == TokensOf(binding) by {
      if TokensOf(binding).Success? {
        assert [] + TokensOf(binding).value == TokensOf(binding).value;
      }
    }
    while i < |binding|
      invariant 0 <= i <= |binding|
      invariant TokensOf(binding) == Prefixed(tokens, TokensOf(binding[i..]))
    {
      assert binding[i..][1..] == binding[i + 1..];
      var t := TokenFrom(binding[i]);
      if !t.Success? {
        return if t.Panic? then Panic else Failure(t.error);
      }
      PrefixedTwice(tokens, [t.value], TokensOf(binding[i + 1..]));
      tokens := tokens + [t.value];
      i := i + 1;
    }
    assert binding[i..] == [];
    r := Success(tokens + [EndOfFile]);
  }
}
