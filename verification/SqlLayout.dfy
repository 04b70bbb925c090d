/** How a statement may be laid out: any white space between the words, none where the words stay apart without it, and
    keywords in any case. */
module SqlLayout {
  import opened Machine
  import opened Names
  import opened Decimal
  import opened Ast
  import opened Tokenizer
  import opened Grammar
  import opened SqlText
  import opened SqlWords

  /** Gaps and words in turn. */
  function Interleave(gaps: seq<string>, words: seq<string>): string
    requires |gaps| == |words| + 1
  {
    if words == [] then gaps[0] else gaps[0] + words[0] + Interleave(gaps[1..], words[1..])
  }

  /** Two words that are read apart when nothing stands between them. */
  predicate ApartAsTheyAre(a: string, b: string) {
    a != "" && b != "" ==>
      && (NameCode(a[0]) && !(48 <= a[0] as int <= 57) ==> !NameCode(b[0]))
      && (48 <= a[0] as int <= 57 || a[0] == '-' ==> !(48 <= b[0] as int <= 57))
      && (a == "<" ==> b[0] != '=' && b[0] != '>') && (a == ">" ==> b[0] != '=')
  }

  /** White space everywhere, and enough of it. */
  ghost predicate Separated(gaps: seq<string>, words: seq<string>) {
    && |gaps| == |words| + 1
    && (forall i :: 0 <= i < |gaps| ==> SpaceCodes(gaps[i]))
    && (forall i :: 0 < i < |words| ==> gaps[i] != "" || ApartAsTheyAre(words[i - 1], words[i]))
  }

  // ---------------------------------------------------------------- laying out tokens

  function Sources(tokens: seq<Token>): (words: seq<string>)
    ensures |words| == |tokens| && forall i :: 0 <= i < |words| ==> words[i] == Source(tokens[i])
  {
    seq(|tokens|, i requires 0 <= i < |tokens| => Source(tokens[i]))
  }

  /** The tokens at the places they have between the gaps. */
  function Positioned(gaps: seq<string>, tokens: seq<Token>, position: nat): seq<Token>
    requires |gaps| == |tokens| + 1
  {
    if tokens == [] then []
    else
      var at := position + |gaps[0]|;
      [tokens[0].(position := at)] + Positioned(gaps[1..], tokens[1..], at + |Source(tokens[0])|)
  }

  ghost predicate SameKeys(placed: seq<Token>, tokens: seq<Token>) {
    forall b {:trigger Seal(b)} :: Seal(b) ==> Keys(placed) == Keys(tokens)
  }

  lemma SameKeysMore(t: Token, at: nat, placed: seq<Token>, rest: seq<Token>)
    requires SameKeys(placed, rest)
    ensures SameKeys([t.(position := at)] + placed, [t] + rest)
  {
    KeysHead(t.(position := at), placed);
    KeysHead(t, rest);
  }

  lemma SameKeysNothing()
    ensures SameKeys([], [])
  {
  }

  lemma {:induction false} PositionedKeys(gaps: seq<string>, tokens: seq<Token>, position: nat)
    requires |gaps| == |tokens| + 1
    ensures SameKeys(Positioned(gaps, tokens, position), tokens)
    decreases |tokens|
  {
    if tokens == [] {
      SameKeysNothing();
    } else {
      var at := position + |gaps[0]|;
      var next := at + |Source(tokens[0])|;
      PositionedKeys(gaps[1..], tokens[1..], next);
      SameKeysMore(tokens[0], at, Positioned(gaps[1..], tokens[1..], next), tokens[1..]);
      assert tokens == [tokens[0]] + tokens[1..];
    }
  }

  lemma SpaceIsBlank(gap: string)
    requires SpaceCodes(gap)
    ensures Blank(gap)
  {
  }

  /** What may follow a token so that it ends there. */
  ghost predicate EndsAt(kind: TokenType, next: char) {
    || IsSpace(next)
    || (if IsWord(kind) then !WordChar(next)
        else if kind == Number then !IsDigit(next)
        else if kind == LessThan then next != '=' && next != '>'
        else if kind == GreaterThan then next != '='
        else true)
  }

  ghost predicate EndsBefore(kind: TokenType, rest: string) {
    rest != "" ==> EndsAt(kind, rest[0])
  }

  lemma SpaceEnds(c: char)
    requires IsSpace(c)
    ensures !WordChar(c) && !IsDigit(c) && c != '=' && c != '>'
  {
  }

  lemma StandsBetween(prefix: string, t: Token, rest: string)
    requires WellSpelled(t) && t.position == |prefix| && EndsBefore(t.kind, rest)
    ensures Stands(prefix + Source(t) + rest, t)
  {
    assert Shut(true);
    var input, end := prefix + Source(t) + rest, t.position + |Source(t)|;
    assert input[t.position..end] == Source(t);
    if rest != "" {
      assert input[end] == rest[0];
      if IsSpace(rest[0]) {
        SpaceEnds(rest[0]);
      }
    }
    assert Complete(input, t.kind, end);
  }

  lemma FirstOfWord(t: Token)
    requires WellSpelled(t)
    ensures Source(t) != ""
    ensures IsWord(t.kind) ==> NameCode(Source(t)[0]) && !(48 <= Source(t)[0] as int <= 57)
    ensures t.kind == Number ==> 48 <= Source(t)[0] as int <= 57 || Source(t)[0] == '-'
    ensures t.kind == LessThan ==> Source(t) == "<"
    ensures t.kind == GreaterThan ==> Source(t) == ">"
  {
    assert Shut(true);
  }

  /** Between two words that are apart the first one ends. */
  lemma GapEnds(t: Token, gap: string, word: string, more: string)
    requires WellSpelled(t) && SpaceCodes(gap) && (gap != "" || ApartAsTheyAre(Source(t), word)) && word != ""
    ensures EndsBefore(t.kind, gap + word + more)
  {
    FirstOfWord(t);
    var rest := gap + word + more;
    if gap != "" {
      assert rest[0] == gap[0];
    } else {
      assert rest[0] == word[0];
    }
  }

  lemma OnlyGapEnds(t: Token, gap: string)
    requires SpaceCodes(gap)
    ensures EndsBefore(t.kind, gap)
  {
  }

  lemma RestEnds(t: Token, gaps: seq<string>, words: seq<string>)
    requires WellSpelled(t) && |gaps| == |words| + 1 && SpaceCodes(gaps[0])
    requires words != [] ==> words[0] != "" && (gaps[0] != "" || ApartAsTheyAre(Source(t), words[0]))
    ensures EndsBefore(t.kind, Interleave(gaps, words))
  {
    if words == [] {
      OnlyGapEnds(t, gaps[0]);
    } else {
      GapEnds(t, gaps[0], words[0], Interleave(gaps[1..], words[1..]));
    }
  }

  lemma GapBefore(input: string, index: nat, t: Token, tokens: seq<Token>)
    requires index <= t.position <= |input| && SpaceCodes(input[index..t.position])
    requires ReadsAs(input, t.position, [t] + tokens)
    ensures ReadsAs(input, index, [t] + tokens)
  {
    assert Shut(true);
    SpaceIsBlank(input[index..t.position]);
  }

  lemma GapText(prefix: string, gap: string, word: string, rest: string)
    ensures prefix + (gap + word + rest) == (prefix + gap) + word + rest
    ensures (prefix + gap + word + rest)[|prefix|..|prefix| + |gap|] == gap
    ensures |prefix + gap + word| == |prefix| + |gap| + |word|
  {
  }

  lemma OneMore(prefix: string, gap: string, t: Token, rest: string, tokens: seq<Token>)
    requires SpaceCodes(gap) && WellSpelled(t) && EndsBefore(t.kind, rest)
    requires ReadsAs(prefix + gap + Source(t) + rest, |prefix + gap + Source(t)|, tokens)
    ensures ReadsAs(prefix + (gap + Source(t) + rest), |prefix|, [t.(position := |prefix| + |gap|)] + tokens)
  {
    var m := t.(position := |prefix| + |gap|);
    var input := prefix + gap + Source(t) + rest;
    MovedToken(t, |prefix| + |gap|);
    GapText(prefix, gap, Source(t), rest);
    StandsBetween(prefix + gap, m, rest);
    ReadStep(input, m, tokens);
    GapBefore(input, |prefix|, m, tokens);
  }

  lemma NothingMore(prefix: string, gap: string)
    requires SpaceCodes(gap)
    ensures ReadsAs(prefix + gap, |prefix|, [])
  {
    assert (prefix + gap)[|prefix|..] == gap;
    SpaceIsBlank(gap);
  }

  ghost predicate NoneEmpty(words: seq<string>) {
    forall i :: 0 <= i < |words| ==> words[i] != ""
  }

  lemma SourcesTail(tokens: seq<Token>)
    requires tokens != []
    ensures Sources(tokens)[1..] == Sources(tokens[1..]) && Sources(tokens)[0] == Source(tokens[0])
  {
  }

  lemma SpelledNotEmpty(tokens: seq<Token>)
    requires AllSpelled(tokens)
    ensures NoneEmpty(Sources(tokens))
  {
    forall i | 0 <= i < |tokens| ensures Sources(tokens)[i] != "" {
      FirstOfWord(tokens[i]);
    }
  }

  lemma SeparatedTail(gaps: seq<string>, words: seq<string>)
    requires Separated(gaps, words) && words != []
    ensures SpaceCodes(gaps[0]) && SpaceCodes(gaps[1]) && Separated(gaps[1..], words[1..])
    ensures |words| > 1 ==> gaps[1] != "" || ApartAsTheyAre(words[0], words[1])
  {
    forall i | 0 < i < |words[1..]| ensures gaps[1..][i] != "" || ApartAsTheyAre(words[1..][i - 1], words[1..][i]) {
      assert gaps[i + 1] != "" || ApartAsTheyAre(words[i], words[i + 1]);
    }
  }

  ghost predicate WellLaid(gaps: seq<string>, tokens: seq<Token>) {
    forall b {:trigger Seal(b)} :: Seal(b) ==>
      AllSpelled(tokens) && Separated(gaps, Sources(tokens)) && NoneEmpty(Sources(tokens))
  }

  lemma LaidHead(gaps: seq<string>, tokens: seq<Token>)
    requires WellLaid(gaps, tokens) && tokens != [] && |gaps| == |tokens| + 1
    ensures SpaceCodes(gaps[0]) && WellSpelled(tokens[0])
    ensures EndsBefore(tokens[0].kind, Interleave(gaps[1..], Sources(tokens[1..])))
  {
    assert Seal(true);
    var words := Sources(tokens);
    SourcesTail(tokens);
    SeparatedTail(gaps, words);
    assert |words| > 1 ==> words[1..][0] == words[1];
    RestEnds(tokens[0], gaps[1..], words[1..]);
  }

  lemma LaidTail(gaps: seq<string>, tokens: seq<Token>)
    requires WellLaid(gaps, tokens) && tokens != [] && |gaps| == |tokens| + 1
    ensures WellLaid(gaps[1..], tokens[1..])
  {
    assert Seal(true);
    SourcesTail(tokens);
    TailSpelled(tokens);
    SeparatedTail(gaps, Sources(tokens));
  }

  ghost predicate ReadInPlace(prefix: string, gaps: seq<string>, tokens: seq<Token>)
    requires |gaps| == |tokens| + 1
  {
    forall b {:trigger Seal(b)} :: Seal(b) ==>
      ReadsAs(prefix + Interleave(gaps, Sources(tokens)), |prefix|, Positioned(gaps, tokens, |prefix|))
  }

  lemma InPlaceOpen(prefix: string, gaps: seq<string>, tokens: seq<Token>)
    requires |gaps| == |tokens| + 1 && ReadInPlace(prefix, gaps, tokens)
    ensures ReadsAs(prefix + Interleave(gaps, Sources(tokens)), |prefix|, Positioned(gaps, tokens, |prefix|))
  {
    assert Seal(true);
  }

  lemma InPlaceClose(prefix: string, gaps: seq<string>, tokens: seq<Token>, text: string, placed: seq<Token>)
    requires |gaps| == |tokens| + 1 && ReadsAs(prefix + text, |prefix|, placed)
    requires text == Interleave(gaps, Sources(tokens)) && placed == Positioned(gaps, tokens, |prefix|)
    ensures ReadInPlace(prefix, gaps, tokens)
  {
  }

  lemma InPlaceNothing(prefix: string, gap: string)
    requires SpaceCodes(gap)
    ensures ReadInPlace(prefix, [gap], [])
  {
    NothingMore(prefix, gap);
  }

  lemma InPlaceMore(prefix: string, gap: string, t: Token, gaps: seq<string>, tokens: seq<Token>)
    requires |gaps| == |tokens| + 1 && SpaceCodes(gap) && WellSpelled(t)
    requires EndsBefore(t.kind, Interleave(gaps, Sources(tokens)))
    requires ReadInPlace(prefix + gap + Source(t), gaps, tokens)
    ensures ReadInPlace(prefix, [gap] + gaps, [t] + tokens)
  {
    var before := prefix + gap + Source(t);
    InPlaceOpen(before, gaps, tokens);
    OneMore(prefix, gap, t, Interleave(gaps, Sources(tokens)), Positioned(gaps, tokens, |before|));
    CloseMore(prefix, gap, t, gaps, tokens);
  }

  lemma CloseMore(prefix: string, gap: string, t: Token, gaps: seq<string>, tokens: seq<Token>)
    requires |gaps| == |tokens| + 1
    requires ReadsAs(prefix + (gap + Source(t) + Interleave(gaps, Sources(tokens))), |prefix|,
                     [t.(position := |prefix| + |gap|)] + Positioned(gaps, tokens, |prefix + gap + Source(t)|))
    ensures ReadInPlace(prefix, [gap] + gaps, [t] + tokens)
  {
    SplitText(gap, t, gaps, tokens);
    SplitPositions(prefix, gap, t, gaps, tokens);
    InPlaceClose(prefix, [gap] + gaps, [t] + tokens, gap + Source(t) + Interleave(gaps, Sources(tokens)),
                 [t.(position := |prefix| + |gap|)] + Positioned(gaps, tokens, |prefix + gap + Source(t)|));
  }

  lemma SplitText(gap: string, t: Token, gaps: seq<string>, tokens: seq<Token>)
    requires |gaps| == |tokens| + 1
    ensures Interleave([gap] + gaps, Sources([t] + tokens)) == gap + Source(t) + Interleave(gaps, Sources(tokens))
  {
    assert ([gap] + gaps)[1..] == gaps && ([t] + tokens)[1..] == tokens;
    SourcesTail([t] + tokens);
  }

  lemma SplitPositions(prefix: string, gap: string, t: Token, gaps: seq<string>, tokens: seq<Token>)
    requires |gaps| == |tokens| + 1
    ensures Positioned([gap] + gaps, [t] + tokens, |prefix|)
      == [t.(position := |prefix| + |gap|)] + Positioned(gaps, tokens, |prefix + gap + Source(t)|)
  {
    assert ([gap] + gaps)[1..] == gaps && ([t] + tokens)[1..] == tokens;
    LengthOfThree(prefix, gap, Source(t));
  }

  lemma LengthOfThree<T>(a: seq<T>, b: seq<T>, c: seq<T>)
    ensures |a + b + c| == |a| + |b| + |c|
  {
  }

  lemma HeadAndTail<T>(s: seq<T>)
    requires s != []
    ensures s == [s[0]] + s[1..]
  {
  }

  /** Tokens laid out with white space between them are read as those tokens. */
  lemma {:induction false} LayoutReads(prefix: string, gaps: seq<string>, tokens: seq<Token>)
    requires |gaps| == |tokens| + 1 && WellLaid(gaps, tokens) && SpaceCodes(gaps[|tokens|])
    ensures ReadInPlace(prefix, gaps, tokens)
    decreases |tokens|
  {
    HeadAndTail(gaps);
    if tokens == [] {
      InPlaceNothing(prefix, gaps[0]);
    } else {
      HeadAndTail(tokens);
      LaidHead(gaps, tokens);
      LaidTail(gaps, tokens);
      LayoutReads(prefix + gaps[0] + Source(tokens[0]), gaps[1..], tokens[1..]);
      InPlaceMore(prefix, gaps[0], tokens[0], gaps[1..], tokens[1..]);
    }
  }

  // ---------------------------------------------------------------- the words of a statement

  function WordsOf(ks: seq<Key>): (words: seq<string>)
    ensures |words| == |ks| && forall i :: 0 <= i < |words| ==> words[i] == Source(TokenOf(ks[i]))
  {
    seq(|ks|, i requires 0 <= i < |ks| => Source(TokenOf(ks[i])))
  }

  /** The words, each followed by one blank. */
  function OneBlankAfter(words: seq<string>): string {
    if words == [] then "" else (words[0] + " ") + OneBlankAfter(words[1..])
  }

  lemma {:induction false} SpelledWords(ks: seq<Key>)
    ensures Spelled(ks) == OneBlankAfter(WordsOf(ks))
  {
    if ks != [] {
      assert WordsOf(ks)[1..] == WordsOf(ks[1..]);
      SpelledWords(ks[1..]);
    }
  }

  /** The words of a statement are those of its text. */
  lemma StatementWords(s: Statement)
    ensures OneBlankAfter(WordsOf(StatementKeys(s))) == StatementText(s)
  {
    match s {
      case Selecting(q) => SelectSpelled(q);
      case Inserting(q) => InsertSpelled(q);
    }
    assert Seal(true);
    SpelledWords(StatementKeys(s));
  }

  predicate Keyword(word: string) {
    || SameName(word, "select") || SameName(word, "from") || SameName(word, "where")
    || SameName(word, "insert") || SameName(word, "into") || SameName(word, "values")
  }

  /** How a word may be written: a keyword in any case, `!=` also as `<>`, everything else as it is. */
  predicate WrittenFor(written: string, word: string) {
    written == word || (Keyword(word) && SameName(written, word)) || (word == "!=" && written == "<>")
  }

  function TokenFor(k: Key, written: string): Token {
    Token(k.kind, if k.kind == StringToken then k.text else written, 0)
  }

  predicate Letters(s: string) {
    s != "" && forall i :: 0 <= i < |s| ==> IsAlpha(s[i])
  }

  lemma LettersInAnyCase(a: string, b: string)
    requires SameName(a, b) && Letters(b)
    ensures Letters(a)
  {
    SameNameMeaning(a, b);
    forall i | 0 <= i < |a| ensures IsAlpha(a[i]) {
      assert SameLetter(a[i], b[i]);
    }
  }

  lemma SelectLetters()
    ensures Letters("select") && Letters("from") && Letters("where")
  {
  }

  lemma InsertLetters()
    ensures Letters("insert") && Letters("into") && Letters("values")
  {
  }

  lemma WordLetters(word: string, keyword: string)
    requires Letters(keyword)
    ensures SameName(word, keyword) ==> Letters(word)
  {
    if SameName(word, keyword) {
      LettersInAnyCase(word, keyword);
    }
  }

  lemma KeywordLetters(word: string)
    requires Keyword(word)
    ensures Letters(word) && !WordKind(word).Identifier?
  {
    KeywordWords(word);
    SelectLetters();
    InsertLetters();
    WordLetters(word, "select");
    WordLetters(word, "from");
    WordLetters(word, "where");
    WordLetters(word, "insert");
    WordLetters(word, "into");
    WordLetters(word, "values");
  }

  /** A keyword is a keyword in any case. */
  lemma KeywordFits(k: Key, written: string)
    requires Spellable(k) && Keyword(Source(TokenOf(k))) && SameName(written, Source(TokenOf(k)))
    ensures WellSpelled(TokenFor(k, written)) && KeyOf(TokenFor(k, written)) == k
    ensures Source(TokenFor(k, written)) == written
  {
    var word := Source(TokenOf(k));
    KeywordLetters(word);
    LettersInAnyCase(written, word);
    AnyCase(written, word);
    WordKinds(k);
  }

  /** The kind of a key whose text is a keyword. */
  lemma WordKinds(k: Key)
    requires Spellable(k) && Letters(Source(TokenOf(k))) && !WordKind(Source(TokenOf(k))).Identifier?
    ensures IsWord(k.kind) && !HasText(k.kind) && k.text == "" && WordKind(Source(TokenOf(k))) == k.kind
  {
    KeyKept(k);
    assert Shut(true);
  }

  lemma SameFits(k: Key, written: string)
    requires Spellable(k) && (written == Source(TokenOf(k)) || (Source(TokenOf(k)) == "!=" && written == "<>"))
    ensures WellSpelled(TokenFor(k, written)) && KeyOf(TokenFor(k, written)) == k
    ensures Source(TokenFor(k, written)) == written
  {
    KeyKept(k);
    assert Shut(true);
  }

  function TokensFor(ks: seq<Key>, written: seq<string>): (tokens: seq<Token>)
    requires |written| == |ks|
    ensures |tokens| == |ks| && forall i :: 0 <= i < |tokens| ==> tokens[i] == TokenFor(ks[i], written[i])
  {
    seq(|ks|, i requires 0 <= i < |ks| => TokenFor(ks[i], written[i]))
  }

  ghost predicate AllWrittenFor(written: seq<string>, words: seq<string>) {
    |written| == |words| && forall i :: 0 <= i < |written| ==> WrittenFor(written[i], words[i])
  }

  lemma TokensFit(ks: seq<Key>, written: seq<string>)
    requires AllSpellable(ks) && AllWrittenFor(written, WordsOf(ks))
    ensures AllSpelled(TokensFor(ks, written)) && Keys(TokensFor(ks, written)) == ks
    ensures Sources(TokensFor(ks, written)) == written
  {
    forall i | 0 <= i < |ks|
      ensures WellSpelled(TokenFor(ks[i], written[i])) && KeyOf(TokenFor(ks[i], written[i])) == ks[i]
      ensures Source(TokenFor(ks[i], written[i])) == written[i]
    {
      assert WrittenFor(written[i], WordsOf(ks)[i]);
      if Keyword(Source(TokenOf(ks[i]))) && SameName(written[i], Source(TokenOf(ks[i]))) {
        KeywordFits(ks[i], written[i]);
      } else {
        SameFits(ks[i], written[i]);
      }
    }
  }

  lemma LayoutLexes(gaps: seq<string>, tokens: seq<Token>)
    requires AllSpelled(tokens) && Separated(gaps, Sources(tokens))
    ensures var placed := Positioned(gaps, tokens, 0);
      Lexes(Interleave(gaps, Sources(tokens)), 0, placed) && Keys(placed) == Keys(tokens)
  {
    SpelledNotEmpty(tokens);
    LayoutReads("", gaps, tokens);
    PositionedKeys(gaps, tokens, 0);
    assert Seal(true) && Shut(true);
    assert "" + Interleave(gaps, Sources(tokens)) == Interleave(gaps, Sources(tokens));
  }

  /** The keys of a statement, with or without a semicolon. */
  function Closed(s: Statement, semicolon: bool): seq<Key> {
    if semicolon then StatementKeys(s) + [Plain(Semicolon)] else StatementKeys(s)
  }

  lemma ClosedSpellable(s: Statement, semicolon: bool)
    requires Writable(s)
    ensures AllSpellable(Closed(s, semicolon))
  {
    match s {
      case Selecting(q) => SelectSpellable(q);
      case Inserting(q) => InsertSpellable(q);
    }
    PlainSpellable(Semicolon);
    SpellableConcat(StatementKeys(s), [Plain(Semicolon)]);
  }

  /** However it is laid out, a statement means itself and nothing else: any white space between the words of its text,
      none where they stay apart without it, keywords in any case, with or without a semicolon at the end. */
  lemma AnyLayoutMeans(s: Statement, semicolon: bool, written: seq<string>, gaps: seq<string>, s': Statement)
    requires Writable(s) && AllWrittenFor(written, WordsOf(StatementKeys(s)) + if semicolon then [";"] else [])
    requires Separated(gaps, written)
    ensures Means(Interleave(gaps, written), s') <==> s' == s
  {
    var ks := Closed(s, semicolon);
    ClosedSpellable(s, semicolon);
    assert WordsOf(ks) == WordsOf(StatementKeys(s)) + if semicolon then [";"] else [];
    TokensFit(ks, written);
    LayoutLexes(gaps, TokensFor(ks, written));
    assert Means(Interleave(gaps, written), s);
    if Means(Interleave(gaps, written), s') {
      MeansOne(Interleave(gaps, written), s, s');
    }
  }
}
