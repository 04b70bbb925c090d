/** The SQL tokenizer: what a sequence of tokens says about the text it came from, and the scan that
    finds the one sequence there is. */
module Tokenizer {
  import opened Machine
  import opened Names
  import opened Decimal

  datatype TokenType =
    | Eof | Identifier | StringToken | Number
    | Insert | Into | Values | Select | From | Where
    | Star | Comma | LeftParen | RightParen | Semicolon
    | Equals | NotEquals | LessThan | LessEqual | GreaterThan | GreaterEqual

  datatype Token = Token(kind: TokenType, lexeme: string, position: nat)

  predicate IsAlpha(c: char) {
    'a' <= c <= 'z' || 'A' <= c <= 'Z'
  }

  predicate WordStart(c: char) {
    IsAlpha(c) || c == '_'
  }

  predicate WordChar(c: char) {
    IsAlpha(c) || IsDigit(c) || c == '_'
  }

  /** The character classes by ASCII code. */
  lemma CharacterClasses(c: char)
    ensures IsSpace(c) <==> c as int == 32 || 9 <= c as int <= 13
    ensures IsDigit(c) <==> 48 <= c as int <= 57
    ensures WordStart(c) <==> 65 <= c as int <= 90 || 97 <= c as int <= 122 || c as int == 95
    ensures WordChar(c) <==> WordStart(c) || IsDigit(c)
  {
  }

  /** Keywords are recognised whatever their case. */
  function WordKind(text: string): TokenType {
    if SameName(text, "INSERT") then Insert
    else if SameName(text, "INTO") then Into
    else if SameName(text, "VALUES") then Values
    else if SameName(text, "SELECT") then Select
    else if SameName(text, "FROM") then From
    else if SameName(text, "WHERE") then Where
    else Identifier
  }

  /** A word is the same keyword, or none, in whatever case it is written. */
  lemma AnyCase(text: string, text': string)
    requires SameName(text, text')
    ensures WordKind(text) == WordKind(text')
  {
  }

  lemma LowerKeywords()
    ensures LowerAll("INSERT") == LowerAll("insert") == "insert" && LowerAll("INTO") == LowerAll("into") == "into"
    ensures LowerAll("VALUES") == LowerAll("values") == "values" && LowerAll("SELECT") == LowerAll("select") == "select"
    ensures LowerAll("FROM") == LowerAll("from") == "from" && LowerAll("WHERE") == LowerAll("where") == "where"
  {
  }

  /** The keywords are these six words. */
  lemma KeywordWords(text: string)
    ensures WordKind(text) == TokenType.Select <==> SameName(text, "select")
    ensures WordKind(text) == From <==> SameName(text, "from")
    ensures WordKind(text) == Where <==> SameName(text, "where")
    ensures WordKind(text) == TokenType.Insert <==> SameName(text, "insert")
    ensures WordKind(text) == Into <==> SameName(text, "into")
    ensures WordKind(text) == Values <==> SameName(text, "values")
  {
    LowerKeywords();
  }

  ghost predicate KindOfWord(kind: TokenType, text: string) {
    forall b {:trigger Shut(b)} :: Shut(b) ==> kind == WordKind(text)
  }

  lemma OneKind(text: string, a: TokenType, b: TokenType)
    requires KindOfWord(a, text) && KindOfWord(b, text)
    ensures a == b
  {
    assert Shut(true);
  }

  predicate IsWord(kind: TokenType) {
    kind.Identifier? || kind.Insert? || kind.Into? || kind.Values? || kind.Select? || kind.From? || kind.Where?
  }

  // ---------------------------------------------------------------- what a token looks like

  /** The spellings of the symbols. */
  predicate Symbol(kind: TokenType, text: string) {
    match kind
    case Star => text == "*"
    case Comma => text == ","
    case LeftParen => text == "("
    case RightParen => text == ")"
    case Semicolon => text == ";"
    case Equals => text == "="
    case NotEquals => text == "!=" || text == "<>"
    case LessThan => text == "<"
    case LessEqual => text == "<="
    case GreaterThan => text == ">"
    case GreaterEqual => text == ">="
    case _ => false
  }

  ghost predicate WordShape(text: string) {
    text != "" && WordStart(text[0]) && forall i :: 0 <= i < |text| ==> WordChar(text[i])
  }

  ghost predicate NumberShape(text: string) {
    text != "" && if text[0] == '-' then |text| > 1 && AllDigits(text[1..]) else AllDigits(text)
  }

  /** The lexemes a token of each kind can have. */
  ghost predicate Lexeme(kind: TokenType, text: string) {
    if kind == StringToken then '\'' !in text
    else if kind == Number then NumberShape(text)
    else if IsWord(kind) then WordShape(text) && KindOfWord(kind, text)
    else Symbol(kind, text)
  }

  /** The text a token stands for: its lexeme, with the quotes put back around a string. */
  function Source(t: Token): string {
    if t.kind == StringToken then "'" + t.lexeme + "'" else t.lexeme
  }

  /** A token ends where it cannot be continued. */
  ghost predicate Complete(input: string, kind: TokenType, end: nat) {
    end >= |input|
    || (if IsWord(kind) then !WordChar(input[end])
        else if kind == Number then !IsDigit(input[end])
        else if kind == LessThan then input[end] != '=' && input[end] != '>'
        else if kind == GreaterThan then input[end] != '='
        else true)
  }

  ghost predicate Blank(text: string) {
    forall i :: 0 <= i < |text| ==> IsSpace(text[i])
  }

  /** The lexeme is one of its kind and does not go on. */
  ghost predicate Shaped(input: string, t: Token) {
    forall b {:trigger Seal(b)} :: Seal(b) ==>
      Lexeme(t.kind, t.lexeme) && Complete(input, t.kind, t.position + |Source(t)|)
  }

  /** Token `t` stands in `input`. */
  ghost predicate Stands(input: string, t: Token) {
    var end := t.position + |Source(t)|;
    end <= |input| && input[t.position..end] == Source(t) && Shaped(input, t)
  }

  /** From `pos` on, `input` consists of `tokens` with nothing but white space between them. */
  ghost predicate Lexes(input: string, pos: nat, tokens: seq<Token>)
    requires pos <= |input|
    decreases tokens
  {
    if tokens == [] then Blank(input[pos..])
    else
      && pos <= tokens[0].position && Stands(input, tokens[0])
      && Blank(input[pos..tokens[0].position])
      && Lexes(input, tokens[0].position + |Source(tokens[0])|, tokens[1..])
  }

  // ---------------------------------------------------------------- tokens lose nothing

  /** Gaps and token texts in turn. */
  ghost function Weave(gaps: seq<string>, tokens: seq<Token>): string
    requires |gaps| == |tokens| + 1
  {
    if tokens == [] then gaps[0] else gaps[0] + Source(tokens[0]) + Weave(gaps[1..], tokens[1..])
  }

  /** The tokens and the white space between them spell the whole input. */
  lemma {:induction false} NothingLost(input: string, pos: nat, tokens: seq<Token>) returns (gaps: seq<string>)
    requires pos <= |input| && Lexes(input, pos, tokens)
    ensures |gaps| == |tokens| + 1 && (forall i :: 0 <= i < |gaps| ==> Blank(gaps[i]))
    ensures input[pos..] == Weave(gaps, tokens)
    decreases tokens
  {
    if tokens == [] {
      gaps := [input[pos..]];
    } else {
      var t := tokens[0];
      var end := t.position + |Source(t)|;
      var rest := NothingLost(input, end, tokens[1..]);
      gaps := [input[pos..t.position]] + rest;
      assert gaps[1..] == rest;
      ThreeParts(input, pos, t.position, end);
    }
  }

  lemma ThreeParts<T>(s: seq<T>, a: nat, b: nat, c: nat)
    requires a <= b <= c <= |s|
    ensures s[a..] == s[a..b] + s[b..c] + s[c..]
  {
  }

  lemma SourceNotEmpty(input: string, t: Token)
    requires Shaped(input, t)
    ensures |Source(t)| >= 1
  {
    assert Seal(true);
  }

  lemma {:induction false} TokenAt(input: string, pos: nat, tokens: seq<Token>, i: nat)
    requires pos <= |input| && Lexes(input, pos, tokens) && i < |tokens|
    ensures pos <= tokens[i].position < |input| && Stands(input, tokens[i])
    decreases tokens
  {
    SourceNotEmpty(input, tokens[0]);
    if i > 0 {
      TokenAt(input, tokens[0].position + |Source(tokens[0])|, tokens[1..], i - 1);
      assert tokens[1..][i - 1] == tokens[i];
    }
  }

  lemma LexesRest(input: string, pos: nat, tokens: seq<Token>)
    requires pos <= |input| && Lexes(input, pos, tokens) && tokens != []
    ensures var end := tokens[0].position + |Source(tokens[0])|;
      tokens[0].position < end <= |input| && Lexes(input, end, tokens[1..])
  {
    SourceNotEmpty(input, tokens[0]);
  }

  /** Token positions strictly increase. */
  lemma {:induction false} PositionsIncrease(input: string, pos: nat, tokens: seq<Token>, i: nat, j: nat)
    requires pos <= |input| && Lexes(input, pos, tokens) && i < j < |tokens|
    ensures tokens[i].position < tokens[j].position
    decreases tokens
  {
    LexesRest(input, pos, tokens);
    var end := tokens[0].position + |Source(tokens[0])|;
    if i == 0 {
      TokenAt(input, end, tokens[1..], j - 1);
    } else {
      PositionsIncrease(input, end, tokens[1..], i - 1, j - 1);
    }
  }

  // ---------------------------------------------------------------- one way to read a text

  /** The first character of a token. */
  lemma FirstChar(input: string, t: Token)
    requires Stands(input, t)
    ensures t.kind != Eof && t.position < |input| && !IsSpace(input[t.position])
    ensures var c := input[t.position];
      && (t.kind == StringToken <==> c == '\'')
      && (t.kind == Number <==> IsDigit(c) || c == '-')
      && (IsWord(t.kind) <==> WordStart(c))
      && (c == '*' <==> t.kind == Star) && (c == ',' <==> t.kind == Comma) && (c == '(' <==> t.kind == LeftParen)
      && (c == ')' <==> t.kind == RightParen) && (c == ';' <==> t.kind == Semicolon) && (c == '=' <==> t.kind == Equals)
      && (c == '>' <==> t.kind == GreaterThan || t.kind == GreaterEqual)
      && (t.kind == LessThan || t.kind == LessEqual ==> c == '<') && (t.kind == NotEquals ==> c == '<' || c == '!')
  {
    assert Seal(true);
    var src := Source(t);
    SourceNotEmpty(input, t);
    assert input[t.position] == src[0];
  }

  lemma SpanChars(input: string, p: nat, s: string)
    requires p + |s| <= |input| && input[p..p + |s|] == s
    ensures forall i {:trigger input[i]} :: p <= i < p + |s| ==> input[i] == s[i - p]
  {
    forall i | p <= i < p + |s| ensures input[i] == s[i - p] {
      assert input[p..p + |s|][i - p] == input[i];
    }
  }

  lemma BlankChars(input: string, a: nat, b: nat)
    requires a <= b <= |input| && Blank(input[a..b])
    ensures forall i {:trigger input[i]} :: a <= i < b ==> IsSpace(input[i])
  {
    forall i | a <= i < b ensures IsSpace(input[i]) {
      assert input[a..b][i - a] == input[i];
    }
  }

  lemma RunEnds(input: string, p: nat, a: string, b: string)
    requires p + |a| <= |input| && p + |b| <= |input| && input[p..p + |a|] == a
    requires forall i :: 0 <= i < |a| ==> WordChar(a[i])
    requires p + |b| < |input| ==> !WordChar(input[p + |b|])
    ensures |a| <= |b|
  {
    SpanChars(input, p, a);
  }

  lemma WordLexeme(input: string, t: Token)
    requires Shaped(input, t) && IsWord(t.kind)
    ensures KindOfWord(t.kind, t.lexeme) && Source(t) == t.lexeme
    ensures forall i :: 0 <= i < |t.lexeme| ==> WordChar(t.lexeme[i])
    ensures t.position + |t.lexeme| < |input| ==> !WordChar(input[t.position + |t.lexeme|])
  {
    assert Seal(true);
  }

  lemma SameWord(input: string, t: Token, t': Token)
    requires Stands(input, t) && Stands(input, t') && t.position == t'.position && IsWord(t.kind) && IsWord(t'.kind)
    ensures t == t'
  {
    WordLexeme(input, t);
    WordLexeme(input, t');
    RunEnds(input, t.position, t.lexeme, t'.lexeme);
    RunEnds(input, t.position, t'.lexeme, t.lexeme);
    OneKind(t.lexeme, t.kind, t'.kind);
  }

  lemma NumberChars(text: string)
    requires NumberShape(text)
    ensures forall i :: 0 < i < |text| ==> IsDigit(text[i])
  {
    if text[0] == '-' {
      assert forall i :: 0 < i < |text| ==> text[1..][i - 1] == text[i];
    }
  }

  lemma SameNumber(input: string, t: Token, t': Token)
    requires Stands(input, t) && Stands(input, t') && t.position == t'.position && t.kind == Number && t'.kind == Number
    ensures |t.lexeme| <= |t'.lexeme|
  {
    assert Seal(true);
    NumberChars(t.lexeme);
    SpanChars(input, t.position, t.lexeme);
  }

  lemma SameString(input: string, t: Token, t': Token)
    requires Stands(input, t) && Stands(input, t') && t.position == t'.position && t.kind == StringToken
    requires t'.kind == StringToken
    ensures |t.lexeme| <= |t'.lexeme|
  {
    assert Seal(true);
    SpanChars(input, t.position, Source(t));
    SpanChars(input, t.position, Source(t'));
    var n := |t'.lexeme|;
    assert Source(t')[n + 1] == '\'';
    assert input[t.position + (n + 1)] == '\'';
    assert forall i :: 0 <= i < |t.lexeme| ==> Source(t)[i + 1] == t.lexeme[i];
  }

  /** Of two symbols that both fit the text, neither is a proper prefix of the other. */
  lemma SymbolFits(input: string, p: nat, k: TokenType, a: string, k': TokenType, b: string)
    requires p + |a| <= |input| && input[p..p + |a|] == a && Symbol(k, a) && Complete(input, k, p + |a|)
    requires p + |b| <= |input| && input[p..p + |b|] == b && Symbol(k', b)
    ensures |b| <= |a|
  {
    SpanChars(input, p, a);
    SpanChars(input, p, b);
    assert input[p] == a[0] == b[0];
    assert |b| == 2 ==> input[p + 1] == b[1];
  }

  lemma SymbolKind(k: TokenType, k': TokenType, text: string)
    requires Symbol(k, text) && Symbol(k', text)
    ensures k == k'
  {
  }

  lemma SameSymbol(input: string, t: Token, t': Token)
    requires Stands(input, t) && Stands(input, t') && t.position == t'.position
    requires Symbol(t.kind, t.lexeme) && Symbol(t'.kind, t'.lexeme)
    ensures t.lexeme == t'.lexeme && t.kind == t'.kind
  {
    SymbolComplete(input, t);
    SymbolComplete(input, t');
    SymbolFits(input, t.position, t.kind, t.lexeme, t'.kind, t'.lexeme);
    SymbolFits(input, t.position, t'.kind, t'.lexeme, t.kind, t.lexeme);
    SymbolKind(t.kind, t'.kind, t.lexeme);
  }

  lemma SymbolComplete(input: string, t: Token)
    requires Shaped(input, t) && Symbol(t.kind, t.lexeme)
    ensures Source(t) == t.lexeme && Complete(input, t.kind, t.position + |t.lexeme|)
  {
    assert Seal(true);
  }

  /** At most one token can stand at a position. */
  lemma SameToken(input: string, t: Token, t': Token)
    requires Stands(input, t) && Stands(input, t') && t.position == t'.position
    ensures t == t'
  {
    FirstChar(input, t);
    FirstChar(input, t');
    assert Seal(true);
    if t.kind == StringToken {
      SameString(input, t, t');
      SameString(input, t', t);
      assert Source(t) == Source(t');
      assert Source(t)[1..|t.lexeme| + 1] == t.lexeme && Source(t')[1..|t'.lexeme| + 1] == t'.lexeme;
    } else if t.kind == Number {
      SameNumber(input, t, t');
      SameNumber(input, t', t);
    } else if IsWord(t.kind) {
      SameWord(input, t, t');
    } else {
      SameSymbol(input, t, t');
    }
  }

  lemma {:induction false} SkipBlank(input: string, index: nat, tokens: seq<Token>)
    requires index < |input| && IsSpace(input[index])
    ensures Lexes(input, index, tokens) <==> Lexes(input, index + 1, tokens)
  {
    if tokens == [] {
      BlankMore(input, index, |input|);
    } else if Stands(input, tokens[0]) {
      FirstChar(input, tokens[0]);
      if tokens[0].position > index {
        BlankMore(input, index, tokens[0].position);
      }
    }
  }

  lemma BlankMore(input: string, index: nat, end: nat)
    requires index < end <= |input| && IsSpace(input[index])
    ensures Blank(input[index..end]) <==> Blank(input[index + 1..end])
  {
    assert input[index..end] == [input[index]] + input[index + 1..end];
  }

  /** With a token standing at `index`, every reading of the rest starts with it. */
  lemma NextToken(input: string, index: nat, t: Token, tokens: seq<Token>)
    requires index < |input| && t.position == index && Stands(input, t)
    ensures Lexes(input, index, tokens) <==>
      tokens != [] && tokens[0] == t && Lexes(input, index + |Source(t)|, tokens[1..])
  {
    FirstChar(input, t);
    if tokens == [] {
      assert input[index..][0] == input[index];
    } else if index <= tokens[0].position && Stands(input, tokens[0]) {
      FirstChar(input, tokens[0]);
      if tokens[0].position > index {
        assert input[index..tokens[0].position][0] == input[index];
      } else {
        SameToken(input, t, tokens[0]);
      }
    }
  }

  /** Where neither white space nor a token begins there is no reading. */
  lemma NoToken(input: string, index: nat, tokens: seq<Token>)
    requires index < |input| && !IsSpace(input[index])
    requires forall t: Token :: t.position == index ==> !Stands(input, t)
    ensures !Lexes(input, index, tokens)
  {
    if tokens == [] {
      assert input[index..][0] == input[index];
    } else if tokens[0].position > index && tokens[0].position <= |input| {
      assert input[index..tokens[0].position][0] == input[index];
    }
  }

  // ---------------------------------------------------------------- the scan so far

  /** Every reading of the input starts with `done` and goes on with a reading from `index`. */
  ghost predicate Committed(input: string, done: seq<Token>, index: nat)
    requires index <= |input|
  {
    forall b {:trigger Shut(b)} :: Shut(b) ==>
      forall ts {:trigger Lexes(input, 0, ts)} ::
        Lexes(input, 0, ts) <==> done <= ts && Lexes(input, index, ts[|done|..])
  }

  lemma CommittedStart(input: string)
    ensures Committed(input, [], 0)
  {
    assert forall ts: seq<Token> :: ts[0..] == ts;
  }

  lemma CommittedBlank(input: string, done: seq<Token>, index: nat)
    requires index < |input| && IsSpace(input[index]) && Committed(input, done, index)
    ensures Committed(input, done, index + 1)
  {
    assert Shut(true);
    forall ts: seq<Token> | done <= ts
      ensures Lexes(input, index, ts[|done|..]) <==> Lexes(input, index + 1, ts[|done|..])
    {
      SkipBlank(input, index, ts[|done|..]);
    }
  }

  lemma CommittedToken(input: string, done: seq<Token>, index: nat, t: Token)
    requires index < |input| && Committed(input, done, index) && t.position == index && Stands(input, t)
    ensures index + |Source(t)| <= |input| && Committed(input, done + [t], index + |Source(t)|)
  {
    assert Shut(true);
    forall ts: seq<Token>
      ensures done <= ts && Lexes(input, index, ts[|done|..])
        <==> done + [t] <= ts && Lexes(input, index + |Source(t)|, ts[|done + [t]|..])
    {
      ReadingGoesOn(input, done, index, t, ts);
    }
  }

  lemma PrefixPush<T>(done: seq<T>, x: T, s: seq<T>)
    ensures done + [x] <= s <==> done <= s && s[|done|..] != [] && s[|done|..][0] == x
    ensures done + [x] <= s ==> s[|done|..][1..] == s[|done + [x]|..]
  {
  }

  lemma ReadingGoesOn(input: string, done: seq<Token>, index: nat, t: Token, ts: seq<Token>)
    requires index < |input| && t.position == index && Stands(input, t)
    ensures done <= ts && Lexes(input, index, ts[|done|..])
      <==> done + [t] <= ts && Lexes(input, index + |Source(t)|, ts[|done + [t]|..])
  {
    PrefixPush(done, t, ts);
    if done <= ts {
      NextToken(input, index, t, ts[|done|..]);
    }
  }

  lemma CommittedStuck(input: string, done: seq<Token>, index: nat)
    requires index < |input| && Committed(input, done, index) && !IsSpace(input[index])
    requires forall t: Token :: t.position == index ==> !Stands(input, t)
    ensures forall ts :: !Lexes(input, 0, ts)
  {
    assert Shut(true);
    forall ts ensures !Lexes(input, 0, ts) {
      if done <= ts {
        NoToken(input, index, ts[|done|..]);
      }
    }
  }

  lemma CommittedEnd(input: string, done: seq<Token>)
    requires Committed(input, done, |input|)
    ensures Lexes(input, 0, done)
  {
    assert Shut(true);
    assert done[|done|..] == [];
    assert Lexes(input, |input|, []);
  }

  /** A text has at most one reading. */
  lemma {:induction false} OneReading(input: string, pos: nat, a: seq<Token>, b: seq<Token>)
    requires pos <= |input| && Lexes(input, pos, a) && Lexes(input, pos, b)
    ensures a == b
    decreases a
  {
    if a == [] {
      NothingInBlank(input, pos, b);
    } else if b == [] {
      NothingInBlank(input, pos, a);
    } else {
      SameStart(input, pos, a[0], b[0]);
      OneReading(input, a[0].position + |Source(a[0])|, a[1..], b[1..]);
    }
  }

  lemma NothingInBlank(input: string, pos: nat, tokens: seq<Token>)
    requires pos <= |input| && Blank(input[pos..]) && Lexes(input, pos, tokens)
    ensures tokens == []
  {
    assert input[pos..] == input[pos..|input|];
    BlankChars(input, pos, |input|);
    if tokens != [] {
      FirstChar(input, tokens[0]);
    }
  }

  lemma SameStart(input: string, pos: nat, t: Token, t': Token)
    requires pos <= t.position <= |input| && pos <= t'.position <= |input| && Stands(input, t) && Stands(input, t')
    requires Blank(input[pos..t.position]) && Blank(input[pos..t'.position])
    ensures t == t'
  {
    FirstChar(input, t);
    FirstChar(input, t');
    BlankChars(input, pos, t.position);
    BlankChars(input, pos, t'.position);
    SameToken(input, t, t');
  }
}
