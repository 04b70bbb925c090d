/** From SQL text to statements and back: what a text means, and the text of a statement. */
module SqlText {
  import opened Machine
  import opened Names
  import opened Ast
  import opened Tokenizer
  import opened TokenScan
  import opened Grammar
  import opened Parser

  /** The text reads as tokens that write the statement. */
  ghost predicate Means(input: string, s: Statement) {
    exists tokens :: Lexes(input, 0, tokens) && Writes(Keys(tokens), s)
  }

  /** A text means at most one statement. */
  lemma MeansOne(input: string, s: Statement, s': Statement)
    requires Means(input, s) && Means(input, s')
    ensures s == s'
  {
    var a :| Lexes(input, 0, a) && Writes(Keys(a), s);
    var b :| Lexes(input, 0, b) && Writes(Keys(b), s');
    OneReading(input, 0, a, b);
    OneStatement(Keys(a), s, s');
  }

  ghost predicate Meaningless(input: string) {
    forall s {:trigger Means(input, s)} :: !Means(input, s)
  }

  lemma ReadsNothing(input: string)
    requires forall ts :: !Lexes(input, 0, ts)
    ensures Meaningless(input)
  {
  }

  lemma WritesNothing(input: string, tokens: seq<Token>)
    requires Lexes(input, 0, tokens) && Ungrammatical(Keys(tokens))
    ensures Meaningless(input)
  {
    forall s ensures !Means(input, s) {
      if Means(input, s) {
        var ts :| Lexes(input, 0, ts) && Writes(Keys(ts), s);
        OneReading(input, 0, tokens, ts);
      }
    }
  }

  lemma NoEofInside(input: string, tokens: seq<Token>, i: nat)
    requires Lexes(input, 0, tokens) && i < |tokens|
    ensures tokens[i].kind != Eof
  {
    TokenAt(input, 0, tokens, i);
    FirstChar(input, tokens[i]);
  }

  /** Tokenizing and parsing: the statement the text means, if it means one. */
  method Compile(input: string) returns (r: Option<Statement>)
    ensures r.Some? ==> Means(input, r.value)
    ensures r.None? ==> Meaningless(input)
  {
    var ok, tokens, read := TokenizeSql(input);
    if !ok {
      ReadsNothing(input);
      return None;
    }
    var items := tokens.items[..tokens.count];
    forall i | 0 <= i < |items| - 1 ensures items[i].kind != Eof {
      NoEofInside(input, read, i);
    }
    assert items[..|items| - 1] == read;
    r := ParseStatement(items);
    if r.None? {
      WritesNothing(input, read);
    }
  }

  // ---------------------------------------------------------------- writing SQL text

  /** The lexeme of a key in canonical form. */
  function LexemeOf(k: Key): string {
    match k.kind
    case Eof => ""
    case Identifier => k.text
    case StringToken => k.text
    case Number => k.text
    case Insert => "INSERT"
    case Into => "INTO"
    case Values => "VALUES"
    case Select => "SELECT"
    case From => "FROM"
    case Where => "WHERE"
    case Star => "*"
    case Comma => ","
    case LeftParen => "("
    case RightParen => ")"
    case Semicolon => ";"
    case Equals => "="
    case NotEquals => "!="
    case LessThan => "<"
    case LessEqual => "<="
    case GreaterThan => ">"
    case GreaterEqual => ">="
  }

  /** A key whose text a token can have. */
  ghost predicate Spellable(k: Key) {
    forall b {:trigger Shut(b)} :: Shut(b) ==> HasLexeme(k)
  }

  ghost predicate HasLexeme(k: Key) {
    match k.kind
    case Eof => false
    case Identifier => WordShape(k.text) && KindOfWord(TokenType.Identifier, k.text)
    case StringToken => '\'' !in k.text
    case Number => NumberShape(k.text)
    case _ => k.text == ""
  }

  function TokenOf(k: Key): Token {
    Token(k.kind, LexemeOf(k), 0)
  }

  function TokensOf(ks: seq<Key>): (tokens: seq<Token>)
    ensures |tokens| == |ks| && forall i :: 0 <= i < |ks| ==> tokens[i] == TokenOf(ks[i])
  {
    seq(|ks|, i requires 0 <= i < |ks| => TokenOf(ks[i]))
  }

  /** The same tokens one blank apart, the first at `position`. */
  function Place(tokens: seq<Token>, position: nat): seq<Token> {
    if tokens == [] then []
    else [tokens[0].(position := position)] + Place(tokens[1..], position + |Source(tokens[0])| + 1)
  }

  /** Each token, followed by one blank. */
  function Written(tokens: seq<Token>): string {
    if tokens == [] then "" else Source(tokens[0]) + " " + Written(tokens[1..])
  }

  /** The canonical text of a token sequence. */
  function TextOf(ks: seq<Key>): string {
    Written(Place(TokensOf(ks), 0))
  }

  lemma KeywordKinds()
    ensures KindOfWord(TokenType.Insert, "INSERT") && KindOfWord(Into, "INTO") && KindOfWord(Values, "VALUES")
    ensures KindOfWord(TokenType.Select, "SELECT") && KindOfWord(From, "FROM") && KindOfWord(Where, "WHERE")
  {
    DifferentNames();
  }

  lemma DifferentNames()
    ensures WordKind("INSERT") == TokenType.Insert && WordKind("INTO") == Into && WordKind("VALUES") == Values
    ensures WordKind("SELECT") == TokenType.Select && WordKind("FROM") == From && WordKind("WHERE") == Where
  {
    assert LowerAll("INSERT")[0] == 'i' && LowerAll("INTO")[0] == 'i' && |LowerAll("INSERT")| == 6
      && |LowerAll("INTO")| == 4;
    assert LowerAll("VALUES")[0] == 'v' && LowerAll("SELECT")[0] == 's' && LowerAll("FROM")[0] == 'f'
      && LowerAll("WHERE")[0] == 'w';
  }

  lemma SpellableLexeme(k: Key)
    requires Spellable(k)
    ensures Lexeme(k.kind, LexemeOf(k))
  {
    assert Shut(true);
    KeywordKinds();
  }

  ghost predicate WellSpelled(t: Token) {
    forall b {:trigger Shut(b)} :: Shut(b) ==> Lexeme(t.kind, t.lexeme)
  }

  lemma BlankEnds(prefix: string, t: Token, rest: string)
    requires WellSpelled(t) && t.position == |prefix|
    ensures Stands(prefix + (Source(t) + " " + rest), t)
  {
    assert Shut(true);
    var input, end := prefix + (Source(t) + " " + rest), t.position + |Source(t)|;
    assert input[end] == ' ';
    assert input[t.position..end] == Source(t);
    assert Complete(input, t.kind, end);
  }

  ghost predicate ReadsAs(input: string, pos: nat, tokens: seq<Token>) {
    forall b {:trigger Shut(b)} :: Shut(b) ==> pos <= |input| && Lexes(input, pos, tokens)
  }

  lemma NothingReads(input: string)
    ensures ReadsAs(input, |input|, [])
  {
  }

  lemma ReadStep(input: string, t: Token, tokens: seq<Token>)
    requires Stands(input, t) && ReadsAs(input, t.position + |Source(t)|, tokens)
    ensures ReadsAs(input, t.position, [t] + tokens)
  {
    assert Shut(true);
    assert ([t] + tokens)[1..] == tokens;
  }

  lemma GroupText(prefix: string, a: string, rest: string)
    ensures prefix + (a + " " + rest) == prefix + a + " " + rest
    ensures |prefix + a + " "| == |prefix| + |a| + 1 && (prefix + a + " " + rest)[|prefix| + |a|] == ' '
  {
  }

  ghost predicate OneBlankApart(tokens: seq<Token>, position: nat) {
    tokens != [] ==>
      && tokens[0].position == position && WellSpelled(tokens[0])
      && OneBlankApart(tokens[1..], position + |Source(tokens[0])| + 1)
  }

  /** A text written token by token reads as exactly those tokens. */
  lemma {:induction false} WrittenReads(prefix: string, tokens: seq<Token>)
    requires OneBlankApart(tokens, |prefix|)
    ensures ReadsAs(prefix + Written(tokens), |prefix|, tokens)
    decreases tokens
  {
    if tokens == [] {
      assert prefix + "" == prefix;
      NothingReads(prefix);
    } else {
      var t, rest := tokens[0], tokens[1..];
      GroupText(prefix, Source(t), Written(rest));
      WrittenReads(prefix + Source(t) + " ", rest);
      BlankEnds(prefix, t, Written(rest));
      SpelledOne(prefix, Source(t), Written(rest), t, rest);
      assert tokens == [t] + rest;
    }
  }

  lemma SpelledOne(prefix: string, word: string, rest: string, t: Token, tokens: seq<Token>)
    requires t.position == |prefix| && Source(t) == word && Stands(prefix + (word + " " + rest), t)
    requires ReadsAs(prefix + word + " " + rest, |prefix| + |word| + 1, tokens)
    ensures ReadsAs(prefix + (word + " " + rest), |prefix|, [t] + tokens)
  {
    GroupText(prefix, word, rest);
    BlankBefore(prefix + (word + " " + rest), |prefix| + |word|, tokens);
    ReadStep(prefix + (word + " " + rest), t, tokens);
  }

  lemma BlankBefore(input: string, index: nat, tokens: seq<Token>)
    requires index < |input| && input[index] == ' ' && ReadsAs(input, index + 1, tokens)
    ensures ReadsAs(input, index, tokens)
  {
    assert Shut(true);
    SkipBlank(input, index, tokens);
  }

  lemma KeyKept(k: Key)
    requires Spellable(k)
    ensures KeyOf(TokenOf(k)) == k && WellSpelled(TokenOf(k))
  {
    assert Shut(true);
    SpellableLexeme(k);
  }

  ghost predicate AllSpellable(ks: seq<Key>) {
    forall i :: 0 <= i < |ks| ==> Spellable(ks[i])
  }

  ghost predicate AllSpelled(tokens: seq<Token>) {
    forall i :: 0 <= i < |tokens| ==> WellSpelled(tokens[i])
  }

  lemma TokensKeepKeys(ks: seq<Key>)
    requires AllSpellable(ks)
    ensures Keys(TokensOf(ks)) == ks && AllSpelled(TokensOf(ks))
  {
    forall i | 0 <= i < |ks| ensures KeyOf(TokensOf(ks)[i]) == ks[i] && WellSpelled(TokensOf(ks)[i]) {
      KeyKept(ks[i]);
    }
  }

  lemma MovedToken(t: Token, position: nat)
    requires WellSpelled(t)
    ensures var m := t.(position := position); WellSpelled(m) && KeyOf(m) == KeyOf(t) && Source(m) == Source(t)
  {
  }

  lemma KeysHead(t: Token, rest: seq<Token>)
    ensures Keys([t] + rest) == [KeyOf(t)] + Keys(rest)
  {
  }

  lemma PlacedHead(t: Token, rest: seq<Token>, placed: seq<Token>, position: nat)
    requires WellSpelled(t) && Keys(placed) == Keys(rest) && OneBlankApart(placed, position + |Source(t)| + 1)
    ensures Keys([t.(position := position)] + placed) == Keys([t] + rest)
    ensures OneBlankApart([t.(position := position)] + placed, position)
  {
    var m := t.(position := position);
    MovedToken(t, position);
    KeysHead(m, placed);
    KeysHead(t, rest);
    assert ([m] + placed)[1..] == placed;
  }

  lemma TailSpelled(tokens: seq<Token>)
    requires AllSpelled(tokens) && tokens != []
    ensures AllSpelled(tokens[1..]) && WellSpelled(tokens[0]) && tokens == [tokens[0]] + tokens[1..]
  {
  }

  lemma {:induction false} PlaceKeeps(tokens: seq<Token>, position: nat)
    requires AllSpelled(tokens)
    ensures Keys(Place(tokens, position)) == Keys(tokens) && OneBlankApart(Place(tokens, position), position)
  {
    if tokens != [] {
      var next := position + |Source(tokens[0])| + 1;
      TailSpelled(tokens);
      PlaceKeeps(tokens[1..], next);
      PlacedHead(tokens[0], tokens[1..], Place(tokens[1..], next), position);
    }
  }

  /** The names and literals of a statement can be written in SQL. */
  ghost predicate Printable(s: Statement) {
    Proper(s) && AllSpellable(StatementKeys(s))
  }

  /** Tokenizing and parsing the canonical text of a statement returns the statement. */
  lemma PrintedMeans(s: Statement)
    requires Printable(s)
    ensures Means(TextOf(StatementKeys(s)), s)
  {
    var ks := StatementKeys(s);
    var tokens := Place(TokensOf(ks), 0);
    TokensKeepKeys(ks);
    PlaceKeeps(TokensOf(ks), 0);
    WrittenReads("", tokens);
    assert "" + Written(tokens) == TextOf(ks);
    assert Shut(true);
    assert Writes(Keys(tokens), s);
  }
}
