/** The tokenizer's loops: a cursor over the input and a growing array of tokens. */
module TokenScan {
  import opened Machine
  import opened Names
  import opened Decimal
  import opened Tokenizer

  /** A growing array: room for 16 tokens at first, doubled whenever it is full. */
  class TokenArray {
    var items: array<Token>
    var count: nat

    ghost predicate Valid()
      reads this
    {
      count <= items.Length
    }

    ghost function Contents(): seq<Token>
      requires Valid()
      reads this, items
    {
      items[..count]
    }

    constructor ()
      ensures Valid() && Contents() == [] && fresh(items)
    {
      items := new Token[0];
      count := 0;
    }

    method Append(t: Token)
      requires Valid()
      modifies this, items
      ensures Valid() && Contents() == old(Contents()) + [t]
      ensures items == old(items) || fresh(items)
    {
      if count == items.Length {
        var capacity := if items.Length == 0 then 16 else items.Length * 2;
        var larger := new Token[capacity];
        forall i | 0 <= i < count {
          larger[i] := items[i];
        }
        items := larger;
      }
      items[count] := t;
      count := count + 1;
    }
  }

  method IdentifierType(text: string) returns (kind: TokenType)
    ensures KindOfWord(kind, text) && IsWord(kind)
  {
    kind := Identifier;
    var same := CaseEqual(text, "INSERT");
    if same {
      return Insert;
    }
    same := CaseEqual(text, "INTO");
    if same {
      return Into;
    }
    same := CaseEqual(text, "VALUES");
    if same {
      return Values;
    }
    same := CaseEqual(text, "SELECT");
    if same {
      return Select;
    }
    same := CaseEqual(text, "FROM");
    if same {
      return From;
    }
    same := CaseEqual(text, "WHERE");
    if same {
      return Where;
    }
  }

  lemma WordStands(input: string, start: nat, end: nat, kind: TokenType)
    requires start < end <= |input| && WordStart(input[start]) && (forall i :: start <= i < end ==> WordChar(input[i]))
    requires end < |input| ==> !WordChar(input[end])
    requires KindOfWord(kind, input[start..end]) && IsWord(kind)
    ensures Stands(input, Token(kind, input[start..end], start))
  {
    var t := Token(kind, input[start..end], start);
    assert forall i :: 0 <= i < |t.lexeme| ==> t.lexeme[i] == input[start + i];
    assert Lexeme(t.kind, t.lexeme) && Complete(input, t.kind, end);
  }

  method TokenizeIdentifier(input: string, index: nat, tokens: TokenArray) returns (next: nat, ghost t: Token)
    requires index < |input| && WordStart(input[index]) && tokens.Valid()
    modifies tokens, tokens.items
    ensures tokens.Valid() && tokens.Contents() == old(tokens.Contents()) + [t]
    ensures tokens.items == old(tokens.items) || fresh(tokens.items)
    ensures t.position == index && Stands(input, t) && next == index + |Source(t)|
  {
    next := index;
    while next < |input| && WordChar(input[next])
      invariant index <= next <= |input| && forall i :: index <= i < next ==> WordChar(input[i])
    {
      next := next + 1;
    }
    var lexeme := input[index..next];
    var kind := IdentifierType(lexeme);
    WordStands(input, index, next, kind);
    t := Token(kind, lexeme, index);
    tokens.Append(Token(kind, lexeme, index));
  }

  predicate NumberStart(input: string, index: nat)
    requires index < |input|
  {
    IsDigit(input[index]) || (input[index] == '-' && index + 1 < |input| && IsDigit(input[index + 1]))
  }

  lemma NumberStands(input: string, start: nat, from: nat, end: nat)
    requires start < |input| && NumberStart(input, start) && from == (if input[start] == '-' then start + 1 else start)
    requires from < end <= |input| && (forall i :: from <= i < end ==> IsDigit(input[i]))
    requires end < |input| ==> !IsDigit(input[end])
    ensures Stands(input, Token(Number, input[start..end], start))
  {
    var t := Token(Number, input[start..end], start);
    assert forall i :: 0 <= i < |t.lexeme| ==> t.lexeme[i] == input[start + i];
    if input[start] == '-' {
      assert forall i :: 0 <= i < |t.lexeme[1..]| ==> t.lexeme[1..][i] == input[start + 1 + i];
    }
    assert Lexeme(t.kind, t.lexeme) && Complete(input, t.kind, end);
  }

  method TokenizeNumber(input: string, index: nat, tokens: TokenArray) returns (next: nat, ghost t: Token)
    requires index < |input| && NumberStart(input, index) && tokens.Valid()
    modifies tokens, tokens.items
    ensures tokens.Valid() && tokens.Contents() == old(tokens.Contents()) + [t]
    ensures tokens.items == old(tokens.items) || fresh(tokens.items)
    ensures t.position == index && Stands(input, t) && next == index + |Source(t)|
  {
    next := index;
    if input[next] == '-' {
      next := next + 1;
    }
    var from := next;
    while next < |input| && IsDigit(input[next])
      invariant from <= next <= |input| && forall i :: from <= i < next ==> IsDigit(input[i])
    {
      next := next + 1;
    }
    NumberStands(input, index, from, next);
    t := Token(Number, input[index..next], index);
    tokens.Append(Token(Number, input[index..next], index));
  }

  lemma StringStands(input: string, start: nat, end: nat)
    requires start < end < |input| && input[start] == '\'' && input[end] == '\''
    requires forall i :: start < i < end ==> input[i] != '\''
    ensures Stands(input, Token(StringToken, input[start + 1..end], start))
  {
    var t := Token(StringToken, input[start + 1..end], start);
    assert input[start..end + 1] == Source(t);
    assert Lexeme(t.kind, t.lexeme) && Complete(input, t.kind, end + 1);
  }

  /** Without a closing quote nothing stands here. */
  lemma Unclosed(input: string, start: nat)
    requires start < |input| && input[start] == '\'' && forall i :: start < i < |input| ==> input[i] != '\''
    ensures forall t: Token :: t.position == start ==> !Stands(input, t)
  {
    forall t: Token | t.position == start ensures !Stands(input, t) {
      if Stands(input, t) {
        FirstChar(input, t);
        SpanChars(input, start, Source(t));
        LastQuote(t);
      }
    }
  }

  lemma LastQuote(t: Token)
    requires t.kind == StringToken
    ensures |Source(t)| >= 2 && Source(t)[|Source(t)| - 1] == '\''
  {
  }

  method TokenizeString(input: string, index: nat, tokens: TokenArray) returns (ok: bool, next: nat, ghost t: Token)
    requires index < |input| && input[index] == '\'' && tokens.Valid()
    modifies tokens, tokens.items
    ensures tokens.Valid() && (tokens.items == old(tokens.items) || fresh(tokens.items))
    ensures ok ==> tokens.Contents() == old(tokens.Contents()) + [t]
    ensures ok ==> t.position == index && Stands(input, t) && next == index + |Source(t)|
    ensures !ok ==> forall t': Token :: t'.position == index ==> !Stands(input, t')
  {
    var contentStart := index + 1;
    next := contentStart;
    t := Token(StringToken, "", index);
    while next < |input| && input[next] != '\''
      invariant contentStart <= next <= |input| && forall i :: index < i < next ==> input[i] != '\''
    {
      next := next + 1;
    }
    if next == |input| {
      Unclosed(input, index);
      return false, next, t;
    }
    StringStands(input, index, next);
    t := Token(StringToken, input[contentStart..next], index);
    tokens.Append(Token(StringToken, input[contentStart..next], index));
    ok, next := true, next + 1;
  }

  // ---------------------------------------------------------------- symbols

  /** The symbol at `index`: its kind and length; none where the text has no symbol. */
  method SymbolAt(input: string, index: nat) returns (kind: Option<TokenType>, length: nat)
    requires index < |input|
    ensures kind.Some? ==>
      index + length <= |input| && Stands(input, Token(kind.value, input[index..index + length], index))
    ensures kind.Some? ==> kind.value != StringToken
    ensures kind.None? && !WordStart(input[index]) && !NumberStart(input, index) && input[index] != '\'' ==>
      forall t: Token :: t.position == index ==> !Stands(input, t)
  {
    var c := input[index];
    var following := if index + 1 < |input| then input[index + 1] else 0 as char;
    length := 1;
    match c {
      case '*' => kind := Some(Star);
      case ',' => kind := Some(Comma);
      case '(' => kind := Some(LeftParen);
      case ')' => kind := Some(RightParen);
      case ';' => kind := Some(Semicolon);
      case '=' => kind := Some(Equals);
      case '!' =>
        if following == '=' {
          kind, length := Some(NotEquals), 2;
        } else {
          kind := None;
        }
      case '<' =>
        if following == '=' {
          kind, length := Some(LessEqual), 2;
        } else if following == '>' {
          kind, length := Some(NotEquals), 2;
        } else {
          kind := Some(LessThan);
        }
      case '>' =>
        if following == '=' {
          kind, length := Some(GreaterEqual), 2;
        } else {
          kind := Some(GreaterThan);
        }
      case _ => kind := None;
    }
    if kind.Some? {
      SymbolStands(input, index, kind.value, length);
    } else {
      NoSymbol(input, index);
    }
  }

  lemma SymbolStands(input: string, index: nat, kind: TokenType, length: nat)
    requires index + length <= |input| && Symbol(kind, input[index..index + length])
    requires Complete(input, kind, index + length)
    ensures Stands(input, Token(kind, input[index..index + length], index))
  {
    assert Lexeme(kind, input[index..index + length]);
  }

  predicate OtherSymbol(c: char) {
    c == '*' || c == ',' || c == '(' || c == ')' || c == ';' || c == '=' || c == '<' || c == '>'
  }

  lemma NoSymbol(input: string, index: nat)
    requires index < |input| && !OtherSymbol(input[index])
    requires input[index] == '!' ==> index + 1 == |input| || input[index + 1] != '='
    ensures !WordStart(input[index]) && !NumberStart(input, index) && input[index] != '\'' ==>
      forall t: Token :: t.position == index ==> !Stands(input, t)
  {
    if !WordStart(input[index]) && !NumberStart(input, index) && input[index] != '\'' {
      forall t: Token | t.position == index ensures !Stands(input, t) {
        if Stands(input, t) {
          FirstChar(input, t);
          if t.kind == NotEquals && input[index] == '!' {
            BangPair(input, t);
          } else if t.kind == Number && input[index] == '-' {
            MinusPair(input, t);
          }
        }
      }
    }
  }

  lemma BangPair(input: string, t: Token)
    requires Stands(input, t) && t.kind == NotEquals && t.position < |input| && input[t.position] == '!'
    ensures t.position + 1 < |input| && input[t.position + 1] == '='
  {
    assert Seal(true);
    SpanChars(input, t.position, Source(t));
    assert Source(t)[0] == input[t.position];
    assert Source(t) == "!=";
    assert input[t.position + 1] == Source(t)[1];
  }

  lemma MinusPair(input: string, t: Token)
    requires Stands(input, t) && t.kind == Number && t.position < |input| && input[t.position] == '-'
    ensures t.position + 1 < |input| && IsDigit(input[t.position + 1])
  {
    assert Seal(true);
    SpanChars(input, t.position, Source(t));
    assert Source(t)[0] == '-';
    NumberChars(t.lexeme);
    assert input[t.position + 1] == Source(t)[1];
  }

  method TokenizeSymbol(input: string, index: nat, tokens: TokenArray) returns (ok: bool, next: nat, ghost t: Token)
    requires index < |input| && tokens.Valid()
    requires !WordStart(input[index]) && !NumberStart(input, index) && input[index] != '\''
    modifies tokens, tokens.items
    ensures tokens.Valid() && (tokens.items == old(tokens.items) || fresh(tokens.items))
    ensures ok ==> tokens.Contents() == old(tokens.Contents()) + [t]
    ensures ok ==> t.position == index && Stands(input, t) && next == index + |Source(t)|
    ensures !ok ==> forall t': Token :: t'.position == index ==> !Stands(input, t')
  {
    var kind, length := SymbolAt(input, index);
    next, t := index, Token(Star, "", index);
    if kind.None? {
      return false, next, t;
    }
    next := index + length;
    var token := Token(kind.value, input[index..next], index);
    ok, t := true, token;
    tokens.Append(token);
  }

  // ---------------------------------------------------------------- the whole scan

  /** Reads the token at `index`; fails where there is none. */
  method NextTokenAt(input: string, index: nat, tokens: TokenArray) returns (ok: bool, next: nat, ghost t: Token)
    requires index < |input| && !IsSpace(input[index]) && tokens.Valid()
    modifies tokens, tokens.items
    ensures tokens.Valid() && (tokens.items == old(tokens.items) || fresh(tokens.items))
    ensures ok ==> tokens.Contents() == old(tokens.Contents()) + [t]
    ensures ok ==> t.position == index && Stands(input, t) && next == index + |Source(t)|
    ensures !ok ==> forall t': Token :: t'.position == index ==> !Stands(input, t')
  {
    ok := true;
    if WordStart(input[index]) {
      next, t := TokenizeIdentifier(input, index, tokens);
    } else if NumberStart(input, index) {
      next, t := TokenizeNumber(input, index, tokens);
    } else if input[index] == '\'' {
      ok, next, t := TokenizeString(input, index, tokens);
    } else {
      ok, next, t := TokenizeSymbol(input, index, tokens);
    }
  }

  /** `tokenize_sql`: succeeds exactly on the texts that have a reading, and returns it, closed by an
      end token. */
  method TokenizeSql(input: string) returns (ok: bool, tokens: TokenArray, ghost read: seq<Token>)
    ensures tokens.Valid() && fresh(tokens) && fresh(tokens.items)
    ensures ok ==> Lexes(input, 0, read) && tokens.Contents() == read + [Token(Eof, "<eof>", |input|)]
    ensures !ok ==> forall ts :: !Lexes(input, 0, ts)
  {
    var index := 0;
    tokens := new TokenArray();
    read := [];
    CommittedStart(input);
    while index < |input|
      invariant index <= |input| && Committed(input, read, index)
      invariant tokens.Valid() && fresh(tokens) && fresh(tokens.items) && tokens.Contents() == read
    {
      if IsSpace(input[index]) {
        CommittedBlank(input, read, index);
        index := index + 1;
        continue;
      }
      ghost var t;
      var next;
      ok, next, t := NextTokenAt(input, index, tokens);
      if !ok {
        CommittedStuck(input, read, index);
        return;
      }
      FirstChar(input, t);
      CommittedToken(input, read, index, t);
      SourceNotEmpty(input, t);
      read := read + [t];
      index := next;
    }
    CommittedEnd(input, read);
    tokens.Append(Token(Eof, "<eof>", index));
    ok := true;
  }
}
