/** The Helix tokenizer: a lexer object over a source text that advances a
    position and a line counter, one token per `GetToken` call. The pure
    functions below (`HelperScan`, `TokenScan`) state what each method does;
    the lemmas state what the lexer promises about them. */
module Lexer {
  import opened Wrappers
  import opened Decimal

  datatype TokenKind =
    | OpenParenthesis | CloseParenthesis | OpenBrace | CloseBrace | OpenBracket | CloseBracket
    | Comma | Dot | Semicolon | Caret | Ampersand
    | VarKeyword | FunctionKeyword | ExternKeyword | WordKeyword | VoidKeyword | BoolKeyword
    | AsKeyword | IsKeyword | IfKeyword | ThenKeyword | ElseKeyword | WhileKeyword | ForKeyword
    | DoKeyword | ToKeyword | StructKeyword | UnionKeyword | AndKeyword | OrKeyword | XorKeyword
    | BreakKeyword | ContinueKeyword | ReturnKeyword | NewKeyword | UntilKeyword
    | LessThan | LessThanOrEqualTo | Equals | Assignment | GreaterThan | GreaterThanOrEqualTo
    | Not | NotEquals | Plus | PlusAssignment | Minus | MinusAssignment | Yields
    | Star | StarAssignment | Divide | DivideAssignment | Modulo | ModuloAssignment
    | WordLiteral | BoolLiteral | Identifier | Whitespace | EOF

  datatype TokenLocation = TokenLocation(start: int, length: int, line: int)

  datatype Token = Token(kind: TokenKind, location: TokenLocation, value: string)

  /** The exceptions a scan can raise. `IndexOutOfRange` is the runtime error
      raised when a character literal is cut short by the end of the text. */
  datatype LexError =
    | EndOfFile(at: TokenLocation)
    | InvalidNumber(at: TokenLocation, text: string)
    | UnexpectedCharacter(at: TokenLocation, c: char)
    | IndexOutOfRange

  /** The outcome of a scan together with the position and line it leaves. */
  datatype Scan = Scan(result: Result<Token, LexError>, pos: nat, line: int)

  /** The keyword table: the token kind of a reserved word. */
  function KeywordKind(word: string): Option<TokenKind> {
    match word
    case "var" => Some(VarKeyword)
    case "func" => Some(FunctionKeyword)
    case "extern" => Some(ExternKeyword)
    case "word" => Some(WordKeyword)
    case "void" => Some(VoidKeyword)
    case "bool" => Some(BoolKeyword)
    case "as" => Some(AsKeyword)
    case "is" => Some(IsKeyword)
    case "if" => Some(IfKeyword)
    case "then" => Some(ThenKeyword)
    case "else" => Some(ElseKeyword)
    case "while" => Some(WhileKeyword)
    case "for" => Some(ForKeyword)
    case "do" => Some(DoKeyword)
    case "to" => Some(ToKeyword)
    case "struct" => Some(StructKeyword)
    case "union" => Some(UnionKeyword)
    case "and" => Some(AndKeyword)
    case "or" => Some(OrKeyword)
    case "xor" => Some(XorKeyword)
    case "break" => Some(BreakKeyword)
    case "continue" => Some(ContinueKeyword)
    case "return" => Some(ReturnKeyword)
    case "new" => Some(NewKeyword)
    case "until" => Some(UntilKeyword)
    case _ => None
  }

  /** The one-character tokens. */
  function SymbolKind(c: char): Option<TokenKind> {
    match c
    case '(' => Some(OpenParenthesis)
    case ')' => Some(CloseParenthesis)
    case '{' => Some(OpenBrace)
    case '}' => Some(CloseBrace)
    case '[' => Some(OpenBracket)
    case ']' => Some(CloseBracket)
    case ',' => Some(Comma)
    case '.' => Some(Dot)
    case ';' => Some(Semicolon)
    case '^' => Some(Caret)
    case '&' => Some(Ampersand)
    case _ => None
  }

  /** Largest value `int.TryParse` accepts. */
  const Int32Max: nat := 0x7FFF_FFFF

  predicate IsLetter(c: char) {
    'a' <= c <= 'z' || 'A' <= c <= 'Z'
  }

  predicate IsWordChar(c: char) {
    IsLetter(c) || IsDigit(c) || c == '_'
  }

  predicate IsWhiteSpace(c: char) {
    c == ' ' || c == '\t' || c == '\n' || c == '\r' || c == '\U{B}' || c == '\U{C}'
  }

  /** The character classes whose runs the scanners collect. */
  datatype Run = Digits | WordChars | CommentChars

  predicate InRun(run: Run, c: char) {
    match run
    case Digits => IsDigit(c)
    case WordChars => IsWordChar(c)
    case CommentChars => c != '\n'
  }

  /** Whitespace that does not start a new line. */
  predicate IsBlank(c: char) {
    IsWhiteSpace(c) && c != '\n'
  }

  /** Every character the lexer accepts as the start of a token or of whitespace. */
  predicate IsHandled(c: char) {
    SymbolKind(c).Some? || c in "=<>!'+-*/%" || IsDigit(c) || IsLetter(c) || IsWhiteSpace(c)
  }

  /** The end of the longest run of characters of class `run` that starts at `i`. */
  function RunEnd(text: string, i: nat, run: Run): (j: nat)
    requires i <= |text|
    ensures i <= j <= |text|
    ensures forall k | i <= k < j :: InRun(run, text[k])
    ensures j == |text| || !InRun(run, text[j])
    decreases |text| - i
  {
    if i < |text| && InRun(run, text[i]) then RunEnd(text, i + 1, run) else i
  }

  /** A run end is determined by the two facts that characterise it. */
  lemma {:induction false} RunEndUnique(text: string, i: nat, j: nat, run: Run)
    requires i <= j <= |text|
    requires forall k | i <= k < j :: InRun(run, text[k])
    requires j == |text| || !InRun(run, text[j])
    ensures RunEnd(text, i, run) == j
    decreases j - i
  {
    if i < j {
      RunEndUnique(text, i + 1, j, run);
    }
  }

  /** A one- or two-character operator: the single token, and the pair token
      it becomes when followed by `=`. `atEndFails`: whether the operator as
      the last character of the text raises EndOfFile. */
  datatype Operator = Operator(pairKind: TokenKind, pairText: string,
                               singleKind: TokenKind, singleText: string, atEndFails: bool)

  /** The seven operators scanned by methods of the same shape. */
  function OperatorOf(c: char): Option<Operator> {
    if c == '=' then Some(Operator(Equals, "==", Assignment, "=", true))
    else if c == '<' then Some(Operator(LessThanOrEqualTo, "<=", LessThan, "<", true))
    else if c == '>' then Some(Operator(GreaterThanOrEqualTo, ">=", GreaterThan, ">", true))
    else if c == '!' then Some(Operator(NotEquals, "!=", Not, "!", true))
    else if c == '+' then Some(Operator(PlusAssignment, "+=", Plus, "+", false))
    else if c == '*' then Some(Operator(StarAssignment, "*=", Star, "*", false))
    else if c == '%' then Some(Operator(ModuloAssignment, "%=", Modulo, "%", false))
    else None
  }

  /** The operator `op` at `pos`: the pair token when `=` follows, otherwise
      the single token, or EndOfFile at the end of the text when `op` says so. */
  function OperatorScan(text: string, pos: nat, line: int, op: Operator): Scan
  {
    if pos + 1 < |text| then
      if text[pos + 1] == '=' then
        Scan(Success(Token(op.pairKind, TokenLocation(pos, 2, line), op.pairText)), pos + 1, line)
      else
        Scan(Success(Token(op.singleKind, TokenLocation(pos, 1, line), op.singleText)), pos, line)
    else if op.atEndFails then
      Scan(Failure(EndOfFile(TokenLocation(pos, 1, line))), pos, line)
    else
      Scan(Success(Token(op.singleKind, TokenLocation(pos, 1, line), op.singleText)), pos, line)
  }

  function MinusScan(text: string, pos: nat, line: int): Scan {
    if pos + 1 < |text| && text[pos + 1] == '=' then
      Scan(Success(Token(MinusAssignment, TokenLocation(pos, 2, line), "-=")), pos + 1, line)
    else if pos + 1 < |text| && text[pos + 1] == '>' then
      Scan(Success(Token(Yields, TokenLocation(pos, 2, line), "->")), pos + 1, line)
    else
      Scan(Success(Token(Minus, TokenLocation(pos, 1, line), "-")), pos, line)
  }

  /** `//` starts a comment that runs up to, not including, the next newline;
      it scans as whitespace whose last character is left at `pos`. */
  function SlashScan(text: string, pos: nat, line: int): Scan
    requires pos < |text| && text[pos] == '/'
  {
    if pos + 1 < |text| && text[pos + 1] == '/' then
      assert RunEnd(text, pos, CommentChars) == RunEnd(text, pos + 1, CommentChars);
      var last := RunEnd(text, pos, CommentChars) - 1;
      Scan(Success(Token(Whitespace, TokenLocation(pos, last - pos + 1, line), "")), last, line)
    else if pos + 1 < |text| && text[pos + 1] == '=' then
      Scan(Success(Token(DivideAssignment, TokenLocation(pos, 2, line), "/=")), pos + 1, line)
    else
      Scan(Success(Token(Divide, TokenLocation(pos, 1, line), "/")), pos, line)
  }

  function NumberScan(text: string, pos: nat, line: int): Scan
    requires pos < |text| && IsDigit(text[pos])
  {
    var end := RunEnd(text, pos, Digits);
    var digits := text[pos..end];
    var loc := TokenLocation(pos, |digits|, line);
    if DecimalValue(digits) <= Int32Max then
      Scan(Success(Token(WordLiteral, loc, digits)), end - 1, line)
    else
      Scan(Failure(InvalidNumber(loc, digits)), end - 1, line)
  }

  /** Keyword, boolean literal or identifier, by the spelling of the word. */
  function WordKind(word: string): TokenKind {
    if KeywordKind(word).Some? then KeywordKind(word).value
    else if word == "true" || word == "false" then BoolLiteral
    else Identifier
  }

  /** A word is its keyword kind, BoolLiteral for `true`/`false`, and
      Identifier otherwise; none of these is whitespace or the end of input. */
  lemma WordKindCases(word: string)
    ensures KeywordKind(word).Some? ==> WordKind(word) == KeywordKind(word).value
    ensures KeywordKind(word).None? && (word == "true" || word == "false") ==> WordKind(word) == BoolLiteral
    ensures KeywordKind(word).None? && word != "true" && word != "false" ==> WordKind(word) == Identifier
    ensures WordKind(word) != Whitespace && WordKind(word) != EOF
  {
  }

  function IdentifierScan(text: string, pos: nat, line: int): Scan
    requires pos < |text| && IsWordChar(text[pos])
  {
    var end := RunEnd(text, pos, WordChars);
    var word := text[pos..end];
    Scan(Success(Token(WordKind(word), TokenLocation(pos, |word|, line), word)), end - 1, line)
  }

  /** The identifier scan from `start`, once the end of the word is known. */
  lemma IdentifierScanAt(text: string, start: nat, end: nat, line: int)
    requires start < end <= |text| && IsWordChar(text[start]) && RunEnd(text, start, WordChars) == end
    ensures var word := text[start..end];
      IdentifierScan(text, start, line) == Scan(Success(Token(WordKind(word), TokenLocation(start, |word|, line), word)), end - 1, line)
  {
  }

  /** `'c'` with a letter or digit `c` is the word literal of its code. */
  function CharLiteralScan(text: string, pos: nat, line: int): Scan {
    var p := pos + 1;
    if p >= |text| then
      Scan(Failure(IndexOutOfRange), p, line)
    else if !(IsLetter(text[p]) || IsDigit(text[p])) then
      Scan(Failure(UnexpectedCharacter(TokenLocation(p, 1, line), text[p])), p, line)
    else if p + 1 >= |text| then
      Scan(Failure(IndexOutOfRange), p + 1, line)
    else if text[p + 1] != '\'' then
      Scan(Failure(UnexpectedCharacter(TokenLocation(p + 1, 1, line), text[p + 1])), p + 1, line)
    else
      Scan(Success(Token(WordLiteral, TokenLocation(pos, 3, line), NatToString(text[p] as int))), p + 1, line)
  }

  /** One step of the lexer: the token (or whitespace) starting at `pos`,
      leaving `pos` at its last character. The tests are on distinct
      characters, so taking the seven operators together changes nothing. */
  function HelperScan(text: string, pos: nat, line: int): (s: Scan)
    ensures pos < |text| && s.result.Success? ==> pos <= s.pos < |text|
    ensures s.line == line || (pos < |text| && text[pos] == '\n' && s.line == line + 1)
  {
    if pos >= |text| then
      Scan(Success(Token(EOF, TokenLocation(0, 0, 0), "")), pos, line)
    else
      var c := text[pos];
      if SymbolKind(c).Some? then
        Scan(Success(Token(SymbolKind(c).value, TokenLocation(pos, 1, line), [c])), pos, line)
      else if OperatorOf(c).Some? then
        OperatorScan(text, pos, line, OperatorOf(c).value)
      else if c == '\'' then
        CharLiteralScan(text, pos, line)
      else if c == '-' then
        MinusScan(text, pos, line)
      else if c == '/' then
        SlashScan(text, pos, line)
      else if IsDigit(c) then
        NumberScan(text, pos, line)
      else if IsLetter(c) then
        IdentifierScan(text, pos, line)
      else if c == '\n' then
        Scan(Success(Token(Whitespace, TokenLocation(pos, 1, line + 1), [c])), pos, line + 1)
      else if IsWhiteSpace(c) then
        Scan(Success(Token(Whitespace, TokenLocation(pos, 1, line), [c])), pos, line)
      else
        Scan(Failure(UnexpectedCharacter(TokenLocation(pos, 1, line), c)), pos, line)
  }

  /** What `GetToken` returns and the state it leaves: whitespace is skipped,
      an exception stops the scan where the failing step left it. */
  function TokenScan(text: string, pos: nat, line: int): Scan
    decreases |text| - pos, 1
  {
    if pos < |text| then TokenPass(text, pos, line)
    else Scan(Success(Token(EOF, TokenLocation(pos, 0, line), "")), pos, line)
  }

  /** One pass of the `GetToken` loop at `pos`: a step, then the token it
      found, or the rest of the loop after whitespace. */
  function TokenPass(text: string, pos: nat, line: int): Scan
    requires pos < |text|
    decreases |text| - pos, 0
  {
    var h := HelperScan(text, pos, line);
    if h.result.Failure? then h
    else if h.result.value.kind != Whitespace then Scan(h.result, h.pos + 1, h.line)
    else TokenScan(text, h.pos + 1, h.line)
  }

  /** One pass of the `GetToken` loop, as a fact about `TokenScan`. */
  lemma TokenScanStep(text: string, pos: nat, line: int)
    requires pos < |text|
    ensures var h := HelperScan(text, pos, line);
      TokenScan(text, pos, line) ==
        if h.result.Failure? then h
        else if h.result.value.kind != Whitespace then Scan(h.result, h.pos + 1, h.line)
        else TokenScan(text, h.pos + 1, h.line)
  {
    assert TokenScan(text, pos, line) == TokenPass(text, pos, line);
  }

  /** The number of line breaks in `text[i..j]`. */
  function NewlinesIn(text: string, i: nat, j: nat): nat
    requires i <= j <= |text|
    decreases j - i
  {
    if i == j then 0 else (if text[i] == '\n' then 1 else 0) + NewlinesIn(text, i + 1, j)
  }

  lemma {:induction false} NewlinesSplit(text: string, i: nat, j: nat, k: nat)
    requires i <= j <= k <= |text|
    ensures NewlinesIn(text, i, k) == NewlinesIn(text, i, j) + NewlinesIn(text, j, k)
    decreases j - i
  {
    if i < j {
      NewlinesSplit(text, i + 1, j, k);
    }
  }

  lemma {:induction false} NewlinesNone(text: string, i: nat, j: nat)
    requires i <= j <= |text|
    requires forall k | i <= k < j :: text[k] != '\n'
    ensures NewlinesIn(text, i, j) == 0
    decreases j - i
  {
    if i < j {
      NewlinesNone(text, i + 1, j);
    }
  }

  /** `GetToken` never hands out whitespace; EOF comes only once the text is
      used up, located at the end position with length 0, and any other token
      leaves the position inside the text. */
  lemma {:induction false} TokenIsNeverWhitespace(text: string, pos: nat, line: int)
    ensures var s := TokenScan(text, pos, line);
      s.result.Success? ==>
        && s.result.value.kind != Whitespace
        && (s.result.value.kind == EOF ==>
              s.pos >= |text| && s.result.value.location == TokenLocation(s.pos, 0, s.line))
        && (s.result.value.kind != EOF ==> s.pos <= |text|)
    decreases |text| - pos
  {
    if pos < |text| {
      var h := HelperScan(text, pos, line);
      TokenScanStep(text, pos, line);
      if h.result.Success? {
        HelperNeverEOF(text, pos, line);
        if h.result.value.kind == Whitespace {
          TokenIsNeverWhitespace(text, h.pos + 1, h.line);
        }
      }
    }
  }

  lemma HelperNeverEOF(text: string, pos: nat, line: int)
    requires pos < |text| && HelperScan(text, pos, line).result.Success?
    ensures HelperScan(text, pos, line).result.value.kind != EOF
  {
  }

  /** Blanks (whitespace other than a newline) before a token change nothing. */
  lemma {:induction false} BlanksAreSkipped(text: string, pos: nat, k: nat, line: int)
    requires pos <= k <= |text|
    requires forall i | pos <= i < k :: IsBlank(text[i])
    ensures TokenScan(text, pos, line) == TokenScan(text, k, line)
    decreases k - pos
  {
    forall i | pos <= i < k
      ensures TokenScan(text, i, line) == TokenScan(text, i + 1, line)
    {
      BlankStep(text, i, line);
    }
    StepsEqual(i => TokenScan(text, i, line), pos, k);
  }

  /** Values equal from each point to the next are equal across a range. */
  lemma {:induction false} StepsEqual<V>(f: nat -> V, pos: nat, k: nat)
    requires pos <= k
    requires forall i: nat | pos <= i < k :: f(i) == f(i + 1)
    ensures f(pos) == f(k)
    decreases k - pos
  {
    if pos < k {
      StepsEqual(f, pos + 1, k);
    }
  }

  lemma BlankStep(text: string, pos: nat, line: int)
    requires pos < |text| && IsBlank(text[pos])
    ensures TokenScan(text, pos, line) == TokenScan(text, pos + 1, line)
  {
    HelperOnBlank(text, pos, line);
    TokenScanStep(text, pos, line);
  }

  lemma HelperOnBlank(text: string, pos: nat, line: int)
    requires pos < |text| && IsBlank(text[pos])
    ensures HelperScan(text, pos, line) == Scan(Success(Token(Whitespace, TokenLocation(pos, 1, line), [text[pos]])), pos, line)
  {
  }

  /** `<`, `=`, `>` or `!` as the last character of the text (after blanks)
      raises EndOfFile at that character. */
  lemma FinalComparisonIsEndOfFile(text: string, pos: nat, line: int)
    requires pos < |text| && text[|text| - 1] in "<=>!"
    requires forall i | pos <= i < |text| - 1 :: IsBlank(text[i])
    ensures TokenScan(text, pos, line).result == Failure(EndOfFile(TokenLocation(|text| - 1, 1, line)))
  {
    BlanksAreSkipped(text, pos, |text| - 1, line);
    FinalOperator(text, |text| - 1, line);
    TokenScanStep(text, |text| - 1, line);
  }

  lemma FinalOperator(text: string, pos: nat, line: int)
    requires pos + 1 == |text| && text[pos] in "<=>!"
    ensures HelperScan(text, pos, line) == Scan(Failure(EndOfFile(TokenLocation(pos, 1, line))), pos, line)
  {
  }

  /** A character raises UnexpectedCharacter at its own position exactly when
      it is outside the set the lexer handles. */
  lemma UnexpectedCharacterIffUnhandled(text: string, pos: nat, line: int)
    requires pos < |text|
    ensures HelperScan(text, pos, line).result == Failure(UnexpectedCharacter(TokenLocation(pos, 1, line), text[pos]))
        <==> !IsHandled(text[pos])
  {
    var c := text[pos];
    if c == '\'' {
      var p := pos + 1;
      assert HelperScan(text, pos, line) == CharLiteralScan(text, pos, line);
    }
  }

  /** An unhandled character after blanks makes `GetToken` fail there. */
  lemma UnexpectedCharacterRaised(text: string, pos: nat, k: nat, line: int)
    requires pos <= k < |text| && !IsHandled(text[k])
    requires forall i | pos <= i < k :: IsBlank(text[i])
    ensures TokenScan(text, pos, line).result == Failure(UnexpectedCharacter(TokenLocation(k, 1, line), text[k]))
  {
    BlanksAreSkipped(text, pos, k, line);
    UnexpectedCharacterIffUnhandled(text, k, line);
  }

  /** A `//` comment is skipped up to the newline that ends it (or to the end
      of the text); lexing resumes at that newline. */
  lemma CommentIsSkipped(text: string, pos: nat, line: int)
    requires pos + 1 < |text| && text[pos] == '/' && text[pos + 1] == '/'
    ensures var end := RunEnd(text, pos, CommentChars);
      (end == |text| || text[end] == '\n') && TokenScan(text, pos, line) == TokenScan(text, end, line)
  {
    CommentIsWhitespace(text, pos, line);
    var end := RunEnd(text, pos, CommentChars);
    var h := HelperScan(text, pos, line);
    assert h.result.Success? && h.result.value.kind == Whitespace && h.pos + 1 == end && h.line == line;
  }

  lemma CommentIsWhitespace(text: string, pos: nat, line: int)
    requires pos + 1 < |text| && text[pos] == '/' && text[pos + 1] == '/'
    ensures var end := RunEnd(text, pos, CommentChars);
      pos < end && HelperScan(text, pos, line)
        == Scan(Success(Token(Whitespace, TokenLocation(pos, end - pos, line), "")), end - 1, line)
  {
    assert RunEnd(text, pos, CommentChars) == RunEnd(text, pos + 1, CommentChars);
  }

  /** A word followed by a non-word character lexes, as a whole, to one
      token of the word's kind (see WordKindCases). */
  lemma LexWord(word: string, rest: string, line: int)
    requires |word| > 0 && IsLetter(word[0]) && forall i | 0 <= i < |word| :: IsWordChar(word[i])
    requires rest == [] || !IsWordChar(rest[0])
    ensures TokenScan(word + rest, 0, line)
      == Scan(Success(Token(WordKind(word), TokenLocation(0, |word|, line), word)), |word|, line)
  {
    var text := word + rest;
    HelperOnLetter(text, 0, line);
    TokenScanStep(text, 0, line);
    RunEndUnique(text, 0, |word|, WordChars);
    assert text[0..|word|] == word;
  }

  lemma HelperOnLetter(text: string, pos: nat, line: int)
    requires pos < |text| && IsLetter(text[pos])
    ensures HelperScan(text, pos, line) == IdentifierScan(text, pos, line)
  {
  }

  /** A run of digits followed by a non-digit is one number token whose text
      is exactly the run; a run whose value exceeds `int.MaxValue` raises
      InvalidNumber. */
  lemma LexNumber(digits: string, rest: string, line: int)
    requires |digits| > 0 && AllDigits(digits)
    requires rest == [] || !IsDigit(rest[0])
    ensures var loc := TokenLocation(0, |digits|, line);
      TokenScan(digits + rest, 0, line).result
        == if DecimalValue(digits) <= Int32Max then Success(Token(WordLiteral, loc, digits))
           else Failure(InvalidNumber(loc, digits))
  {
    var text := digits + rest;
    HelperOnDigit(text, 0, line);
    TokenScanStep(text, 0, line);
    RunEndUnique(text, 0, |digits|, Digits);
    assert text[0..|digits|] == digits;
  }

  lemma HelperOnDigit(text: string, pos: nat, line: int)
    requires pos < |text| && IsDigit(text[pos])
    ensures HelperScan(text, pos, line) == NumberScan(text, pos, line)
  {
  }

  /** Every character a successful step consumes is free of line breaks,
      except a newline scanned on its own. */
  lemma StepLines(text: string, pos: nat, line: int)
    requires pos < |text|
    ensures var h := HelperScan(text, pos, line);
      h.result.Success? ==> h.line == line + NewlinesIn(text, pos, h.pos + 1)
  {
    var h := HelperScan(text, pos, line);
    if h.result.Success? {
      var c := text[pos];
      if c == '\n' {
        assert h.pos == pos;
      } else {
        if c == '/' && pos + 1 < |text| && text[pos + 1] == '/' {
          assert RunEnd(text, pos, CommentChars) == RunEnd(text, pos + 1, CommentChars);
        }
        assert forall k | pos <= k <= h.pos :: text[k] != '\n';
        NewlinesNone(text, pos, h.pos + 1);
      }
    }
  }

  /** One pass of the `GetToken` loop with its step `h` named only by the
      lines it consumes. */
  lemma LinesStep(text: string, pos: nat, line: int) returns (h: Scan)
    requires pos < |text|
    ensures h.result.Success? ==> pos <= h.pos < |text| && h.line == line + NewlinesIn(text, pos, h.pos + 1)
    ensures TokenScan(text, pos, line) ==
        if h.result.Failure? then h
        else if h.result.value.kind != Whitespace then Scan(h.result, h.pos + 1, h.line)
        else TokenScan(text, h.pos + 1, h.line)
  {
    h := HelperScan(text, pos, line);
    TokenScanStep(text, pos, line);
    StepLines(text, pos, line);
  }

  /** The line counter advances by exactly the number of newlines consumed. */
  lemma {:induction false} LineCountsNewlines(text: string, pos: nat, line: int)
    requires pos <= |text|
    ensures var s := TokenScan(text, pos, line);
      s.result.Success? ==> pos <= s.pos <= |text| && s.line == line + NewlinesIn(text, pos, s.pos)
    decreases |text| - pos
  {
    if pos < |text| {
      var h := LinesStep(text, pos, line);
      if h.result.Success? {
        if h.result.value.kind == Whitespace {
          var s := TokenScan(text, h.pos + 1, h.line);
          LineCountsNewlines(text, h.pos + 1, h.line);
          if s.result.Success? {
            NewlinesSplit(text, pos, h.pos + 1, s.pos);
          }
        }
      }
    }
  }

  class Lexer {
    const text: string
    var pos: nat
    var line: int

    constructor(text: string)
      ensures this.text == text && pos == 0 && line == 1
    {
      this.text := text;
      pos := 0;
      line := 1;
    }

    /** The four operators `= < > !`, and `+ * %`, which differ only in their
        token kinds and in whether a final character is an error. */
    method GetOperator(op: Operator) returns (r: Result<Token, LexError>)
      modifies this
      ensures var s := OperatorScan(text, old(pos), old(line), op);
              r == s.result && pos == s.pos && line == s.line
    {
      if pos + 1 < |text| {
        if text[pos + 1] == '=' {
          var start := pos;
          pos := pos + 1;
          return Success(Token(op.pairKind, TokenLocation(start, 2, line), op.pairText));
        } else {
          return Success(Token(op.singleKind, TokenLocation(pos, 1, line), op.singleText));
        }
      }
      if op.atEndFails {
        return Failure(EndOfFile(TokenLocation(pos, 1, line)));
      }
      return Success(Token(op.singleKind, TokenLocation(pos, 1, line), op.singleText));
    }

    method GetMinusOrMinusAssignment() returns (r: Result<Token, LexError>)
      modifies this
      ensures var s := MinusScan(text, old(pos), old(line));
              r == s.result && pos == s.pos && line == s.line
    {
      if pos + 1 < |text| {
        if text[pos + 1] == '=' {
          pos := pos + 1;
          return Success(Token(MinusAssignment, TokenLocation(pos - 1, 2, line), "-="));
        } else if text[pos + 1] == '>' {
          pos := pos + 1;
          return Success(Token(Yields, TokenLocation(pos - 1, 2, line), "->"));
        }
      }
      return Success(Token(Minus, TokenLocation(pos, 1, line), "-"));
    }

    method GetSlashOrCommentOrDivideAssignment() returns (r: Result<Token, LexError>)
      requires pos < |text| && text[pos] == '/'
      modifies this
      ensures var s := SlashScan(text, old(pos), old(line));
              r == s.result && pos == s.pos && line == s.line
    {
      if pos + 1 < |text| {
        if text[pos + 1] == '/' {
          var start := pos;
          while pos < |text| && text[pos] != '\n'
            invariant start <= pos <= |text| && line == old(line)
            invariant RunEnd(text, pos, CommentChars) == RunEnd(text, start, CommentChars)
            decreases |text| - pos
          {
            pos := pos + 1;
          }
          assert RunEnd(text, start, CommentChars) == RunEnd(text, start + 1, CommentChars);
          assert RunEnd(text, pos, CommentChars) == pos;
          pos := pos - 1;
          return Success(Token(Whitespace, TokenLocation(start, pos - start + 1, line), ""));
        } else if text[pos + 1] == '=' {
          pos := pos + 1;
          return Success(Token(DivideAssignment, TokenLocation(pos - 1, 2, line), "/="));
        }
      }
      return Success(Token(Divide, TokenLocation(pos, 1, line), "/"));
    }

    method GetNumber() returns (r: Result<Token, LexError>)
      requires pos < |text| && IsDigit(text[pos])
      modifies this
      ensures var s := NumberScan(text, old(pos), old(line));
              r == s.result && pos == s.pos && line == s.line
    {
      var start := pos;
      var digits := "";
      while pos < |text| && IsDigit(text[pos])
        invariant start <= pos <= |text| && line == old(line)
        invariant RunEnd(text, pos, Digits) == RunEnd(text, start, Digits)
        invariant digits == text[start..pos]
        decreases |text| - pos
      {
        digits := digits + [text[pos]];
        pos := pos + 1;
      }
      assert RunEnd(text, pos, Digits) == pos;
      assert digits == text[start..RunEnd(text, start, Digits)];
      pos := pos - 1;
      var loc := TokenLocation(start, |digits|, line);
      if DecimalValue(digits) <= Int32Max {
        return Success(Token(WordLiteral, loc, digits));
      } else {
        return Failure(InvalidNumber(loc, digits));
      }
    }

    method GetIdentifier() returns (r: Result<Token, LexError>)
      requires pos < |text| && IsLetter(text[pos])
      modifies this
      ensures var s := IdentifierScan(text, old(pos), old(line));
              r == s.result && pos == s.pos && line == s.line
    {
      var start := pos;
      var id := "";
      while pos < |text| && IsWordChar(text[pos])
        invariant start <= pos <= |text| && line == old(line)
        invariant RunEnd(text, pos, WordChars) == RunEnd(text, start, WordChars)
        invariant id == text[start..pos]
        decreases |text| - pos
      {
        id := id + [text[pos]];
        pos := pos + 1;
      }
      assert RunEnd(text, pos, WordChars) == pos;
      IdentifierScanAt(text, start, pos, line);
      pos := pos - 1;
      var location := TokenLocation(start, |id|, line);
      return Success(Token(WordKind(id), location, id));
    }

    method GetCharLiteral() returns (r: Result<Token, LexError>)
      modifies this
      ensures var s := CharLiteralScan(text, old(pos), old(line));
              r == s.result && pos == s.pos && line == s.line
    {
      var start := pos;
      pos := pos + 1;
      if pos >= |text| {
        return Failure(IndexOutOfRange);
      }
      if !(IsLetter(text[pos]) || IsDigit(text[pos])) {
        return Failure(UnexpectedCharacter(TokenLocation(pos, 1, line), text[pos]));
      }
      var c := text[pos] as int;
      pos := pos + 1;
      if pos >= |text| {
        return Failure(IndexOutOfRange);
      }
      if text[pos] != '\'' {
        return Failure(UnexpectedCharacter(TokenLocation(pos, 1, line), text[pos]));
      }
      return Success(Token(WordLiteral, TokenLocation(start, 3, line), NatToString(c)));
    }

    method GetTokenHelper() returns (r: Result<Token, LexError>)
      modifies this
      ensures var s := HelperScan(text, old(pos), old(line));
              r == s.result && pos == s.pos && line == s.line
    {
      if pos >= |text| {
        return Success(Token(EOF, TokenLocation(0, 0, 0), ""));
      }
      var c := text[pos];
      var symbol := SymbolKind(c);
      if symbol.Some? {
        r := Success(Token(symbol.value, TokenLocation(pos, 1, line), [c]));
      } else if c == '=' {
        r := GetOperator(Operator(Equals, "==", Assignment, "=", true));
      } else if c == '<' {
        r := GetOperator(Operator(LessThanOrEqualTo, "<=", LessThan, "<", true));
      } else if c == '>' {
        r := GetOperator(Operator(GreaterThanOrEqualTo, ">=", GreaterThan, ">", true));
      } else if c == '!' {
        r := GetOperator(Operator(NotEquals, "!=", Not, "!", true));
      } else if c == '\'' {
        r := GetCharLiteral();
      } else if c == '+' {
        r := GetOperator(Operator(PlusAssignment, "+=", Plus, "+", false));
      } else if c == '-' {
        r := GetMinusOrMinusAssignment();
      } else if c == '*' {
        r := GetOperator(Operator(StarAssignment, "*=", Star, "*", false));
      } else if c == '/' {
        r := GetSlashOrCommentOrDivideAssignment();
      } else if c == '%' {
        r := GetOperator(Operator(ModuloAssignment, "%=", Modulo, "%", false));
      } else if IsDigit(c) {
        r := GetNumber();
      } else if IsLetter(c) {
        r := GetIdentifier();
      } else if c == '\n' {
        line := line + 1;
        r := Success(Token(Whitespace, TokenLocation(pos, 1, line), [c]));
      } else if IsWhiteSpace(c) {
        r := Success(Token(Whitespace, TokenLocation(pos, 1, line), [c]));
      } else {
        r := Failure(UnexpectedCharacter(TokenLocation(pos, 1, line), c));
      }
    }

    /** The next token that is not whitespace, or EOF once the text is used up. */
    method GetToken() returns (r: Result<Token, LexError>)
      modifies this
      ensures var s := TokenScan(text, old(pos), old(line));
              r == s.result && pos == s.pos && line == s.line
    {
      while pos < |text|
        invariant TokenScan(text, pos, line) == TokenScan(text, old(pos), old(line))
        decreases |text| - pos
      {
        var tok, done := GetTokenPass();
        if done {
          return tok;
        }
      }
      return Success(Token(EOF, TokenLocation(pos, 0, line), ""));
    }

    /** One pass of the loop in GetToken: a step, and the stop when it
        fails or yields a token that is not whitespace. */
    method GetTokenPass() returns (r: Result<Token, LexError>, done: bool)
      requires pos < |text|
      modifies this
      ensures done ==> var s := TokenScan(text, old(pos), old(line));
                r == s.result && pos == s.pos && line == s.line
      ensures !done ==> old(pos) < pos <= |text| && TokenScan(text, pos, line) == TokenScan(text, old(pos), old(line))
    {
      TokenScanStep(text, pos, line);
      r := GetTokenHelper();
      if r.Failure? {
        return r, true;
      }
      pos := pos + 1;
      done := r.value.kind != Whitespace;
    }

    /** The token `GetToken` would return; on success the position and line are
        restored, so the next `GetToken` returns the same token. An exception
        propagates before the restore. */
    method PeekToken() returns (r: Result<Token, LexError>)
      modifies this
      ensures r == TokenScan(text, old(pos), old(line)).result
      ensures r.Success? ==> pos == old(pos) && line == old(line)
      ensures r.Failure? ==>
                pos == TokenScan(text, old(pos), old(line)).pos && line == TokenScan(text, old(pos), old(line)).line
    {
      var oldPos := pos;
      var oldLine := line;
      r := GetToken();
      if r.Success? {
        pos := oldPos;
        line := oldLine;
      }
    }
  }
}
