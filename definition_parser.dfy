/** The definition-list parser of src/definitionParser.ts: text such as
    `login(name: string, device)\nlogoff` becomes an ordered list of
    `Definition`s in four stages — input clean-up, a four-state tokenizer run as
    a left fold over the characters, a split of the token list at `Name`
    tokens, and a fold of every group into one `Definition`. */
module DefinitionParser {
  import opened Text
  import opened Optional
  import Common

  // ===========================================================================
  // Stage 1: input clean-up

  /** `replace(/(\r\n)/g, '\n')`: one left-to-right pass over non-overlapping
      matches. */
  function ReplaceCrlf(s: string): string {
    if |s| >= 2 && s[0] == '\r' && s[1] == '\n' then "\n" + ReplaceCrlf(s[2..])
    else if |s| == 0 then []
    else [s[0]] + ReplaceCrlf(s[1..])
  }

  /** A line whose trimmed form starts with `//`. */
  predicate IsCommentLine(line: string) {
    StartsWith(Trim(line), "//")
  }

  function DropCommentLines(lines: seq<string>): seq<string> {
    if |lines| == 0 then []
    else if IsCommentLine(lines[0]) then DropCommentLines(lines[1..])
    else [lines[0]] + DropCommentLines(lines[1..])
  }

  function CleanupInput(definition: string): string {
    Trim(Join(DropCommentLines(Split(ReplaceCrlf(definition), '\n')), "\n"))
  }

  function WithoutCarriageReturns(s: string): (r: string)
    ensures '\r' !in r
  {
    if |s| == 0 then [] else (if s[0] == '\r' then [] else [s[0]]) + WithoutCarriageReturns(s[1..])
  }

  /** The CRLF replacement drops carriage returns and nothing else. */
  lemma {:induction false} ReplaceCrlfOnlyDropsCarriageReturns(s: string)
    ensures WithoutCarriageReturns(ReplaceCrlf(s)) == WithoutCarriageReturns(s)
  {
    if |s| >= 2 && s[0] == '\r' && s[1] == '\n' {
      ReplaceCrlfOnlyDropsCarriageReturns(s[2..]);
      assert s[1..][1..] == s[2..];
      assert ("\n" + ReplaceCrlf(s[2..]))[1..] == ReplaceCrlf(s[2..]);
    } else if |s| > 0 {
      ReplaceCrlfOnlyDropsCarriageReturns(s[1..]);
      assert ([s[0]] + ReplaceCrlf(s[1..]))[1..] == ReplaceCrlf(s[1..]);
    }
  }

  /** Text without carriage returns passes the replacement unchanged. */
  lemma {:induction false} ReplaceCrlfWithoutCarriageReturn(s: string)
    requires '\r' !in s
    ensures ReplaceCrlf(s) == s
  {
    if |s| > 0 {
      assert '\r' !in s[1..];
      ReplaceCrlfWithoutCarriageReturn(s[1..]);
    }
  }

  /** The replacement is a single pass: `\r\r\n` still holds a CRLF pair
      afterwards. */
  lemma ReplaceCrlfIsSinglePass()
    ensures ReplaceCrlf("\r\r\n") == "\r\n"
  {
    assert "\r\r\n"[1..] == "\r\n";
    assert "\r\n"[2..] == [];
  }

  function CutTrailingCarriageReturn(line: string): string {
    if |line| > 0 && line[|line| - 1] == '\r' then line[..|line| - 1] else line
  }

  /** A line followed by a line feed loses at most the carriage return just
      before that line feed. */
  lemma {:induction false} ReplaceCrlfLine(line: string, rest: string)
    requires '\n' !in line
    ensures ReplaceCrlf(line + "\n" + rest) == CutTrailingCarriageReturn(line) + "\n" + ReplaceCrlf(rest)
  {
    var s := line + "\n" + rest;
    if |line| == 0 {
      assert s == "\n" + rest && s[1..] == rest;
    } else if line[0] == '\r' && |line| == 1 {
      assert s[2..] == rest;
    } else {
      assert s[1..] == line[1..] + "\n" + rest;
      assert '\n' !in line[1..];
      ReplaceCrlfLine(line[1..], rest);
      if |line| > 1 {
        assert s[1] == line[1];
        CutAfterFirst(line);
      }
    }
  }

  lemma CutAfterFirst(line: string)
    requires |line| > 1
    ensures CutTrailingCarriageReturn(line) == [line[0]] + CutTrailingCarriageReturn(line[1..])
  {
    assert line[1..][|line| - 2] == line[|line| - 1];
    assert line[..|line| - 1] == [line[0]] + line[1..][..|line| - 2];
  }

  /** A text without carriage returns whose lines are not comments is only
      trimmed. */
  lemma CleanupOfPlainText(definition: string)
    requires '\r' !in definition
    requires forall i :: 0 <= i < |Split(definition, '\n')| ==> !IsCommentLine(Split(definition, '\n')[i])
    ensures CleanupInput(definition) == Trim(definition)
  {
    ReplaceCrlfWithoutCarriageReturn(definition);
    KeepAllLines(Split(definition, '\n'));
    JoinSplit(definition, '\n');
    assert [ '\n' ] == "\n";
  }

  lemma {:induction false} KeepAllLines(lines: seq<string>)
    requires forall i :: 0 <= i < |lines| ==> !IsCommentLine(lines[i])
    ensures DropCommentLines(lines) == lines
  {
    if |lines| > 0 {
      KeepAllLines(lines[1..]);
    }
  }

  /** A text with neither `/` nor a carriage return has no comment lines. */
  lemma CleanupWithoutSlashes(definition: string)
    requires '\r' !in definition && '/' !in definition
    ensures CleanupInput(definition) == Trim(definition)
  {
    var lines := Split(definition, '\n');
    SplitPiecesFromText(definition, '\n', '/');
    forall i | 0 <= i < |lines| ensures !IsCommentLine(lines[i]) {
      var t := Trim(lines[i]);
      if |t| >= 2 {
        assert t[0] in lines[i];
      }
    }
    CleanupOfPlainText(definition);
  }

  predicate NoCommentLines(lines: seq<string>) {
    forall i :: 0 <= i < |lines| ==> !IsCommentLine(lines[i])
  }

  /** No line of `s` is a comment line. */
  predicate HasNoCommentLine(s: string) {
    NoCommentLines(Split(s, '\n'))
  }

  /** Whitespace added in front of a line does not make it a comment line. */
  lemma CommentLineAfterWhitespace(c: char, line: string)
    requires IsWhitespace(c)
    ensures IsCommentLine([c] + line) == IsCommentLine(line)
  {
    TrimPrependWhitespace(c, line);
  }

  lemma CommentLineBeforeWhitespace(line: string, c: char)
    requires IsWhitespace(c)
    ensures IsCommentLine(line + [c]) == IsCommentLine(line)
  {
    TrimAppendWhitespace(line, c);
  }

  lemma NoCommentLineWithoutFirst(s: string)
    requires |s| > 0 && IsWhitespace(s[0]) && HasNoCommentLine(s)
    ensures HasNoCommentLine(s[1..])
  {
    var lines, rest := Split(s, '\n'), Split(s[1..], '\n');
    if s[0] != '\n' {
      assert lines == [[s[0]] + rest[0]] + rest[1..];
      assert !IsCommentLine(lines[0]);
      CommentLineAfterWhitespace(s[0], rest[0]);
      forall i | 0 <= i < |rest| ensures !IsCommentLine(rest[i]) {
        if i > 0 { assert rest[i] == lines[i]; }
      }
    } else {
      assert lines == [[]] + rest;
      forall i | 0 <= i < |rest| ensures !IsCommentLine(rest[i]) {
        assert rest[i] == lines[i + 1];
      }
    }
  }

  lemma NoCommentLineWithoutFinalLineFeed(init: string)
    requires NoCommentLines(Split(init + ['\n'], '\n'))
    ensures NoCommentLines(Split(init, '\n'))
  {
    var lines := Split(init, '\n');
    assert init + ['\n'] == init + ['\n'] + [];
    SplitAtSeparator(init, [], '\n');
    assert Split(init + ['\n'], '\n') == lines + [[]];
    forall i | 0 <= i < |lines| ensures !IsCommentLine(lines[i]) {
      assert lines[i] == Split(init + ['\n'], '\n')[i];
    }
  }

  lemma NoCommentLineWithoutFinalSpace(init: string, c: char)
    requires IsWhitespace(c) && c != '\n'
    requires NoCommentLines(Split(init + [c], '\n'))
    ensures NoCommentLines(Split(init, '\n'))
  {
    assert '\n' !in [c];
    SplitExtendLast(init, [c], '\n');
    NoCommentLinesOfExtended(Split(init, '\n'), c);
  }

  lemma NoCommentLinesOfExtended(lines: seq<string>, c: char)
    requires |lines| >= 1 && IsWhitespace(c)
    requires NoCommentLines(ExtendLast(lines, [c]))
    ensures NoCommentLines(lines)
  {
    var all := ExtendLast(lines, [c]);
    var n := |lines| - 1;
    forall i | 0 <= i < |lines| ensures !IsCommentLine(lines[i]) {
      assert !IsCommentLine(all[i]);
      if i < n {
        assert lines[i] == lines[..n][i] == all[i];
      } else {
        assert all[i] == lines[n] + [c];
        CommentLineBeforeWhitespace(lines[n], c);
      }
    }
  }


  lemma NoCommentLineWithoutLast(s: string)
    requires |s| > 0 && IsWhitespace(s[|s| - 1]) && HasNoCommentLine(s)
    ensures HasNoCommentLine(s[..|s| - 1])
  {
    var init, c := s[..|s| - 1], s[|s| - 1];
    assert s == init + [c];
    if c == '\n' {
      NoCommentLineWithoutFinalLineFeed(init);
    } else {
      NoCommentLineWithoutFinalSpace(init, c);
    }
  }

  lemma {:induction false} NoCommentLineTrimStart(s: string)
    requires HasNoCommentLine(s)
    ensures HasNoCommentLine(TrimStart(s))
  {
    if |s| > 0 && IsWhitespace(s[0]) {
      NoCommentLineWithoutFirst(s);
      NoCommentLineTrimStart(s[1..]);
    }
  }

  lemma {:induction false} NoCommentLineTrimEnd(s: string)
    requires HasNoCommentLine(s)
    ensures HasNoCommentLine(TrimEnd(s))
  {
    if |s| > 0 && IsWhitespace(s[|s| - 1]) {
      NoCommentLineWithoutLast(s);
      NoCommentLineTrimEnd(s[..|s| - 1]);
    }
  }

  /** The cleaned-up text neither starts nor ends with whitespace. */
  lemma CleanupIsTrimmed(definition: string)
    ensures IsTrimmed(CleanupInput(definition))
  {
    var joined := Join(DropCommentLines(Split(ReplaceCrlf(definition), '\n')), "\n");
    assert CleanupInput(definition) == Trim(joined);
  }

  /** No line of the cleaned-up text, split at line feeds, is a comment line. */
  lemma CleanupRemovesCommentLines(definition: string)
    ensures HasNoCommentLine(CleanupInput(definition))
  {
    var kept := DropCommentLines(Split(ReplaceCrlf(definition), '\n'));
    var joined := Join(kept, "\n");
    if |kept| == 0 {
      assert joined == [];
      assert Split(joined, '\n') == [[]];
      assert Trim([]) == [];
    } else {
      assert "" + ['\n'] == "\n";
      DropCommentLinesKeepsLines(Split(ReplaceCrlf(definition), '\n'));
      DropCommentLinesLeavesNone(Split(ReplaceCrlf(definition), '\n'));
      SplitPiecesAvoidSeparator(ReplaceCrlf(definition), '\n');
      SplitJoin(kept, "", '\n');
      Common.SuffixEmpty(kept);
      NoCommentLineTrimStart(joined);
      NoCommentLineTrimEnd(TrimStart(joined));
    }
  }

  /** Filtering leaves no comment line. */
  lemma {:induction false} DropCommentLinesLeavesNone(lines: seq<string>)
    ensures NoCommentLines(DropCommentLines(lines))
  {
    if |lines| > 0 {
      DropCommentLinesLeavesNone(lines[1..]);
      var rest := DropCommentLines(lines[1..]);
      if !IsCommentLine(lines[0]) {
        var r := [lines[0]] + rest;
        assert DropCommentLines(lines) == r;
        forall i | 0 <= i < |r| ensures !IsCommentLine(r[i]) {
          if i > 0 { assert r[i] == rest[i - 1]; }
        }
      }
    }
  }

  /** A line that the filter of `cleanupInput` keeps. */
  predicate IsCodeLine(line: string) {
    !IsCommentLine(line)
  }

  /** Dropping comment lines is `filter` with the negated test: exactly the
      other lines stay, in their order. */
  lemma {:induction false} DropCommentLinesIsFilter(lines: seq<string>)
    ensures DropCommentLines(lines) == Filter(lines, IsCodeLine)
  {
    if |lines| > 0 {
      DropCommentLinesIsFilter(lines[1..]);
    }
  }

  /** Comment lines are dropped from each part of a list on its own. */
  lemma DropCommentLinesAppend(a: seq<string>, b: seq<string>)
    ensures DropCommentLines(a + b) == DropCommentLines(a) + DropCommentLines(b)
  {
    DropCommentLinesIsFilter(a + b);
    DropCommentLinesIsFilter(a);
    DropCommentLinesIsFilter(b);
    FilterAppend(a, b, IsCodeLine);
  }

  lemma {:induction false} DropCommentLinesKeepsLines(lines: seq<string>)
    ensures forall i :: 0 <= i < |DropCommentLines(lines)| ==> DropCommentLines(lines)[i] in lines
  {
    if |lines| > 0 {
      DropCommentLinesKeepsLines(lines[1..]);
    }
  }

  /** Prepending a comment line leaves the cleaned-up text unchanged. */
  lemma CleanupIgnoresCommentLine(comment: string, definition: string)
    requires '\n' !in comment && IsCommentLine(comment)
    ensures CleanupInput(comment + "\n" + definition) == CleanupInput(definition)
  {
    var line := CutTrailingCarriageReturn(comment);
    ReplaceCrlfLine(comment, definition);
    CutKeepsCommentLine(comment);
    var rest := ReplaceCrlf(definition);
    LinesAfterFirst(line, rest);
    DropCommentLinesCons(line, Split(rest, '\n'));
  }

  lemma CutKeepsCommentLine(comment: string)
    requires '\n' !in comment && IsCommentLine(comment)
    ensures '\n' !in CutTrailingCarriageReturn(comment)
    ensures IsCommentLine(CutTrailingCarriageReturn(comment))
  {
    var line := CutTrailingCarriageReturn(comment);
    if |comment| > 0 && comment[|comment| - 1] == '\r' {
      assert comment == line + ['\r'];
      TrimAppendWhitespace(line, '\r');
    }
  }

  lemma LinesAfterFirst(line: string, rest: string)
    requires '\n' !in line
    ensures Split(line + "\n" + rest, '\n') == [line] + Split(rest, '\n')
  {
    assert line + "\n" + rest == line + ['\n'] + rest;
    SplitAtSeparator(line, rest, '\n');
    SplitWithoutSeparator(line, '\n');
  }

  lemma DropCommentLinesCons(line: string, lines: seq<string>)
    ensures DropCommentLines([line] + lines) ==
      (if IsCommentLine(line) then [] else [line]) + DropCommentLines(lines)
  {
    assert ([line] + lines)[0] == line && ([line] + lines)[1..] == lines;
  }


  // ===========================================================================
  // Stage 2: the tokenizer

  datatype TokenType = Name | StartParams | EndParams | Parameter | Type

  /** A token under construction or finished; `level` is the brace level of its
      text, which goes negative on a stray `}`. */
  datatype Token = Token(tokenType: TokenType, text: string, level: int)

  /** The fold's accumulator: the finished tokens and the token being built. */
  datatype Tokenized = Tokenized(tokens: seq<Token>, lastToken: Token)

  /** A fresh token, optionally seeded with the character that started it; an
      opening brace as seed starts at level 1. */
  function NewToken(tokenType: TokenType, seed: Option<char>): (t: Token)
    ensures t.tokenType == tokenType
    ensures seed.None? ==> t.text == [] && t.level == 0
    ensures seed.Some? ==> t.text == [seed.value] && t.level == (if seed.value == '{' then 1 else 0)
  {
    match seed
    case None => Token(tokenType, [], 0)
    case Some(c) => Token(tokenType, [c], if c == '{' then 1 else 0)
  }

  /** Whitespace that is dropped from a token at brace level 0. */
  predicate IsInsignificant(c: char) {
    c == '\n' || c == ' ' || c == '\t'
  }

  function AppendTokenText(t: Token, c: char): Token {
    Token(
      t.tokenType,
      if t.level == 0 && IsInsignificant(c) then t.text else t.text + [c],
      if c == '{' then t.level + 1 else if c == '}' then t.level - 1 else t.level)
  }

  function ParseNameNext(c: char, tokens: seq<Token>, lastToken: Token): Tokenized {
    if c == '\n' then
      Tokenized(tokens + [lastToken], NewToken(Name, None))
    else if c == '(' then
      Tokenized(tokens + [lastToken, NewToken(StartParams, None)], NewToken(Parameter, None))
    else
      Tokenized(tokens, AppendTokenText(lastToken, c))
  }

  function ParseParameterNext(c: char, tokens: seq<Token>, lastToken: Token): Tokenized {
    if c == ')' then Tokenized(tokens + [lastToken], NewToken(EndParams, None))
    else if c == ',' then Tokenized(tokens + [lastToken], NewToken(Parameter, None))
    else if c == ':' then Tokenized(tokens + [lastToken], NewToken(Type, None))
    else Tokenized(tokens, AppendTokenText(lastToken, c))
  }

  function ParseTypeNext(c: char, tokens: seq<Token>, lastToken: Token): Tokenized {
    if c == ')' then
      Tokenized(tokens + [lastToken], NewToken(EndParams, None))
    else if c == ',' && lastToken.level == 0 then
      Tokenized(tokens + [lastToken], NewToken(Parameter, None))
    else
      Tokenized(tokens, AppendTokenText(lastToken, c))
  }

  function ParseEndParamsNext(c: char, tokens: seq<Token>, lastToken: Token): Tokenized {
    Tokenized(tokens + [lastToken], NewToken(Name, Some(c)))
  }

  /** One step of the fold, chosen by the type of the token being built; the
      accumulator is kept as it is when that token is a `StartParams` token. */
  function Step(acc: Tokenized, c: char): Tokenized {
    match acc.lastToken.tokenType
    case Name => ParseNameNext(c, acc.tokens, acc.lastToken)
    case Parameter => ParseParameterNext(c, acc.tokens, acc.lastToken)
    case Type => ParseTypeNext(c, acc.tokens, acc.lastToken)
    case EndParams => ParseEndParamsNext(c, acc.tokens, acc.lastToken)
    case StartParams => acc
  }

  /** The left fold of `Step` over the characters. */
  function Run(acc: Tokenized, s: string): Tokenized
    decreases |s|
  {
    if |s| == 0 then acc else Run(Step(acc, s[0]), s[1..])
  }

  const Start: Tokenized := Tokenized([], NewToken(Name, None))

  function TokenizeDefinitions(definition: string): seq<Token> {
    var done := Run(Start, CleanupInput(definition));
    done.tokens + [done.lastToken]
  }

  // ---------------------------------------------------------------------------
  // What the tokenizer guarantees

  /** The token types that may follow each other in the tokenizer's output:
      `Name (Name | StartParams Parameter (Type? (Parameter | EndParams Name)))`
      read as an automaton. */
  predicate CanFollow(before: TokenType, after: TokenType) {
    match before
    case Name => after == Name || after == StartParams
    case StartParams => after == Parameter
    case Parameter => after == EndParams || after == Parameter || after == Type
    case Type => after == EndParams || after == Parameter
    case EndParams => after == Name
  }

  /** A non-empty token list that starts with a `Name` token and whose adjacent
      tokens may follow each other. */
  predicate WellOrdered(ts: seq<Token>) {
    && |ts| >= 1
    && ts[0].tokenType == Name
    && forall i :: 0 < i < |ts| ==> CanFollow(ts[i - 1].tokenType, ts[i].tokenType)
  }

  /** Structural tokens carry no text; parameter names hold no delimiter; a type
      holds no closing parenthesis. */
  predicate TextsRespectDelimiters(ts: seq<Token>) {
    forall i :: 0 <= i < |ts| ==>
      && (ts[i].tokenType == StartParams || ts[i].tokenType == EndParams ==> ts[i].text == [] && ts[i].level == 0)
      && (ts[i].tokenType == Parameter ==> ',' !in ts[i].text && ':' !in ts[i].text && ')' !in ts[i].text)
      && (ts[i].tokenType == Type ==> ')' !in ts[i].text)
  }

  predicate IsTokenizerOutput(ts: seq<Token>) {
    && WellOrdered(ts)
    && TextsRespectDelimiters(ts)
    && ts[|ts| - 1].tokenType != StartParams
  }

  ghost predicate Invariant(acc: Tokenized) {
    && acc.lastToken.tokenType != StartParams
    && WellOrdered(acc.tokens + [acc.lastToken])
    && TextsRespectDelimiters(acc.tokens + [acc.lastToken])
  }

  lemma AppendKeepsTextRules(t: Token, c: char)
    requires t.tokenType == Parameter ==> ',' !in t.text && ':' !in t.text && ')' !in t.text && c != ',' && c != ':' && c != ')'
    requires t.tokenType == Type ==> ')' !in t.text && c != ')'
    ensures var t' := AppendTokenText(t, c);
      && t'.tokenType == t.tokenType
      && (t.tokenType == Parameter ==> ',' !in t'.text && ':' !in t'.text && ')' !in t'.text)
      && (t.tokenType == Type ==> ')' !in t'.text)
  {
  }

  /** Replacing the token being built by one of the same type with text that
      keeps the rules keeps the invariant. */
  lemma ReplaceLastKeepsInvariant(acc: Tokenized, t: Token)
    requires Invariant(acc)
    requires t.tokenType == acc.lastToken.tokenType && t.tokenType != EndParams
    requires t.tokenType == Parameter ==> ',' !in t.text && ':' !in t.text && ')' !in t.text
    requires t.tokenType == Type ==> ')' !in t.text
    ensures Invariant(Tokenized(acc.tokens, t))
  {
    var ts, ts' := acc.tokens + [acc.lastToken], acc.tokens + [t];
    forall i | 0 < i < |ts'| ensures CanFollow(ts'[i - 1].tokenType, ts'[i].tokenType) {
      assert ts'[i - 1].tokenType == ts[i - 1].tokenType && ts'[i].tokenType == ts[i].tokenType;
    }
    forall i | 0 <= i < |ts'|
      ensures ts'[i].tokenType == StartParams || ts'[i].tokenType == EndParams ==> ts'[i].text == [] && ts'[i].level == 0
      ensures ts'[i].tokenType == Parameter ==> ',' !in ts'[i].text && ':' !in ts'[i].text && ')' !in ts'[i].text
      ensures ts'[i].tokenType == Type ==> ')' !in ts'[i].text
    {
      if i < |ts'| - 1 { assert ts'[i] == ts[i]; }
    }
  }

  /** Finishing the token being built and starting `next` keeps the invariant
      when `next` may follow it. */
  lemma PushKeepsInvariant(acc: Tokenized, next: Token)
    requires Invariant(acc)
    requires CanFollow(acc.lastToken.tokenType, next.tokenType) && next.tokenType != StartParams
    requires next.tokenType == EndParams ==> next.text == [] && next.level == 0
    requires next.tokenType == Parameter || next.tokenType == Type ==> next.text == []
    ensures Invariant(Tokenized(acc.tokens + [acc.lastToken], next))
  {
    var ts := acc.tokens + [acc.lastToken];
    assert ts + [next] == (acc.tokens + [acc.lastToken]) + [next];
    forall i | 0 < i < |ts + [next]| ensures CanFollow((ts + [next])[i - 1].tokenType, (ts + [next])[i].tokenType) {
      if i < |ts| { assert (ts + [next])[i - 1] == ts[i - 1] && (ts + [next])[i] == ts[i]; }
    }
  }

  lemma StepKeepsInvariant(acc: Tokenized, c: char)
    requires Invariant(acc)
    ensures Invariant(Step(acc, c))
  {
    var last := acc.lastToken;
    match last.tokenType
    case Name =>
      if c == '\n' {
        PushKeepsInvariant(acc, NewToken(Name, None));
      } else if c == '(' {
        var marker := NewToken(StartParams, None);
        var mid := Tokenized(acc.tokens + [last], marker);
        var ts := acc.tokens + [last];
        var ts' := ts + [marker] + [NewToken(Parameter, None)];
        assert Step(acc, c) == Tokenized(ts + [marker], NewToken(Parameter, None));
        assert ts' == Step(acc, c).tokens + [Step(acc, c).lastToken];
        forall i | 0 < i < |ts'| ensures CanFollow(ts'[i - 1].tokenType, ts'[i].tokenType) {
          if i < |ts| { assert ts'[i - 1] == ts[i - 1] && ts'[i] == ts[i]; }
        }
        forall i | 0 <= i < |ts'|
          ensures ts'[i].tokenType == StartParams || ts'[i].tokenType == EndParams ==> ts'[i].text == [] && ts'[i].level == 0
          ensures ts'[i].tokenType == Parameter ==> ',' !in ts'[i].text && ':' !in ts'[i].text && ')' !in ts'[i].text
          ensures ts'[i].tokenType == Type ==> ')' !in ts'[i].text
        {
          if i < |ts| { assert ts'[i] == ts[i]; }
        }
      } else {
        ReplaceLastKeepsInvariant(acc, AppendTokenText(last, c));
      }
    case Parameter =>
      if c == ')' {
        PushKeepsInvariant(acc, NewToken(EndParams, None));
      } else if c == ',' {
        PushKeepsInvariant(acc, NewToken(Parameter, None));
      } else if c == ':' {
        PushKeepsInvariant(acc, NewToken(Type, None));
      } else {
        assert TextsRespectDelimiters(acc.tokens + [last]);
        assert (acc.tokens + [last])[|acc.tokens|] == last;
        AppendKeepsTextRules(last, c);
        ReplaceLastKeepsInvariant(acc, AppendTokenText(last, c));
      }
    case Type =>
      if c == ')' {
        PushKeepsInvariant(acc, NewToken(EndParams, None));
      } else if c == ',' && last.level == 0 {
        PushKeepsInvariant(acc, NewToken(Parameter, None));
      } else {
        assert (acc.tokens + [last])[|acc.tokens|] == last;
        AppendKeepsTextRules(last, c);
        ReplaceLastKeepsInvariant(acc, AppendTokenText(last, c));
      }
    case EndParams =>
      PushKeepsInvariant(acc, NewToken(Name, Some(c)));
  }

  lemma {:induction false} RunKeepsInvariant(acc: Tokenized, s: string)
    requires Invariant(acc)
    ensures Invariant(Run(acc, s))
    decreases |s|
  {
    if |s| > 0 {
      StepKeepsInvariant(acc, s[0]);
      RunKeepsInvariant(Step(acc, s[0]), s[1..]);
    }
  }

  /** The tokenizer's output is never empty, starts with a `Name` token, lists
      only token types that may follow each other (so every `StartParams`
      token comes right after a `Name` token and every `Type` token right after
      a `Parameter` token), and does not end with a `StartParams` token: the
      fold never reaches its fallback branch. */
  lemma TokenizeShape(definition: string)
    ensures IsTokenizerOutput(TokenizeDefinitions(definition))
  {
    RunFromStart(CleanupInput(definition));
  }

  /** What the fold produces from the start state, for any text. */
  lemma RunFromStart(s: string)
    ensures IsTokenizerOutput(Run(Start, s).tokens + [Run(Start, s).lastToken])
  {
    StartInvariant();
    RunKeepsInvariant(Start, s);
    var done := Run(Start, s);
    assert (done.tokens + [done.lastToken])[|done.tokens|] == done.lastToken;
  }

  lemma StartInvariant()
    ensures Invariant(Start)
  {
    assert Start.tokens + [Start.lastToken] == [Token(Name, [], 0)];
  }

  /** In a well-ordered token list every `StartParams` token comes right after
      a `Name` token, every `Type` token right after a `Parameter` token, and
      every `Parameter` token inside a parameter list. */
  lemma WellOrderedMarkers(ts: seq<Token>)
    requires WellOrdered(ts)
    ensures forall i :: 0 <= i < |ts| && ts[i].tokenType == StartParams ==> i > 0 && ts[i - 1].tokenType == Name
    ensures forall i :: 0 <= i < |ts| && ts[i].tokenType == Type ==> i > 0 && ts[i - 1].tokenType == Parameter
    ensures forall i :: 0 <= i < |ts| && ts[i].tokenType == Parameter ==>
      i > 0 && ts[i - 1].tokenType in {StartParams, Parameter, Type}
  {
    forall i | 0 < i < |ts| ensures CanFollow(ts[i - 1].tokenType, ts[i].tokenType) { }
  }

  // ---------------------------------------------------------------------------
  // Single steps, as the state table describes them

  /** In the `Type` state a comma ends the type only at brace level 0; inside
      braces it is kept in the type's text. */
  lemma TypeStateComma(acc: Tokenized)
    requires acc.lastToken.tokenType == Type
    ensures var next := Step(acc, ',');
      && (next.lastToken.tokenType == Parameter <==> acc.lastToken.level == 0)
      && (acc.lastToken.level == 0 ==> next.tokens == acc.tokens + [acc.lastToken] && next.lastToken.text == [])
      && (acc.lastToken.level != 0 ==> next.tokens == acc.tokens && next.lastToken.text == acc.lastToken.text + [','])
  {
  }

  /** A closing parenthesis ends the parameter list at any brace level. */
  lemma CloseParenEndsParameters(acc: Tokenized)
    requires acc.lastToken.tokenType == Parameter || acc.lastToken.tokenType == Type
    ensures Step(acc, ')') == Tokenized(acc.tokens + [acc.lastToken], Token(EndParams, [], 0))
  {
  }

  /** `EndParams` takes exactly one character, which starts a fresh `Name`
      token. */
  lemma EndParamsTakesOneCharacter(acc: Tokenized, c: char)
    requires acc.lastToken.tokenType == EndParams
    ensures var next := Step(acc, c);
      && next.tokens == acc.tokens + [acc.lastToken]
      && next.lastToken.tokenType == Name
      && next.lastToken.text == [c]
  {
  }

  // ---------------------------------------------------------------------------
  // The brace level

  /** The number of opening minus closing braces in `s`. */
  function BraceBalance(s: string): int {
    if |s| == 0 then 0
    else (if s[0] == '{' then 1 else if s[0] == '}' then -1 else 0) + BraceBalance(s[1..])
  }

  /** Appending a run of characters to a token one by one. */
  function AppendAll(t: Token, s: string): Token
    decreases |s|
  {
    if |s| == 0 then t else AppendAll(AppendTokenText(t, s[0]), s[1..])
  }

  /** Appending never changes a token's type, and its level moves by the
      brace balance of the appended characters, negative values included. */
  lemma {:induction false} AppendAllLevel(t: Token, s: string)
    ensures AppendAll(t, s).tokenType == t.tokenType
    ensures AppendAll(t, s).level == t.level + BraceBalance(s)
    decreases |s|
  {
    if |s| > 0 {
      AppendAllLevel(AppendTokenText(t, s[0]), s[1..]);
    }
  }

  function WithoutInsignificant(s: string): (r: string)
    ensures forall i :: 0 <= i < |r| ==> !IsInsignificant(r[i])
  {
    if |s| == 0 then []
    else (if IsInsignificant(s[0]) then [] else [s[0]]) + WithoutInsignificant(s[1..])
  }

  /** At level 0 and without braces, spaces, tabs and line feeds are dropped and
      every other character is kept in order. */
  lemma {:induction false} AppendAllAtLevelZero(t: Token, s: string)
    requires t.level == 0 && '{' !in s && '}' !in s
    ensures AppendAll(t, s).text == t.text + WithoutInsignificant(s)
    decreases |s|
  {
    if |s| > 0 {
      assert '{' !in s[1..] && '}' !in s[1..];
      AppendAllAtLevelZero(AppendTokenText(t, s[0]), s[1..]);
      var kept := if IsInsignificant(s[0]) then [] else [s[0]];
      assert AppendTokenText(t, s[0]).text == t.text + kept;
      AppendAssoc(t.text, kept, WithoutInsignificant(s[1..]));
    }
  }


  /** While the level is not 0 (inside braces, or below 0 after a stray `}`),
      every character is kept literally, whitespace included. */
  lemma {:induction false} AppendAllNested(t: Token, s: string)
    requires forall k :: 0 <= k < |s| ==> t.level + BraceBalance(s[..k]) != 0
    ensures AppendAll(t, s).text == t.text + s
    decreases |s|
  {
    if |s| > 0 {
      assert s[..0] == [];
      var t' := AppendTokenText(t, s[0]);
      assert t'.level == t.level + BraceBalance(s[..1]) by {
        assert s[..1][1..] == [];
      }
      forall k | 0 <= k < |s| - 1 ensures t'.level + BraceBalance(s[1..][..k]) != 0 {
        assert s[..k + 1] == [s[0]] + s[1..][..k];
        assert s[..k + 1][1..] == s[1..][..k];
      }
      AppendAllNested(t', s[1..]);
      assert t.text + s == t'.text + s[1..];
    }
  }

  // ---------------------------------------------------------------------------
  // Runs of characters that stay inside one token

  lemma {:induction false} RunAppend(acc: Tokenized, a: string, b: string)
    ensures Run(acc, a + b) == Run(Run(acc, a), b)
    decreases |a|
  {
    if |a| > 0 {
      assert (a + b)[0] == a[0] && (a + b)[1..] == a[1..] + b;
      RunAppend(Step(acc, a[0]), a[1..], b);
    } else {
      assert a + b == b;
    }
  }

  /** In the `Name` state, characters other than a line feed and `(` only
      extend the name token. */
  lemma {:induction false} RunInName(acc: Tokenized, s: string)
    requires acc.lastToken.tokenType == Name && '\n' !in s && '(' !in s
    ensures Run(acc, s) == Tokenized(acc.tokens, AppendAll(acc.lastToken, s))
    decreases |s|
  {
    if |s| > 0 {
      assert '\n' !in s[1..] && '(' !in s[1..];
      RunInName(Step(acc, s[0]), s[1..]);
    }
  }

  /** In the `Parameter` state, characters other than `)`, `,` and `:` only
      extend the parameter token. */
  lemma {:induction false} RunInParameter(acc: Tokenized, s: string)
    requires acc.lastToken.tokenType == Parameter && ')' !in s && ',' !in s && ':' !in s
    ensures Run(acc, s) == Tokenized(acc.tokens, AppendAll(acc.lastToken, s))
    decreases |s|
  {
    if |s| > 0 {
      assert ')' !in s[1..] && ',' !in s[1..] && ':' !in s[1..];
      RunInParameter(Step(acc, s[0]), s[1..]);
    }
  }

  /** In the `Type` state, text without `)` whose every comma sits inside
      braces only extends the type token: such commas, and colons anywhere,
      stay in the type's text. */
  lemma {:induction false} RunInType(acc: Tokenized, s: string)
    requires acc.lastToken.tokenType == Type && ')' !in s
    requires forall k :: 0 <= k < |s| && s[k] == ',' ==> acc.lastToken.level + BraceBalance(s[..k]) != 0
    ensures Run(acc, s) == Tokenized(acc.tokens, AppendAll(acc.lastToken, s))
    decreases |s|
  {
    if |s| > 0 {
      assert s[..0] == [];
      var next := Step(acc, s[0]);
      assert next == Tokenized(acc.tokens, AppendTokenText(acc.lastToken, s[0]));
      AppendAllLevel(acc.lastToken, s[..1]);
      assert AppendAll(acc.lastToken, s[..1]) == AppendTokenText(acc.lastToken, s[0]) by {
        assert s[..1][0] == s[0] && s[..1][1..] == [];
      }
      forall k | 0 <= k < |s| - 1 && s[1..][k] == ','
        ensures next.lastToken.level + BraceBalance(s[1..][..k]) != 0
      {
        assert s[..k + 1] == [s[0]] + s[1..][..k];
        assert s[..k + 1][1..] == s[1..][..k];
        assert s[k + 1] == ',';
      }
      assert ')' !in s[1..];
      RunInType(next, s[1..]);
    }
  }

  /** A type written in braces keeps every character between its braces,
      commas, colons and line breaks included. */
  lemma BracedTypeIsLiteral(acc: Tokenized, inner: string)
    requires acc.lastToken.tokenType == Type && acc.lastToken.level == 0
    requires ')' !in inner && '{' !in inner && '}' !in inner
    ensures Run(acc, "{" + inner + "}") ==
      Tokenized(acc.tokens, Token(Type, acc.lastToken.text + "{" + inner + "}", 0))
  {
    var s := "{" + inner + "}";
    assert ')' !in s by {
      assert forall i :: 1 <= i < |s| - 1 ==> s[i] == inner[i - 1];
    }
    BalanceInsideBraces(inner);
    forall k | 0 <= k < |s| && s[k] == ',' ensures acc.lastToken.level + BraceBalance(s[..k]) != 0 {
      assert k != 0;
    }
    RunInType(acc, s);
    AppendBraced(acc.lastToken, inner);
  }

  lemma BalanceInsideBraces(inner: string)
    requires '{' !in inner && '}' !in inner
    ensures var s := "{" + inner + "}";
      forall k :: 0 < k < |s| ==> BraceBalance(s[..k]) == 1
  {
    var s := "{" + inner + "}";
    forall k | 0 < k < |s| ensures BraceBalance(s[..k]) == 1 {
      assert s[..k] == "{" + inner[..k - 1];
      assert s[..k][0] == '{' && s[..k][1..] == inner[..k - 1];
      assert '{' !in inner[..k - 1] && '}' !in inner[..k - 1];
      BraceBalanceWithoutBraces(inner[..k - 1]);
    }
  }

  /** At level 0, a braced run is appended whole and the level returns to 0. */
  lemma AppendBraced(t: Token, inner: string)
    requires t.level == 0 && '{' !in inner && '}' !in inner
    ensures AppendAll(t, "{" + inner + "}") == Token(t.tokenType, t.text + "{" + inner + "}", 0)
  {
    var afterOpen := AppendTokenText(t, '{');
    assert ("{" + inner)[0] == '{' && ("{" + inner)[1..] == inner;
    assert AppendAll(t, "{" + inner) == AppendAll(afterOpen, inner);
    BraceBalanceWithoutBraces(inner);
    forall k | 0 <= k < |inner| ensures afterOpen.level + BraceBalance(inner[..k]) != 0 {
      assert '{' !in inner[..k] && '}' !in inner[..k];
      BraceBalanceWithoutBraces(inner[..k]);
    }
    AppendAllNested(afterOpen, inner);
    AppendAllLevel(afterOpen, inner);
    AppendAllSnoc(t, "{" + inner, '}');
    assert "{" + inner + "}" == ("{" + inner) + ['}'];
  }

  lemma {:induction false} BraceBalanceWithoutBraces(s: string)
    requires '{' !in s && '}' !in s
    ensures BraceBalance(s) == 0
    decreases |s|
  {
    if |s| > 0 {
      assert '{' !in s[1..] && '}' !in s[1..];
      BraceBalanceWithoutBraces(s[1..]);
    }
  }

  lemma {:induction false} AppendAllSnoc(t: Token, s: string, c: char)
    ensures AppendAll(t, s + [c]) == AppendTokenText(AppendAll(t, s), c)
    decreases |s|
  {
    if |s| > 0 {
      assert (s + [c])[0] == s[0] && (s + [c])[1..] == s[1..] + [c];
      AppendAllSnoc(AppendTokenText(t, s[0]), s[1..], c);
    } else {
      assert [c][1..] == [];
    }
  }

  // ===========================================================================
  // Stage 3: splitting the tokens into definitions

  /** The index of the first `Name` token at or after `from`, or -1. */
  function NextNameFrom(ts: seq<Token>, from: nat): (r: int)
    ensures r == -1 || (from <= r < |ts| && ts[r].tokenType == Name)
    ensures forall j :: from <= j < |ts| && (r == -1 || j < r) ==> ts[j].tokenType != Name
    decreases |ts| - from
  {
    if from >= |ts| then -1
    else if ts[from].tokenType == Name then from
    else NextNameFrom(ts, from + 1)
  }

  /** `findIndex((t, i) => i > 0 && t.tokenType === 'Name')`. */
  function FindNextDefinition(ts: seq<Token>): (r: int)
    ensures r == -1 || (0 < r < |ts| && ts[r].tokenType == Name)
    ensures forall j :: 0 < j < |ts| && (r == -1 || j < r) ==> ts[j].tokenType != Name
  {
    NextNameFrom(ts, 1)
  }

  function SplitDefinitions(split: seq<seq<Token>>, rest: seq<Token>): seq<seq<Token>>
    decreases |rest|
  {
    var next := FindNextDefinition(rest);
    if next == -1 then split + [rest]
    else SplitDefinitions(split + [rest[..next]], rest[next..])
  }

  function Flatten(groups: seq<seq<Token>>): seq<Token> {
    if |groups| == 0 then [] else groups[0] + Flatten(groups[1..])
  }

  lemma {:induction false} FlattenAppend(groups: seq<seq<Token>>, group: seq<Token>)
    ensures Flatten(groups + [group]) == Flatten(groups) + group
  {
    if |groups| > 0 {
      assert (groups + [group])[1..] == groups[1..] + [group];
      FlattenAppend(groups[1..], group);
    }
  }

  /** Splitting is a partition: the groups put back together are the tokens. */
  lemma {:induction false} SplitIsPartition(split: seq<seq<Token>>, rest: seq<Token>)
    ensures Flatten(SplitDefinitions(split, rest)) == Flatten(split) + rest
    decreases |rest|
  {
    var next := FindNextDefinition(rest);
    if next == -1 {
      FlattenAppend(split, rest);
    } else {
      SplitIsPartition(split + [rest[..next]], rest[next..]);
      FlattenAppend(split, rest[..next]);
      assert rest[..next] + rest[next..] == rest;
    }
  }

  /** A group that holds exactly one `Name` token, at its head. */
  predicate IsGroup(g: seq<Token>) {
    && |g| >= 1
    && g[0].tokenType == Name
    && forall j :: 0 < j < |g| ==> g[j].tokenType != Name
  }

  lemma {:induction false} SplitMakesGroups(split: seq<seq<Token>>, rest: seq<Token>)
    requires forall i :: 0 <= i < |split| ==> IsGroup(split[i])
    requires |rest| >= 1 && rest[0].tokenType == Name
    ensures forall i :: 0 <= i < |SplitDefinitions(split, rest)| ==> IsGroup(SplitDefinitions(split, rest)[i])
    decreases |rest|
  {
    var next := FindNextDefinition(rest);
    if next != -1 {
      var split' := split + [rest[..next]];
      forall i | 0 <= i < |split'| ensures IsGroup(split'[i]) {
        if i == |split| {
          assert split'[i] == rest[..next];
        }
      }
      SplitMakesGroups(split', rest[next..]);
    }
  }

  /** On the tokenizer's output, splitting yields groups that put back together
      give the tokens, each holding exactly one `Name` token, at its head. */
  lemma SplitTokenizerOutput(definition: string)
    ensures var ts := TokenizeDefinitions(definition);
      var groups := SplitDefinitions([], ts);
      && Flatten(groups) == ts
      && forall i :: 0 <= i < |groups| ==> IsGroup(groups[i])
  {
    TokenizeShape(definition);
    SplitIntoGroups(TokenizeDefinitions(definition));
  }

  lemma SplitIntoGroups(ts: seq<Token>)
    requires |ts| >= 1 && ts[0].tokenType == Name
    ensures var groups := SplitDefinitions([], ts);
      && Flatten(groups) == ts
      && forall i :: 0 <= i < |groups| ==> IsGroup(groups[i])
  {
    SplitIsPartition([], ts);
    SplitMakesGroups([], ts);
  }

  // ===========================================================================
  // Stage 4: building one definition from a group

  function SetLastDataType(ps: seq<Common.Parameter>, dataType: string): (r: seq<Common.Parameter>)
    requires |ps| > 0
  {
    ps[..|ps| - 1] + [ps[|ps| - 1].(dataType := dataType)]
  }

  /** The type text, or `unknown` when it is empty; the text is not trimmed. */
  function TypeOrUnknown(text: string): string {
    if text == [] then "unknown" else text
  }

  function BuildStep(acc: Common.Definition, t: Token): Common.Definition {
    match t.tokenType
    case Name => acc.(name := Trim(t.text))
    case Parameter => acc.(parameters := acc.parameters + [Common.Parameter(Trim(t.text), "unknown")])
    case Type =>
      if |acc.parameters| > 0 then acc.(parameters := SetLastDataType(acc.parameters, TypeOrUnknown(t.text)))
      else acc
    case _ => acc
  }

  function BuildFold(acc: Common.Definition, ts: seq<Token>): Common.Definition
    decreases |ts|
  {
    if |ts| == 0 then acc else BuildFold(BuildStep(acc, ts[0]), ts[1..])
  }

  /** A parameter that `filter(p => p.name)` keeps. */
  predicate IsNamedParameter(p: Common.Parameter) {
    p.name != []
  }

  /** The parameters whose (trimmed) name is not empty, in their order. */
  function KeepNamedParameters(ps: seq<Common.Parameter>): (r: seq<Common.Parameter>)
    ensures forall i :: 0 <= i < |r| ==> r[i].name != [] && r[i] in ps
    ensures r == Filter(ps, IsNamedParameter)
  {
    if |ps| == 0 then []
    else if ps[0].name == [] then KeepNamedParameters(ps[1..])
    else [ps[0]] + KeepNamedParameters(ps[1..])
  }

  function BuildDefinition(ts: seq<Token>): Common.Definition {
    var d := BuildFold(Common.Definition([], []), ts);
    Common.Definition(d.name, KeepNamedParameters(d.parameters))
  }

  // ---------------------------------------------------------------------------
  // An independent description of what a group builds

  /** The type set by the `Type` tokens before the next `Parameter` token (the
      last such token wins), if any. */
  function TypeBeforeNextParameter(ts: seq<Token>): Option<string> {
    if |ts| == 0 || ts[0].tokenType == Parameter then None
    else if ts[0].tokenType == Type then
      match TypeBeforeNextParameter(ts[1..])
      case Some(later) => Some(later)
      case None => Some(TypeOrUnknown(ts[0].text))
    else TypeBeforeNextParameter(ts[1..])
  }

  /** One parameter per `Parameter` token, in token order: its trimmed text as
      name, and as type the text of the last `Type` token before the next
      `Parameter` token, `unknown` when there is none or its text is empty. */
  function DeclaredParameters(ts: seq<Token>): seq<Common.Parameter> {
    if |ts| == 0 then []
    else if ts[0].tokenType == Parameter then
      [Common.Parameter(Trim(ts[0].text), TypeBeforeNextParameter(ts[1..]).GetOr("unknown"))]
        + DeclaredParameters(ts[1..])
    else DeclaredParameters(ts[1..])
  }

  /** The trimmed text of the last `Name` token, or `otherwise` if there is none. */
  function LastName(ts: seq<Token>, otherwise: string): string {
    if |ts| == 0 then otherwise
    else LastName(ts[1..], if ts[0].tokenType == Name then Trim(ts[0].text) else otherwise)
  }

  function UpdateLast(ps: seq<Common.Parameter>, dataType: Option<string>): seq<Common.Parameter> {
    if |ps| == 0 || dataType.None? then ps else SetLastDataType(ps, dataType.value)
  }

  lemma UpdateLastAfterAppend(ps: seq<Common.Parameter>, p: Common.Parameter, dataType: Option<string>)
    requires p.dataType == "unknown"
    ensures UpdateLast(ps + [p], dataType) == ps + [p.(dataType := dataType.GetOr("unknown"))]
  {
    if dataType.Some? {
      assert (ps + [p])[..|ps|] == ps;
    }
  }

  lemma UpdateLastTwice(ps: seq<Common.Parameter>, first: string, later: Option<string>)
    requires |ps| > 0
    ensures UpdateLast(SetLastDataType(ps, first), later) ==
      UpdateLast(ps, if later.Some? then later else Some(first))
  {
    var once := SetLastDataType(ps, first);
    assert once[..|once| - 1] == ps[..|ps| - 1];
  }

  /** The description of what is left to build, taken before and after one
      step of the fold. */
  function Described(acc: Common.Definition, ts: seq<Token>): Common.Definition {
    Common.Definition(LastName(ts, acc.name), UpdateLast(acc.parameters, TypeBeforeNextParameter(ts)) + DeclaredParameters(ts))
  }

  lemma NameStepKeepsDescription(acc: Common.Definition, ts: seq<Token>)
    requires |ts| > 0 && ts[0].tokenType == Name
    ensures Described(BuildStep(acc, ts[0]), ts[1..]) == Described(acc, ts)
  {
    assert TypeBeforeNextParameter(ts) == TypeBeforeNextParameter(ts[1..]);
    assert DeclaredParameters(ts) == DeclaredParameters(ts[1..]);
  }

  lemma MarkerStepKeepsDescription(acc: Common.Definition, ts: seq<Token>)
    requires |ts| > 0 && (ts[0].tokenType == StartParams || ts[0].tokenType == EndParams)
    ensures Described(BuildStep(acc, ts[0]), ts[1..]) == Described(acc, ts)
  {
    assert BuildStep(acc, ts[0]) == acc;
    assert TypeBeforeNextParameter(ts) == TypeBeforeNextParameter(ts[1..]);
    assert DeclaredParameters(ts) == DeclaredParameters(ts[1..]);
    assert LastName(ts, acc.name) == LastName(ts[1..], acc.name);
  }

  lemma ParameterStepKeepsDescription(acc: Common.Definition, ts: seq<Token>)
    requires |ts| > 0 && ts[0].tokenType == Parameter
    ensures Described(BuildStep(acc, ts[0]), ts[1..]) == Described(acc, ts)
  {
    var p := Common.Parameter(Trim(ts[0].text), "unknown");
    var o := TypeBeforeNextParameter(ts[1..]);
    assert BuildStep(acc, ts[0]) == acc.(parameters := acc.parameters + [p]);
    UpdateLastAfterAppend(acc.parameters, p, o);
    assert TypeBeforeNextParameter(ts) == None;
    assert DeclaredParameters(ts) == [p.(dataType := o.GetOr("unknown"))] + DeclaredParameters(ts[1..]);
    assert LastName(ts, acc.name) == LastName(ts[1..], acc.name);
    AppendAssoc(acc.parameters, [p.(dataType := o.GetOr("unknown"))], DeclaredParameters(ts[1..]));
  }

  lemma TypeStepKeepsDescription(acc: Common.Definition, ts: seq<Token>)
    requires |ts| > 0 && ts[0].tokenType == Type
    ensures Described(BuildStep(acc, ts[0]), ts[1..]) == Described(acc, ts)
  {
    var o := TypeBeforeNextParameter(ts[1..]);
    var d := TypeOrUnknown(ts[0].text);
    assert TypeBeforeNextParameter(ts) == if o.Some? then o else Some(d);
    assert DeclaredParameters(ts) == DeclaredParameters(ts[1..]);
    assert LastName(ts, acc.name) == LastName(ts[1..], acc.name);
    if |acc.parameters| > 0 {
      assert BuildStep(acc, ts[0]) == acc.(parameters := SetLastDataType(acc.parameters, d));
      UpdateLastTwice(acc.parameters, d, o);
    } else {
      assert BuildStep(acc, ts[0]) == acc;
    }
  }

  /** One step of the fold keeps the description of what is left to build. */
  lemma StepKeepsDescription(acc: Common.Definition, ts: seq<Token>)
    requires |ts| > 0
    ensures Described(BuildStep(acc, ts[0]), ts[1..]) == Described(acc, ts)
  {
    match ts[0].tokenType
    case Name => NameStepKeepsDescription(acc, ts);
    case Parameter => ParameterStepKeepsDescription(acc, ts);
    case Type => TypeStepKeepsDescription(acc, ts);
    case StartParams => MarkerStepKeepsDescription(acc, ts);
    case EndParams => MarkerStepKeepsDescription(acc, ts);
  }

  lemma {:induction false} BuildFoldMatchesDeclared(acc: Common.Definition, ts: seq<Token>)
    ensures BuildFold(acc, ts) == Described(acc, ts)
    decreases |ts|
  {
    if |ts| > 0 {
      BuildFoldMatchesDeclared(BuildStep(acc, ts[0]), ts[1..]);
      StepKeepsDescription(acc, ts);
    }
  }

  /** A group builds the definition named by its last `Name` token, with the
      declared parameters whose trimmed name is not empty; a `Type` token before
      any `Parameter` token is ignored. */
  lemma BuildDefinitionMatchesDeclared(ts: seq<Token>)
    ensures BuildDefinition(ts) ==
      Common.Definition(LastName(ts, []), KeepNamedParameters(DeclaredParameters(ts)))
  {
    BuildFoldMatchesDeclared(Common.Definition([], []), ts);
    assert UpdateLast([], TypeBeforeNextParameter(ts)) + DeclaredParameters(ts) == DeclaredParameters(ts);
  }

  /** Every declared parameter has a non-empty type. */
  lemma {:induction false} DeclaredTypesNotEmpty(ts: seq<Token>)
    ensures forall i :: 0 <= i < |DeclaredParameters(ts)| ==> DeclaredParameters(ts)[i].dataType != []
  {
    if |ts| > 0 {
      DeclaredTypesNotEmpty(ts[1..]);
      TypeBeforeNextParameterNotEmpty(ts[1..]);
    }
  }

  lemma {:induction false} TypeBeforeNextParameterNotEmpty(ts: seq<Token>)
    ensures TypeBeforeNextParameter(ts).Some? ==> TypeBeforeNextParameter(ts).value != []
  {
    if |ts| > 0 && ts[0].tokenType != Parameter {
      TypeBeforeNextParameterNotEmpty(ts[1..]);
    }
  }

  lemma {:induction false} KeepNamedKeepsTypes(ps: seq<Common.Parameter>)
    requires forall i :: 0 <= i < |ps| ==> ps[i].dataType != []
    ensures forall i :: 0 <= i < |KeepNamedParameters(ps)| ==> KeepNamedParameters(ps)[i].dataType != []
  {
  }

  /** The names of the built parameters are the non-empty trimmed texts of the
      group's `Parameter` tokens, in order. */
  function ParameterTokenNames(ts: seq<Token>): seq<string> {
    if |ts| == 0 then []
    else if ts[0].tokenType == Parameter && Trim(ts[0].text) != [] then [Trim(ts[0].text)] + ParameterTokenNames(ts[1..])
    else ParameterTokenNames(ts[1..])
  }

  function ParameterNames(ps: seq<Common.Parameter>): seq<string> {
    if |ps| == 0 then [] else [ps[0].name] + ParameterNames(ps[1..])
  }

  lemma {:induction false} DeclaredNamesInOrder(ts: seq<Token>)
    ensures ParameterNames(KeepNamedParameters(DeclaredParameters(ts))) == ParameterTokenNames(ts)
  {
    if |ts| > 0 {
      DeclaredNamesInOrder(ts[1..]);
    }
  }

  /** Every built parameter has a non-empty name and a non-empty type, and the
      names are those of the group's `Parameter` tokens, in order. */
  lemma BuildDefinitionParameters(ts: seq<Token>)
    ensures var ps := BuildDefinition(ts).parameters;
      && (forall i :: 0 <= i < |ps| ==> ps[i].name != [] && ps[i].dataType != [])
      && ParameterNames(ps) == ParameterTokenNames(ts)
  {
    BuildDefinitionMatchesDeclared(ts);
    DeclaredTypesNotEmpty(ts);
    KeepNamedKeepsTypes(DeclaredParameters(ts));
    DeclaredNamesInOrder(ts);
  }

  // ===========================================================================
  // The entry point

  function BuildAll(groups: seq<seq<Token>>): (r: seq<Common.Definition>)
    ensures |r| == |groups| && forall i :: 0 <= i < |groups| ==> r[i] == BuildDefinition(groups[i])
  {
    if |groups| == 0 then [] else [BuildDefinition(groups[0])] + BuildAll(groups[1..])
  }

  /** A definition that `filter(d => Boolean(d.name))` keeps. */
  predicate IsNamedDefinition(d: Common.Definition) {
    d.name != []
  }

  /** The definitions whose name is not empty, in their order. */
  function KeepNamedDefinitions(defs: seq<Common.Definition>): (r: seq<Common.Definition>)
    ensures forall i :: 0 <= i < |r| ==> r[i].name != [] && r[i] in defs
    ensures r == Filter(defs, IsNamedDefinition)
  {
    if |defs| == 0 then []
    else if defs[0].name == [] then KeepNamedDefinitions(defs[1..])
    else [defs[0]] + KeepNamedDefinitions(defs[1..])
  }

  /** The named definitions built from the groups of a token list. */
  function DefinitionsOfTokens(ts: seq<Token>): seq<Common.Definition> {
    KeepNamedDefinitions(BuildAll(SplitDefinitions([], ts)))
  }

  function ConvertToDefinitions(definition: string): seq<Common.Definition> {
    DefinitionsOfTokens(TokenizeDefinitions(definition))
  }

  /** A text without surrounding whitespace (or the empty text). */
  predicate IsTrimmed(n: string) {
    n == [] || (!IsWhitespace(n[0]) && !IsWhitespace(n[|n| - 1]))
  }

  predicate WellShaped(d: Common.Definition) {
    && IsTrimmed(d.name)
    && forall j :: 0 <= j < |d.parameters| ==> d.parameters[j].name != [] && d.parameters[j].dataType != []
  }

  /** Any token list builds a trimmed name and parameters with non-empty
      names and types. */
  lemma BuildDefinitionShape(ts: seq<Token>)
    ensures WellShaped(BuildDefinition(ts))
  {
    BuildDefinitionMatchesDeclared(ts);
    LastNameTrimmed(ts, []);
    BuildDefinitionParameters(ts);
  }

  /** Every definition returned has a non-empty name without surrounding
      whitespace, and every parameter has a non-empty name and type. */
  lemma ConvertOutputShape(definition: string)
    ensures var defs := ConvertToDefinitions(definition);
      forall i :: 0 <= i < |defs| ==> defs[i].name != [] && WellShaped(defs[i])
  {
    var built := BuildAll(SplitDefinitions([], TokenizeDefinitions(definition)));
    forall k | 0 <= k < |built| ensures WellShaped(built[k]) {
      BuildDefinitionShape(SplitDefinitions([], TokenizeDefinitions(definition))[k]);
    }
  }

  lemma {:induction false} LastNameTrimmed(ts: seq<Token>, otherwise: string)
    requires IsTrimmed(otherwise)
    ensures IsTrimmed(LastName(ts, otherwise))
  {
    if |ts| > 0 {
      LastNameTrimmed(ts[1..], if ts[0].tokenType == Name then Trim(ts[0].text) else otherwise);
    }
  }

  /** The trimmed texts of the `Name` tokens that are not empty, in order. */
  function NameTokenNames(ts: seq<Token>): seq<string> {
    if |ts| == 0 then []
    else if ts[0].tokenType == Name && Trim(ts[0].text) != [] then [Trim(ts[0].text)] + NameTokenNames(ts[1..])
    else NameTokenNames(ts[1..])
  }

  function DefinitionNames(defs: seq<Common.Definition>): seq<string> {
    if |defs| == 0 then [] else [defs[0].name] + DefinitionNames(defs[1..])
  }

  lemma {:induction false} NameTokenNamesAppend(a: seq<Token>, b: seq<Token>)
    ensures NameTokenNames(a + b) == NameTokenNames(a) + NameTokenNames(b)
  {
    if |a| == 0 {
      assert a + b == b;
    } else {
      NameTokenNamesAppend(a[1..], b);
      NameTokenNamesAppendStep(a, b);
    }
  }

  lemma NameTokenNamesAppendStep(a: seq<Token>, b: seq<Token>)
    requires |a| > 0
    requires NameTokenNames(a[1..] + b) == NameTokenNames(a[1..]) + NameTokenNames(b)
    ensures NameTokenNames(a + b) == NameTokenNames(a) + NameTokenNames(b)
  {
    ConsOf(a);
    AppendAssoc([a[0]], a[1..], b);
    NameTokenNamesCons(a[0], a[1..] + b);
    NameTokenNamesCons(a[0], a[1..]);
    AppendAssoc(NameOf(a[0]), NameTokenNames(a[1..]), NameTokenNames(b));
  }

  /** The name a token contributes: its trimmed text when it is a `Name`
      token whose text is not blank. */
  function NameOf(t: Token): seq<string> {
    if t.tokenType == Name && Trim(t.text) != [] then [Trim(t.text)] else []
  }

  lemma NameTokenNamesCons(t: Token, ts: seq<Token>)
    ensures NameTokenNames([t] + ts) == NameOf(t) + NameTokenNames(ts)
  {
    assert ([t] + ts)[0] == t && ([t] + ts)[1..] == ts;
  }


  lemma {:induction false} NameTokenNamesWithoutName(ts: seq<Token>)
    requires forall j :: 0 <= j < |ts| ==> ts[j].tokenType != Name
    ensures NameTokenNames(ts) == []
  {
    if |ts| > 0 {
      NameTokenNamesWithoutName(ts[1..]);
    }
  }

  lemma {:induction false} LastNameWithoutName(ts: seq<Token>, otherwise: string)
    requires forall j :: 0 <= j < |ts| ==> ts[j].tokenType != Name
    ensures LastName(ts, otherwise) == otherwise
  {
    if |ts| > 0 {
      LastNameWithoutName(ts[1..], otherwise);
    }
  }

  /** A group's definition is named by its head token. */
  lemma GroupName(g: seq<Token>)
    requires IsGroup(g)
    ensures BuildDefinition(g).name == Trim(g[0].text)
    ensures NameTokenNames(g) == if Trim(g[0].text) == [] then [] else [Trim(g[0].text)]
  {
    BuildDefinitionMatchesDeclared(g);
    LastNameWithoutName(g[1..], Trim(g[0].text));
    NameTokenNamesWithoutName(g[1..]);
  }

  lemma {:induction false} GroupsNamesInOrder(groups: seq<seq<Token>>)
    requires forall i :: 0 <= i < |groups| ==> IsGroup(groups[i])
    ensures DefinitionNames(KeepNamedDefinitions(BuildAll(groups))) == NameTokenNames(Flatten(groups))
  {
    if |groups| > 0 {
      GroupName(groups[0]);
      GroupsNamesInOrder(groups[1..]);
      NameTokenNamesAppend(groups[0], Flatten(groups[1..]));
      assert BuildAll(groups)[1..] == BuildAll(groups[1..]);
    }
  }

  /** The definitions come out in the order of the `Name` tokens, one for each
      `Name` token whose trimmed text is not empty. */
  lemma ConvertNamesInOrder(definition: string)
    ensures DefinitionNames(ConvertToDefinitions(definition)) == NameTokenNames(TokenizeDefinitions(definition))
  {
    SplitTokenizerOutput(definition);
    GroupsNamesInOrder(SplitDefinitions([], TokenizeDefinitions(definition)));
  }

  /** A Name token holds a line break at most as its first character: a line
      break ends the name being read, and only the character seeding a name
      after `)` can be one. */
  predicate NameOneLine(t: Token) {
    t.tokenType == Name && t.text != [] ==> '\n' !in t.text[1..]
  }

  predicate NamesOneLine(acc: Tokenized) {
    && (forall i :: 0 <= i < |acc.tokens| ==> NameOneLine(acc.tokens[i]))
    && NameOneLine(acc.lastToken)
  }

  lemma PushKeepsNamesOneLine(acc: Tokenized, pushed: seq<Token>, next: Token)
    requires NamesOneLine(acc) && NameOneLine(next)
    requires forall j :: 0 <= j < |pushed| ==> NameOneLine(pushed[j])
    ensures NamesOneLine(Tokenized(acc.tokens + [acc.lastToken] + pushed, next))
  {
    var ts := acc.tokens + [acc.lastToken] + pushed;
    forall i | 0 <= i < |ts| ensures NameOneLine(ts[i]) {
      if i < |acc.tokens| {
        assert ts[i] == acc.tokens[i];
      } else if i == |acc.tokens| {
        assert ts[i] == acc.lastToken;
      } else {
        assert ts[i] == pushed[i - |acc.tokens| - 1];
      }
    }
  }

  lemma AppendKeepsNameOneLine(t: Token, c: char)
    requires NameOneLine(t) && c != '\n'
    ensures NameOneLine(AppendTokenText(t, c))
  {
    var text := AppendTokenText(t, c).text;
    if text != [] && text != t.text {
      if t.text == [] {
        assert text[1..] == [];
      } else {
        assert text[1..] == t.text[1..] + [c];
      }
    }
  }

  lemma StepKeepsNamesOneLine(acc: Tokenized, c: char)
    requires NamesOneLine(acc)
    ensures NamesOneLine(Step(acc, c))
  {
    var last := acc.lastToken;
    match last.tokenType
    case Name =>
      if c == '\n' {
        PushKeepsNamesOneLine(acc, [], NewToken(Name, None));
        assert acc.tokens + [last] + [] == acc.tokens + [last];
      } else if c == '(' {
        PushKeepsNamesOneLine(acc, [NewToken(StartParams, None)], NewToken(Parameter, None));
        assert acc.tokens + [last] + [NewToken(StartParams, None)] == acc.tokens + [last, NewToken(StartParams, None)];
      } else {
        AppendKeepsNameOneLine(last, c);
      }
    case Parameter =>
      if c == ')' || c == ',' || c == ':' {
        var next := Step(acc, c).lastToken;
        PushKeepsNamesOneLine(acc, [], next);
        assert acc.tokens + [last] + [] == acc.tokens + [last];
      }
    case Type =>
      if c == ')' || (c == ',' && last.level == 0) {
        var next := Step(acc, c).lastToken;
        PushKeepsNamesOneLine(acc, [], next);
        assert acc.tokens + [last] + [] == acc.tokens + [last];
      }
    case EndParams =>
      var next := NewToken(Name, Some(c));
      assert next.text[1..] == [];
      PushKeepsNamesOneLine(acc, [], next);
      assert acc.tokens + [last] + [] == acc.tokens + [last];
    case StartParams =>
  }

  lemma {:induction false} RunKeepsNamesOneLine(acc: Tokenized, s: string)
    requires NamesOneLine(acc)
    ensures NamesOneLine(Run(acc, s))
    decreases |s|
  {
    if |s| > 0 {
      StepKeepsNamesOneLine(acc, s[0]);
      RunKeepsNamesOneLine(Step(acc, s[0]), s[1..]);
    }
  }

  /** Trimming removes a line break that can only stand first. */
  lemma TrimNameOneLine(t: Token)
    requires t.tokenType == Name && NameOneLine(t)
    ensures '\n' !in Trim(t.text)
  {
    var s := t.text;
    var start := TrimStart(s);
    if start != [] && |start| == |s| {
      assert start == s;
      assert s == [s[0]] + s[1..];
    } else if start != [] {
      assert start == s[1..][|s| - 1 - |start|..];
    }
    assert Trim(s) == TrimEnd(start);
  }

  lemma {:induction false} NameTokenNamesOneLine(ts: seq<Token>)
    requires forall i :: 0 <= i < |ts| ==> NameOneLine(ts[i])
    ensures forall i :: 0 <= i < |NameTokenNames(ts)| ==> '\n' !in NameTokenNames(ts)[i]
  {
    if |ts| > 0 {
      NameTokenNamesOneLine(ts[1..]);
      if ts[0].tokenType == Name {
        TrimNameOneLine(ts[0]);
      }
    }
  }

  lemma {:induction false} DefinitionNamesAt(defs: seq<Common.Definition>)
    ensures |DefinitionNames(defs)| == |defs|
    ensures forall i :: 0 <= i < |defs| ==> DefinitionNames(defs)[i] == defs[i].name
  {
    if |defs| > 0 {
      DefinitionNamesAt(defs[1..]);
    }
  }

  /** No parsed name holds a line break, whatever the input. */
  lemma ConvertNamesOneLine(definition: string)
    ensures var defs := ConvertToDefinitions(definition);
      forall i :: 0 <= i < |defs| ==> '\n' !in defs[i].name
  {
    var done := Run(Start, CleanupInput(definition));
    RunKeepsNamesOneLine(Start, CleanupInput(definition));
    var ts := TokenizeDefinitions(definition);
    assert ts == done.tokens + [done.lastToken];
    forall i | 0 <= i < |ts| ensures NameOneLine(ts[i]) {
      if i < |done.tokens| {
        assert ts[i] == done.tokens[i];
      }
    }
    NameTokenNamesOneLine(ts);
    ConvertNamesInOrder(definition);
    DefinitionNamesAt(ConvertToDefinitions(definition));
  }

  /** The types generated from any parsed text: one block per definition, each
      with its header, tag line, the lines of its parameters and `}`, and a
      final line break. */
  lemma ConvertedTypesLines(t: Common.Family, definition: string)
    ensures var defs := ConvertToDefinitions(definition);
      Common.Lines(Common.CreateTypes(t, defs)) ==
        (if |defs| == 0 then [""] else Common.AllTypeBlockLines(t, defs)) + [""]
  {
    ConvertNamesOneLine(definition);
    Common.TypesLines(t, ConvertToDefinitions(definition));
  }

  /** Prepending a comment line does not change the parsed definitions. */
  lemma ConvertIgnoresCommentLine(comment: string, definition: string)
    requires '\n' !in comment && IsCommentLine(comment)
    ensures ConvertToDefinitions(comment + "\n" + definition) == ConvertToDefinitions(definition)
  {
    CleanupIgnoresCommentLine(comment, definition);
  }

  // ===========================================================================
  // Scenarios

  /** A word of ASCII letters. */
  predicate IsWord(w: string) {
    forall i :: 0 <= i < |w| ==> ('a' <= w[i] <= 'z') || ('A' <= w[i] <= 'Z')
  }

  lemma {:induction false} AppendWord(t: Token, w: string)
    requires t.level == 0 && IsWord(w)
    ensures AppendAll(t, w) == Token(t.tokenType, t.text + w, 0)
    decreases |w|
  {
    if |w| > 0 {
      assert IsWord(w[1..]);
      AppendWord(AppendTokenText(t, w[0]), w[1..]);
      assert t.text + [w[0]] + w[1..] == t.text + w;
    }
  }

  /** In the `Name` state a word extends the name token. */
  lemma NameWord(acc: Tokenized, w: string)
    requires acc.lastToken.tokenType == Name && acc.lastToken.level == 0 && IsWord(w)
    ensures Run(acc, w) == Tokenized(acc.tokens, Token(Name, acc.lastToken.text + w, 0))
  {
    RunInName(acc, w);
    AppendWord(acc.lastToken, w);
  }

  /** In the `Parameter` state a word extends the parameter token. */
  lemma ParameterWord(acc: Tokenized, w: string)
    requires acc.lastToken.tokenType == Parameter && acc.lastToken.level == 0 && IsWord(w)
    ensures Run(acc, w) == Tokenized(acc.tokens, Token(Parameter, acc.lastToken.text + w, 0))
  {
    assert ')' !in w && ',' !in w && ':' !in w by {
      forall i | 0 <= i < |w| ensures w[i] != ')' && w[i] != ',' && w[i] != ':' {
        assert ('a' <= w[i] <= 'z') || ('A' <= w[i] <= 'Z');
      }
    }
    RunInParameter(acc, w);
    AppendWord(acc.lastToken, w);
  }

  /** The tokens of `name(param: {inner} )`. */
  function TypedParameterTokens(name: string, param: string, inner: string): seq<Token> {
    [Token(Name, name, 0), Token(StartParams, [], 0), Token(Parameter, param, 0),
     Token(Type, "{" + inner + "}", 0), Token(EndParams, [], 0)]
  }

  /** `(` after a name opens the parameter list with an empty parameter. */
  lemma OpenParameterList(acc: Tokenized)
    requires acc.lastToken.tokenType == Name
    ensures Run(acc, "(") ==
      Tokenized(acc.tokens + [acc.lastToken, Token(StartParams, [], 0)], Token(Parameter, [], 0))
  {
    assert "("[1..] == [];
  }

  /** `: ` after a parameter opens an empty type; the space is dropped. */
  lemma OpenType(acc: Tokenized)
    requires acc.lastToken.tokenType == Parameter
    ensures Run(acc, ": ") == Tokenized(acc.tokens + [acc.lastToken], Token(Type, [], 0))
  {
    assert ": "[1..] == " " && " "[1..] == [];
  }

  /** ` )` after a type at level 0 closes the list; the space is dropped. */
  lemma CloseAfterSpace(acc: Tokenized)
    requires acc.lastToken.tokenType == Type && acc.lastToken.level == 0
    ensures Run(acc, " )") == Tokenized(acc.tokens + [acc.lastToken], Token(EndParams, [], 0))
  {
    assert " )"[1..] == ")" && ")"[1..] == [];
    assert Step(acc, ' ') == acc;
  }

  /** A name with one parameter whose type is a braced literal: the type keeps
      its commas, colons and spaces. */
  lemma RunTypedParameter(acc: Tokenized, name: string, param: string, inner: string)
    requires acc.lastToken == Token(Name, [], 0)
    requires IsWord(name) && IsWord(param)
    requires ')' !in inner && '{' !in inner && '}' !in inner
    ensures Run(acc, name + "(" + param + ": " + ("{" + inner + "}") + " )") ==
      Tokenized(acc.tokens + TypedParameterTokens(name, param, inner)[..4], Token(EndParams, [], 0))
  {
    var braced := "{" + inner + "}";
    NameWord(acc, name);
    var a1 := Run(acc, name);
    assert a1.lastToken == Token(Name, name, 0) by { assert [] + name == name; }
    OpenParameterList(a1);
    var a2 := Run(a1, "(");
    ParameterWord(a2, param);
    var a3 := Run(a2, param);
    assert a3.lastToken == Token(Parameter, param, 0) by { assert [] + param == param; }
    OpenType(a3);
    var a4 := Run(a3, ": ");
    BracedTypeIsLiteral(a4, inner);
    var a5 := Run(a4, braced);
    assert a5.lastToken == Token(Type, braced, 0) by { assert [] + "{" + inner + "}" == braced; }
    CloseAfterSpace(a5);
    RunAppend(acc, name, "(");
    RunAppend(acc, name + "(", param);
    RunAppend(acc, name + "(" + param, ": ");
    RunAppend(acc, name + "(" + param + ": ", braced);
    RunAppend(acc, name + "(" + param + ": " + braced, " )");
    assert Run(acc, name + "(" + param + ": " + braced + " )").tokens ==
      acc.tokens + [Token(Name, name, 0), Token(StartParams, [], 0), Token(Parameter, param, 0), Token(Type, braced, 0)];
  }

  /** A group without a second name is one definition. */
  lemma SplitOneGroup(g: seq<Token>)
    requires IsGroup(g)
    ensures SplitDefinitions([], g) == [g]
  {
    assert FindNextDefinition(g) == -1;
  }

  /** `name(param: {inner})` defines `name` with one parameter of the braced
      type, kept as written. */
  lemma BuildTypedParameter(name: string, param: string, inner: string)
    requires name != [] && IsTrimmed(name) && param != [] && IsTrimmed(param)
    ensures BuildDefinition(TypedParameterTokens(name, param, inner)) ==
      Common.Definition(name, [Common.Parameter(param, "{" + inner + "}")])
  {
    var g := TypedParameterTokens(name, param, inner);
    var braced := "{" + inner + "}";
    TrimOfTrimmed(name);
    TrimOfTrimmed(param);
    BuildDefinitionMatchesDeclared(g);
    var closing := [Token(EndParams, [], 0)];
    var typed := [Token(Type, braced, 0)] + closing;
    var fromParam := [Token(Parameter, param, 0)] + typed;
    var fromStart := [Token(StartParams, [], 0)] + fromParam;
    assert g == [Token(Name, name, 0)] + fromStart;
    assert g[1..] == fromStart && fromStart[1..] == fromParam;
    assert fromParam[1..] == typed && typed[1..] == closing && closing[1..] == [];
    assert TypeBeforeNextParameter(closing) == None;
    assert TypeBeforeNextParameter(typed) == Some(braced);
    assert DeclaredParameters(closing) == [];
    assert DeclaredParameters(typed) == [];
    assert DeclaredParameters(fromParam) == [Common.Parameter(param, braced)];
    assert DeclaredParameters(fromStart) == [Common.Parameter(param, braced)];
    assert LastName(closing, name) == name;
    assert LastName(typed, name) == name;
    assert LastName(fromParam, name) == name;
    assert LastName(fromStart, name) == name;
    var ps := [Common.Parameter(param, braced)];
    assert ps[1..] == [];
    assert KeepNamedParameters(ps) == ps;
  }

  /** The definitions of the tokens of `name(param: {inner} )`. */
  lemma DefinitionsOfTypedParameter(name: string, param: string, inner: string)
    requires name != [] && IsTrimmed(name) && param != [] && IsTrimmed(param)
    ensures DefinitionsOfTokens(TypedParameterTokens(name, param, inner)) ==
      [Common.Definition(name, [Common.Parameter(param, "{" + inner + "}")])]
  {
    var g := TypedParameterTokens(name, param, inner);
    assert IsGroup(g);
    SplitOneGroup(g);
    BuildTypedParameter(name, param, inner);
    var d := Common.Definition(name, [Common.Parameter(param, "{" + inner + "}")]);
    assert BuildAll([g]) == [d];
    assert [d][1..] == [];
    assert KeepNamedDefinitions([d]) == [d];
  }

  /** The braced-type input of the unit tests, `login(name: {first:string, last:string} )`,
      and the text between its braces. */
  const BracedTypeTest: string := "login(name: " + "{first:string, last:string}" + " )"
  const BracedTypeInner: string := "first:string, last:string"

  lemma BracedTestHead()
    ensures "login(name: " == "login" + "(" + "name" + ": "
  {
  }

  lemma BracedTestType()
    ensures "{" + BracedTypeInner + "}" == "{first:string, last:string}"
  {
  }

  lemma BracedTestNoClosing()
    ensures ')' !in BracedTypeInner
  {
  }

  lemma BracedTestNoBraces()
    ensures '{' !in BracedTypeInner && '}' !in BracedTypeInner
  {
  }

  lemma BracedTestNoCarriageReturn()
    ensures '\r' !in BracedTypeInner
  {
  }

  lemma BracedTestNoSlash()
    ensures '/' !in BracedTypeInner
  {
  }

  lemma BracedTestWords()
    ensures IsWord("login") && IsWord("name") && IsTrimmed("login") && IsTrimmed("name")
  {
  }

  /** The text `name(param: {inner} )`, as the tokenizer reads it. */
  function TypedParameterText(name: string, param: string, inner: string): string {
    name + "(" + param + ": " + ("{" + inner + "}") + " )"
  }

  lemma TypedParameterCharacters(name: string, param: string, inner: string)
    requires IsWord(name) && IsWord(param)
    requires '\r' !in inner && '/' !in inner
    ensures '\r' !in TypedParameterText(name, param, inner)
    ensures '/' !in TypedParameterText(name, param, inner)
  {
    assert '\r' !in name && '/' !in name;
    assert '\r' !in param && '/' !in param;
  }

  lemma TypedParameterEnds(name: string, param: string, inner: string)
    requires name != [] && IsWord(name)
    ensures IsTrimmed(TypedParameterText(name, param, inner))
  {
    var s := TypedParameterText(name, param, inner);
    assert s == name + ("(" + param + ": " + ("{" + inner + "}") + " )");
    assert s[0] == name[0];
    assert s[|s| - 1] == ')';
  }

  lemma CleanupTypedParameter(name: string, param: string, inner: string)
    requires name != [] && IsWord(name) && IsWord(param)
    requires '\r' !in inner && '/' !in inner
    ensures CleanupInput(TypedParameterText(name, param, inner)) == TypedParameterText(name, param, inner)
  {
    var s := TypedParameterText(name, param, inner);
    TypedParameterCharacters(name, param, inner);
    TypedParameterEnds(name, param, inner);
    CleanupWithoutSlashes(s);
    TrimOfTrimmed(s);
  }

  lemma TokenizeTypedParameter(name: string, param: string, inner: string)
    requires name != [] && IsWord(name) && IsWord(param)
    requires ')' !in inner && '{' !in inner && '}' !in inner && '\r' !in inner && '/' !in inner
    ensures TokenizeDefinitions(TypedParameterText(name, param, inner)) == TypedParameterTokens(name, param, inner)
  {
    var text := TypedParameterText(name, param, inner);
    CleanupTypedParameter(name, param, inner);
    TokenizeCleanText(text, text);
    RunTypedParameter(Start, name, param, inner);
    TypedParameterTokensSplit(name, param, inner);
  }

  lemma TokenizeCleanText(text: string, clean: string)
    requires clean == CleanupInput(text)
    ensures TokenizeDefinitions(text) == Run(Start, clean).tokens + [Run(Start, clean).lastToken]
  {
  }

  lemma TypedParameterTokensSplit(name: string, param: string, inner: string)
    ensures TypedParameterTokens(name, param, inner) ==
      Start.tokens + TypedParameterTokens(name, param, inner)[..4] + [Token(EndParams, [], 0)]
  {
  }

  /** A parameter whose type is in braces keeps the whole braced text, with its
      commas, colons and spaces, as its type. */
  lemma ConvertTypedParameter(name: string, param: string, inner: string)
    requires name != [] && param != [] && IsWord(name) && IsWord(param)
    requires ')' !in inner && '{' !in inner && '}' !in inner && '\r' !in inner && '/' !in inner
    ensures ConvertToDefinitions(TypedParameterText(name, param, inner)) ==
      [Common.Definition(name, [Common.Parameter(param, "{" + inner + "}")])]
  {
    TokenizeTypedParameter(name, param, inner);
    WordIsTrimmed(name);
    WordIsTrimmed(param);
    DefinitionsOfTypedParameter(name, param, inner);
  }

  lemma WordIsTrimmed(w: string)
    requires IsWord(w)
    ensures IsTrimmed(w)
  {
  }

  /** The braced-type case of the unit tests. */
  lemma ConvertBracedType()
    ensures ConvertToDefinitions(BracedTypeTest) ==
      [Common.Definition("login", [Common.Parameter("name", "{first:string, last:string}")])]
  {
    BracedTestHead();
    BracedTestType();
    BracedTestNoClosing();
    BracedTestNoBraces();
    BracedTestNoCarriageReturn();
    BracedTestNoSlash();
    BracedTestWords();
    assert BracedTypeTest == TypedParameterText("login", "name", BracedTypeInner);
    ConvertTypedParameter("login", "name", BracedTypeInner);
  }

  lemma CleanupLoginLogoff()
    ensures CleanupInput("login()logoff") == "login()logoff"
  {
    var s := "login()logoff";
    LoginLogoffCharacters();
    CleanupWithoutSlashes(s);
    TrimOfTrimmed(s);
  }

  lemma LoginLogoffCharacters()
    ensures '\r' !in "login()logoff" && '/' !in "login()logoff"
    ensures !IsWhitespace('l') && !IsWhitespace('f')
  {
  }

  /** An empty parameter list `()` after a name closes the definition, and the
      next character starts a new name. */
  lemma EmptyParameterList(acc: Tokenized, c: char)
    requires acc.lastToken.tokenType == Name
    ensures Run(acc, ['(', ')', c]) == Tokenized(
      acc.tokens + [acc.lastToken, Token(StartParams, [], 0), Token(Parameter, [], 0), Token(EndParams, [], 0)],
      NewToken(Name, Some(c)))
  {
    var s := ['(', ')', c];
    var b1 := Step(acc, '(');
    var b2 := Step(b1, ')');
    var b3 := Step(b2, c);
    assert s[1..][1..][1..] == [];
    assert Run(acc, s) == Run(b1, s[1..]) == Run(b2, s[1..][1..]) == Run(b3, []);
  }

  lemma LoginLogoffWords()
    ensures IsWord("login") && IsWord("logoff") && "logoff" == ['l'] + "ogoff"
  {
  }

  /** Two words separated by an empty parameter list become two name tokens;
      the first letter of the second word starts the second name. */
  lemma TwoNamesWithEmptyList(acc: Tokenized, first: string, c: char, rest: string)
    requires acc.lastToken == Token(Name, [], 0)
    requires IsWord(first) && IsWord([c] + rest)
    ensures Run(acc, first + ['(', ')', c] + rest) ==
      Tokenized(acc.tokens + NameWithEmptyList(first), Token(Name, [c] + rest, 0))
  {
    NameWord(acc, first);
    var a := Run(acc, first);
    assert [] + first == first;
    EmptyParameterList(a, c);
    var b := Run(a, ['(', ')', c]);
    assert IsWord(rest) by {
      forall i | 0 <= i < |rest| ensures ('a' <= rest[i] <= 'z') || ('A' <= rest[i] <= 'Z') {
        assert rest[i] == ([c] + rest)[i + 1];
      }
    }
    assert ('a' <= c <= 'z') || ('A' <= c <= 'Z') by {
      assert ([c] + rest)[0] == c;
    }
    NameWord(b, rest);
    RunAppend(acc, first, ['(', ')', c]);
    RunAppend(acc, first + ['(', ')', c], rest);
  }

  lemma RunLoginLogoff()
    ensures Run(Start, "login()logoff") == Tokenized(NameWithEmptyList("login"), Token(Name, "logoff", 0))
  {
    LoginLogoffWords();
    assert "login()logoff" == "login" + ['(', ')', 'l'] + "ogoff";
    TwoNamesWithEmptyList(Start, "login", 'l', "ogoff");
  }

  lemma TokenizeLoginLogoff()
    ensures TokenizeDefinitions("login()logoff") == NameWithEmptyList("login") + [Token(Name, "logoff", 0)]
  {
    CleanupLoginLogoff();
    RunLoginLogoff();
  }

  /** Two groups side by side split into exactly those two groups. */
  lemma SplitTwoGroups(g1: seq<Token>, g2: seq<Token>)
    requires IsGroup(g1) && IsGroup(g2)
    ensures SplitDefinitions([], g1 + g2) == [g1, g2]
  {
    var ts := g1 + g2;
    assert ts[|g1|] == g2[0];
    forall j | 0 < j < |g1| ensures ts[j].tokenType != Name { assert ts[j] == g1[j]; }
    assert FindNextDefinition(ts) == |g1|;
    assert ts[..|g1|] == g1 && ts[|g1|..] == g2;
    assert FindNextDefinition(g2) == -1;
  }

  /** A name followed by an empty parameter list defines that name with no
      parameters. */
  lemma BuildNameWithEmptyList(name: string)
    ensures IsGroup(NameWithEmptyList(name))
    ensures BuildDefinition(NameWithEmptyList(name)) == Common.Definition(Trim(name), [])
  {
    var g := NameWithEmptyList(name);
    assert IsGroup(g);
    GroupName(g);
    BuildDefinitionParameters(g);
    assert Trim([]) == [];
    assert g[1..][1..][1..][1..] == [];
    assert ParameterTokenNames(g[1..][1..][1..]) == [];
    assert ParameterTokenNames(g[1..][1..]) == [];
    assert ParameterTokenNames(g) == [];
  }

  lemma BuildNameOnly(name: string)
    ensures BuildDefinition([Token(Name, name, 0)]) == Common.Definition(Trim(name), [])
  {
    var g := [Token(Name, name, 0)];
    assert g[1..] == [];
    BuildDefinitionMatchesDeclared(g);
    assert LastName(g, []) == Trim(name);
    assert DeclaredParameters(g) == [];
  }

  lemma LoginLogoffNames()
    ensures IsTrimmed("login") && IsTrimmed("logoff")
  {
  }

  /** Two groups side by side that build named definitions define exactly
      those two. */
  lemma DefinitionsOfTwoGroups(g1: seq<Token>, g2: seq<Token>, d1: Common.Definition, d2: Common.Definition)
    requires IsGroup(g1) && IsGroup(g2)
    requires BuildDefinition(g1) == d1 && BuildDefinition(g2) == d2
    requires d1.name != [] && d2.name != []
    ensures DefinitionsOfTokens(g1 + g2) == [d1, d2]
  {
    SplitTwoGroups(g1, g2);
    assert BuildAll([g1, g2]) == [d1, d2];
    KeepTwoNamed(d1, d2);
  }

  lemma KeepTwoNamed(d1: Common.Definition, d2: Common.Definition)
    requires d1.name != [] && d2.name != []
    ensures KeepNamedDefinitions([d1, d2]) == [d1, d2]
  {
    var ds := [d1, d2];
    assert ds[1..] == [d2] && [d2][1..] == [];
    assert KeepNamedDefinitions([d2]) == [d2] + KeepNamedDefinitions([]);
    assert KeepNamedDefinitions(ds) == [d1] + KeepNamedDefinitions([d2]);
  }

  /** The tokens of a name with an empty parameter list. */
  function NameWithEmptyList(name: string): seq<Token> {
    [Token(Name, name, 0), Token(StartParams, [], 0), Token(Parameter, [], 0), Token(EndParams, [], 0)]
  }

  /** A name with an empty parameter list followed by a bare name define two
      definitions without parameters. */
  lemma DefinitionsOfTwoBareNames(first: string, second: string)
    requires first != [] && IsTrimmed(first) && second != [] && IsTrimmed(second)
    ensures DefinitionsOfTokens(NameWithEmptyList(first) + [Token(Name, second, 0)]) ==
      [Common.Definition(first, []), Common.Definition(second, [])]
  {
    TrimOfTrimmed(first);
    TrimOfTrimmed(second);
    BuildNameWithEmptyList(first);
    BuildNameOnly(second);
    DefinitionsOfTwoGroups(NameWithEmptyList(first), [Token(Name, second, 0)], Common.Definition(first, []), Common.Definition(second, []));
  }

  /** `login()logoff` yields `login` and then `logoff`, both without
      parameters: the character after `)` starts the next name. */
  lemma ConvertLoginLogoff()
    ensures ConvertToDefinitions("login()logoff") ==
      [Common.Definition("login", []), Common.Definition("logoff", [])]
  {
    TokenizeLoginLogoff();
    LoginLogoffNames();
    DefinitionsOfTwoBareNames("login", "logoff");
  }
}
