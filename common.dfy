/** The shared data model (`Parameter`, `Definition`) and the pure helpers of
    src/common.ts: case mapping of the first letter, file-name helpers, and the
    text generators that render a parsed definition list as an enum, a set of
    object types and a union type. */
module Common {
  import opened Text

  datatype Parameter = Parameter(name: string, dataType: string)

  datatype Definition = Definition(name: string, parameters: seq<Parameter>)

  /** Which of the two generated families a text belongs to. */
  datatype Family = Event | Command

  function FamilyName(t: Family): string {
    match t
    case Event => "Event"
    case Command => "Command"
  }

  // ---------------------------------------------------------------------------
  // Case mapping of the first character

  function ToPascalCase(s: string): string {
    if |s| == 0 then [] else [UpperChar(s[0])] + s[1..]
  }

  function ToSemantics(s: string): string {
    if |s| == 0 then [] else [LowerChar(s[0])] + s[1..]
  }

  function ToDefPascalCase(d: Definition): string {
    ToPascalCase(d.name)
  }

  /** Only the first character changes, and only when it is a lower-case letter;
      the length is kept. */
  lemma PascalCaseShape(s: string)
    ensures |ToPascalCase(s)| == |s|
    ensures |s| > 0 ==> ToPascalCase(s)[1..] == s[1..]
    ensures |s| > 0 && 'a' <= s[0] <= 'z' ==> 'A' <= ToPascalCase(s)[0] <= 'Z'
    ensures |s| > 0 && !('a' <= s[0] <= 'z') ==> ToPascalCase(s) == s
  {
  }

  lemma SemanticsShape(s: string)
    ensures |ToSemantics(s)| == |s|
    ensures |s| > 0 ==> ToSemantics(s)[1..] == s[1..]
    ensures |s| > 0 && 'A' <= s[0] <= 'Z' ==> 'a' <= ToSemantics(s)[0] <= 'z'
    ensures |s| > 0 && !('A' <= s[0] <= 'Z') ==> ToSemantics(s) == s
  {
  }

  lemma PascalCaseIdempotent(s: string)
    ensures ToPascalCase(ToPascalCase(s)) == ToPascalCase(s)
  {
  }

  /** Lower-casing the first letter undoes upper-casing it when it was lower
      case (or not a letter) to begin with. */
  lemma SemanticsUndoesPascalCase(s: string)
    requires |s| > 0 ==> !('A' <= s[0] <= 'Z')
    ensures ToSemantics(ToPascalCase(s)) == s
  {
    if |s| > 0 && 'a' <= s[0] <= 'z' {
      assert LowerChar(UpperChar(s[0])) == s[0];
    }
  }

  /** The cases of the unit test for `toPascalCase` and `toDefPascalCase`. */
  lemma PascalCaseExamples()
    ensures ToPascalCase("overViewFish") == "OverViewFish"
    ensures ToPascalCase("OverViewFish") == "OverViewFish"
    ensures ToPascalCase("_verViewFish") == "_verViewFish"
    ensures ToPascalCase("") == ""
    ensures ToPascalCase("O") == "O"
    ensures ToDefPascalCase(Definition("overViewFish", [])) == "OverViewFish"
  {
  }

  // ---------------------------------------------------------------------------
  // File names and paths

  /** `filename.split('.').slice(0, -1).join('.')`. */
  function RemoveFileExtension(filename: string): string {
    var pieces := Split(filename, '.');
    Join(pieces[..|pieces| - 1], ".")
  }

  /** Removing the extension keeps exactly the text before the last `.`, and
      yields the empty string when there is no `.` at all. */
  lemma {:induction false} RemoveFileExtensionIsPrefixBeforeLastDot(filename: string)
    ensures var k := LastIndexOf(filename, '.');
      RemoveFileExtension(filename) == if k < 0 then [] else filename[..k]
  {
    var pieces := Split(filename, '.');
    var k := LastIndexOf(filename, '.');
    JoinSplit(filename, '.');
    SplitPiecesAvoidSeparator(filename, '.');
    if |pieces| == 1 {
      assert '.' !in filename by {
        assert filename == pieces[0];
      }
    } else {
      var init, last := pieces[..|pieces| - 1], pieces[|pieces| - 1];
      assert pieces == init + [last];
      JoinAppend(init, last, ".");
      var head := Join(init, ".");
      assert filename == head + "." + last;
      assert '.' !in last;
      assert filename[|head|] == '.';
      forall j | |head| < j < |filename|
        ensures filename[j] != '.'
      {
        assert filename[j] == last[j - |head| - 1];
      }
      assert k == |head|;
      assert filename[..k] == head;
    }
  }

  /** The cases of the unit test for `removeFileExtension`, and a name
      without any dot. */
  lemma RemoveFileExtensionOfNoDot()
    ensures RemoveFileExtension("") == ""
    ensures RemoveFileExtension("file") == ""
  {
    RemoveFileExtensionIsPrefixBeforeLastDot("");
    RemoveFileExtensionIsPrefixBeforeLastDot("file");
  }

  lemma RemoveFileExtensionOfOneDot()
    ensures RemoveFileExtension("file.ts") == "file"
  {
    RemoveFileExtensionIsPrefixBeforeLastDot("file.ts");
    assert LastIndexOf("file.ts", '.') == 4;
  }

  lemma RemoveFileExtensionOfTwoDots()
    ensures RemoveFileExtension("file.test.ts") == "file.test"
  {
    RemoveFileExtensionIsPrefixBeforeLastDot("file.test.ts");
    assert LastIndexOf("file.test.ts", '.') == 9;
  }

  /** The larger of the last `/` and the last `\` index, -1 when neither occurs. */
  function GetLastSeparator(path: string): (r: int)
    ensures -1 <= r < |path|
    ensures r == -1 <==> '/' !in path && '\\' !in path
    ensures r >= 0 ==> path[r] == '/' || path[r] == '\\'
    ensures forall j :: r < j < |path| ==> path[j] != '/' && path[j] != '\\'
  {
    var lastSlash := LastIndexOf(path, '/');
    var lastBackslash := LastIndexOf(path, '\\');
    if lastSlash < lastBackslash then lastBackslash else lastSlash
  }

  // ---------------------------------------------------------------------------
  // Text generators

  function EnumEntry(d: Definition): string {
    "  " + d.name + " = '" + d.name + "'"
  }

  function EnumEntries(defs: seq<Definition>): (r: seq<string>)
    ensures |r| == |defs| && forall i :: 0 <= i < |defs| ==> r[i] == EnumEntry(defs[i])
  {
    if |defs| == 0 then [] else [EnumEntry(defs[0])] + EnumEntries(defs[1..])
  }

  function CreateEnumContent(defs: seq<Definition>): string {
    Join(EnumEntries(defs), ",\n")
  }

  function CreateEnum(t: Family, defs: seq<Definition>): string {
    "export enum " + FamilyName(t) + "Type {\n" + CreateEnumContent(defs) + ",\n}\n"
  }

  function ParameterLine(p: Parameter): string {
    "  " + p.name + ": " + p.dataType
  }

  function ParameterLines(ps: seq<Parameter>): (r: seq<string>)
    ensures |r| == |ps| && forall i :: 0 <= i < |ps| ==> r[i] == ParameterLine(ps[i])
  {
    if |ps| == 0 then [] else [ParameterLine(ps[0])] + ParameterLines(ps[1..])
  }

  function TypeHeader(t: Family, d: Definition): string {
    "export type " + ToDefPascalCase(d) + FamilyName(t) + " = {"
  }

  function TypeTagLine(t: Family, d: Definition): string {
    "  type: " + FamilyName(t) + "Type." + d.name
  }

  function CreateType(t: Family, d: Definition): string {
    TypeHeader(t, d) + "\n" + Join([TypeTagLine(t, d)] + ParameterLines(d.parameters), "\n") + "\n}"
  }

  function TypeBlocks(t: Family, defs: seq<Definition>): (r: seq<string>)
    ensures |r| == |defs| && forall i :: 0 <= i < |defs| ==> r[i] == CreateType(t, defs[i])
  {
    if |defs| == 0 then [] else [CreateType(t, defs[0])] + TypeBlocks(t, defs[1..])
  }

  function CreateTypes(t: Family, defs: seq<Definition>): string {
    Join(TypeBlocks(t, defs), "\n") + "\n"
  }

  function UnionLine(t: Family, d: Definition): string {
    "  | " + ToDefPascalCase(d) + FamilyName(t)
  }

  function UnionLines(t: Family, defs: seq<Definition>): (r: seq<string>)
    ensures |r| == |defs| && forall i :: 0 <= i < |defs| ==> r[i] == UnionLine(t, defs[i])
  {
    if |defs| == 0 then [] else [UnionLine(t, defs[0])] + UnionLines(t, defs[1..])
  }

  function CreateUnionContent(t: Family, defs: seq<Definition>): string {
    Join(UnionLines(t, defs), "\n")
  }

  function CreateUnion(t: Family, defs: seq<Definition>): string {
    "export type " + FamilyName(t) + " =\n" + CreateUnionContent(t, defs) + "\n"
  }

  // ---------------------------------------------------------------------------
  // What the generated texts look like, line by line

  function Lines(s: string): seq<string> {
    Split(s, '\n')
  }

  /** A definition whose name and parameter texts hold no line break. The
      parser's names never do; its types may, when a braced type spans lines. */
  predicate SingleLine(d: Definition) {
    && '\n' !in d.name
    && forall i :: 0 <= i < |d.parameters| ==>
         '\n' !in d.parameters[i].name && '\n' !in d.parameters[i].dataType
  }

  /** A line followed by a line break starts the line list. */
  lemma LinesCons(line: string, rest: string)
    requires '\n' !in line
    ensures Lines(line + "\n" + rest) == [line] + Lines(rest)
  {
    assert line + "\n" + rest == line + ['\n'] + rest;
    SplitAtSeparator(line, rest, '\n');
    SplitWithoutSeparator(line, '\n');
  }

  /** A line break followed by a last line ends the line list. */
  lemma LinesSnoc(init: string, line: string)
    requires '\n' !in line
    ensures Lines(init + "\n" + line) == Lines(init) + [line]
  {
    assert init + "\n" + line == init + ['\n'] + line;
    SplitAtSeparator(init, line, '\n');
    SplitWithoutSeparator(line, '\n');
  }

  lemma {:induction false} LinesOfJoin(pieces: seq<string>)
    requires |pieces| >= 1
    requires forall i :: 0 <= i < |pieces| ==> '\n' !in pieces[i]
    ensures Lines(Join(pieces, "\n")) == pieces
  {
    assert "" + ['\n'] == "\n";
    SplitJoin(pieces, "", '\n');
    SuffixEmpty(pieces);
  }

  /** The lines of each piece, one after the other. */
  function AllLines(pieces: seq<string>): seq<string> {
    if |pieces| == 0 then [] else Lines(pieces[0]) + AllLines(pieces[1..])
  }

  /** Splitting a join on line breaks gives the lines of every piece in turn,
      whatever line breaks the pieces themselves hold. */
  lemma {:induction false} LinesOfAnyJoin(pieces: seq<string>)
    requires |pieces| >= 1
    ensures Lines(Join(pieces, "\n")) == AllLines(pieces)
  {
    if |pieces| == 1 {
      assert AllLines(pieces[1..]) == [];
      assert AllLines(pieces) == Lines(pieces[0]) + [];
    } else {
      var rest := Join(pieces[1..], "\n");
      assert Join(pieces, "\n") == pieces[0] + ['\n'] + rest;
      SplitAtSeparator(pieces[0], rest, '\n');
      LinesOfAnyJoin(pieces[1..]);
    }
  }

  lemma {:induction false} AllLinesOfSingleLines(pieces: seq<string>)
    requires forall i :: 0 <= i < |pieces| ==> '\n' !in pieces[i]
    ensures AllLines(pieces) == pieces
  {
    if |pieces| > 0 {
      SplitWithoutSeparator(pieces[0], '\n');
      AllLinesOfSingleLines(pieces[1..]);
      assert pieces == [pieces[0]] + pieces[1..];
    }
  }

  /** Text without a line break put in front only extends the first line. */
  lemma {:induction false} LinesPrepend(prefix: string, s: string)
    requires '\n' !in prefix
    ensures Lines(prefix + s) == [prefix + Lines(s)[0]] + Lines(s)[1..]
    decreases |prefix|
  {
    if |prefix| == 0 {
      assert prefix + s == s;
      assert prefix + Lines(s)[0] == Lines(s)[0];
    } else {
      var c, tail := prefix[0], prefix[1..];
      var lines, rest := Lines(s), Lines(tail + s);
      LinesPrepend(tail, s);
      assert rest[0] == tail + lines[0] && rest[1..] == lines[1..];
      assert prefix + s == [c] + (tail + s);
      SplitCons(c, tail + s, '\n');
      assert Lines(prefix + s) == [[c] + rest[0]] + rest[1..];
      AppendAssoc([c], tail, lines[0]);
      assert [c] + tail == prefix;
    }
  }

  lemma {:induction false} SuffixEmpty(pieces: seq<string>)
    ensures SuffixAllButLast(pieces, "") == pieces
  {
    if |pieces| > 1 {
      SuffixEmpty(pieces[1..]);
      assert pieces[0] + "" == pieces[0];
    }
  }

  lemma PascalCaseSingleLine(s: string)
    requires '\n' !in s
    ensures '\n' !in ToPascalCase(s)
  {
    if |s| > 0 {
      assert s == [s[0]] + s[1..];
    }
  }

  lemma FamilyNameSingleLine(t: Family)
    ensures '\n' !in FamilyName(t)
  {
  }

  lemma EnumEntrySingleLine(d: Definition)
    requires '\n' !in d.name
    ensures '\n' !in EnumEntry(d)
  {
    assert '\n' !in "  " && '\n' !in " = '" && '\n' !in "'";
  }

  /** The enum body has one entry per definition, in order, each followed by a
      comma except the last: no trailing separator. */
  lemma EnumContentLines(defs: seq<Definition>)
    requires |defs| >= 1
    requires forall i :: 0 <= i < |defs| ==> '\n' !in defs[i].name
    ensures Lines(CreateEnumContent(defs)) == SuffixAllButLast(EnumEntries(defs), ",")
  {
    var entries := EnumEntries(defs);
    EnumEntriesSingleLine(defs);
    CommaLineBreak();
    SplitJoin(entries, ",", '\n');
  }

  lemma EnumEntriesSingleLine(defs: seq<Definition>)
    requires forall i :: 0 <= i < |defs| ==> '\n' !in defs[i].name
    ensures forall i :: 0 <= i < |EnumEntries(defs)| ==> '\n' !in EnumEntries(defs)[i]
  {
    forall i | 0 <= i < |defs| {
      EnumEntrySingleLine(defs[i]);
    }
  }

  lemma CommaLineBreak()
    ensures "," + ['\n'] == ",\n"
  {
  }

  /** `pieces` with `suffix` appended to every piece. */
  function SuffixAll(pieces: seq<string>, suffix: string): (r: seq<string>)
    ensures |r| == |pieces| && forall i :: 0 <= i < |pieces| ==> r[i] == pieces[i] + suffix
  {
    if |pieces| == 0 then [] else [pieces[0] + suffix] + SuffixAll(pieces[1..], suffix)
  }

  lemma {:induction false} SuffixAllButLastThenLast(pieces: seq<string>, suffix: string)
    requires |pieces| >= 1
    ensures ExtendLast(SuffixAllButLast(pieces, suffix), suffix) == SuffixAll(pieces, suffix)
  {
    if |pieces| > 1 {
      SuffixAllButLastThenLast(pieces[1..], suffix);
    }
  }

  /** The enum declaration: its header, every entry followed by a comma, the
      closing brace, and a final line break. An empty definition list leaves a
      lone comma between the braces. */
  lemma {:induction false} EnumLines(t: Family, defs: seq<Definition>)
    requires forall i :: 0 <= i < |defs| ==> '\n' !in defs[i].name
    ensures Lines(CreateEnum(t, defs)) ==
      ["export enum " + FamilyName(t) + "Type {"]
      + (if |defs| == 0 then [","] else SuffixAll(EnumEntries(defs), ","))
      + ["}", ""]
  {
    var header := "export enum " + FamilyName(t) + "Type {";
    var content := CreateEnumContent(defs);
    var inner := Lines(content + ",");
    FamilyNameSingleLine(t);
    assert '\n' !in header;
    EnumText(t, defs);
    LinesCons(header, ((content + ",") + "\n" + "}") + "\n" + "");
    LinesSnoc((content + ",") + "\n" + "}", "");
    LinesSnoc(content + ",", "}");
    EnumBodyLines(defs);
    AppendAssoc(inner, ["}"], [""]);
    assert ["}"] + [""] == ["}", ""];
    AppendAssoc([header], inner, ["}", ""]);
  }

  /** The entries with the comma that follows the last one. */
  lemma EnumBodyLines(defs: seq<Definition>)
    requires forall i :: 0 <= i < |defs| ==> '\n' !in defs[i].name
    ensures Lines(CreateEnumContent(defs) + ",") ==
      if |defs| == 0 then [","] else SuffixAll(EnumEntries(defs), ",")
  {
    if |defs| == 0 {
      EmptyEnumBodyLines();
    } else {
      var content := CreateEnumContent(defs);
      SplitExtendLast(content, ",", '\n');
      EnumContentLines(defs);
      SuffixAllButLastThenLast(EnumEntries(defs), ",");
    }
  }

  lemma EmptyEnumBodyLines()
    ensures Lines(CreateEnumContent([]) + ",") == [","]
  {
    assert CreateEnumContent([]) + "," == ",";
    SplitWithoutSeparator(",", '\n');
  }

  lemma EnumText(t: Family, defs: seq<Definition>)
    ensures var content := CreateEnumContent(defs);
      CreateEnum(t, defs) ==
        ("export enum " + FamilyName(t) + "Type {") + "\n" + (((content + ",") + "\n" + "}") + "\n" + "")
  {
  }

  /** A type block's lines: the header, the tag line, the lines of every
      parameter in order (more than one for a type that spans lines), and the
      closing brace. */
  function TypeBlockLines(t: Family, d: Definition): seq<string> {
    [TypeHeader(t, d), TypeTagLine(t, d)] + AllLines(ParameterLines(d.parameters)) + ["}"]
  }

  lemma TypeHeadSingleLine(t: Family, d: Definition)
    requires '\n' !in d.name
    ensures '\n' !in TypeHeader(t, d) && '\n' !in TypeTagLine(t, d)
  {
    PascalCaseSingleLine(d.name);
    FamilyNameSingleLine(t);
    assert '\n' !in "export type " && '\n' !in " = {" && '\n' !in "  type: " && '\n' !in "Type.";
  }

  /** A parameter's first line holds its name and the first line of its type;
      the further lines of the type follow unindented. */
  lemma ParameterLineLines(p: Parameter)
    requires '\n' !in p.name
    ensures Lines(ParameterLine(p)) ==
      ["  " + p.name + ": " + Lines(p.dataType)[0]] + Lines(p.dataType)[1..]
  {
    assert '\n' !in "  " && '\n' !in ": ";
    LinesPrepend("  " + p.name + ": ", p.dataType);
  }

  /** For parameters without line breaks, one line per parameter. */
  lemma SingleLineTypeBlock(t: Family, d: Definition)
    requires SingleLine(d)
    ensures TypeBlockLines(t, d) ==
      [TypeHeader(t, d), TypeTagLine(t, d)] + ParameterLines(d.parameters) + ["}"]
  {
    var lines := ParameterLines(d.parameters);
    forall i | 0 <= i < |lines| ensures '\n' !in lines[i] {
      assert '\n' !in "  " && '\n' !in ": ";
    }
    AllLinesOfSingleLines(lines);
  }

  function TypeBody(t: Family, d: Definition): seq<string> {
    [TypeTagLine(t, d)] + ParameterLines(d.parameters)
  }

  lemma TypeText(t: Family, d: Definition)
    ensures CreateType(t, d) == TypeHeader(t, d) + "\n" + (Join(TypeBody(t, d), "\n") + "\n" + "}")
  {
  }

  /** One object type: its header, the `type:` tag line, one line per
      parameter in declaration order, and the closing brace. */
  lemma TypeLines(t: Family, d: Definition)
    requires '\n' !in d.name
    ensures Lines(CreateType(t, d)) == TypeBlockLines(t, d)
  {
    var header := TypeHeader(t, d);
    var joined := Join(TypeBody(t, d), "\n");
    TypeHeadSingleLine(t, d);
    TypeText(t, d);
    TypeBodyLines(t, d);
    LinesSnoc(joined, "}");
    LinesCons(header, joined + "\n" + "}");
    AppendAssoc([header], Lines(joined), ["}"]);
  }

  lemma TypeBodyLines(t: Family, d: Definition)
    requires '\n' !in TypeTagLine(t, d)
    ensures Lines(Join(TypeBody(t, d), "\n")) == [TypeTagLine(t, d)] + AllLines(ParameterLines(d.parameters))
  {
    var body := TypeBody(t, d);
    LinesOfAnyJoin(body);
    assert body[1..] == ParameterLines(d.parameters);
    SplitWithoutSeparator(TypeTagLine(t, d), '\n');
  }

  /** A header line, body lines joined by line breaks, and a footer line. */
  lemma FramedLines(header: string, body: seq<string>, footer: string)
    requires '\n' !in header && '\n' !in footer
    requires |body| >= 1 && forall i :: 0 <= i < |body| ==> '\n' !in body[i]
    ensures Lines(header + "\n" + (Join(body, "\n") + "\n" + footer)) == [header] + body + [footer]
  {
    var joined := Join(body, "\n");
    var rest := joined + "\n" + footer;
    LinesOfJoin(body);
    LinesSnoc(joined, footer);
    assert Lines(rest) == body + [footer];
    LinesCons(header, rest);
    AppendAssoc([header], body, [footer]);
  }

  function AllTypeBlockLines(t: Family, defs: seq<Definition>): seq<string> {
    if |defs| == 0 then [] else TypeBlockLines(t, defs[0]) + AllTypeBlockLines(t, defs[1..])
  }

  lemma {:induction false} LinesOfTypeBlocks(t: Family, defs: seq<Definition>)
    requires |defs| >= 1
    requires forall i :: 0 <= i < |defs| ==> '\n' !in defs[i].name
    ensures Lines(Join(TypeBlocks(t, defs), "\n")) == AllTypeBlockLines(t, defs)
  {
    TypeLines(t, defs[0]);
    if |defs| == 1 {
      assert AllTypeBlockLines(t, defs) == TypeBlockLines(t, defs[0]) + [];
    } else {
      var blocks := TypeBlocks(t, defs);
      assert blocks[1..] == TypeBlocks(t, defs[1..]);
      assert Join(blocks, "\n") == blocks[0] + ['\n'] + Join(blocks[1..], "\n");
      SplitAtSeparator(blocks[0], Join(blocks[1..], "\n"), '\n');
      LinesOfTypeBlocks(t, defs[1..]);
    }
  }

  /** The generated types: one block per definition in order, and the text ends
      with a line break. */
  lemma TypesLines(t: Family, defs: seq<Definition>)
    requires forall i :: 0 <= i < |defs| ==> '\n' !in defs[i].name
    ensures Lines(CreateTypes(t, defs)) ==
      (if |defs| == 0 then [""] else AllTypeBlockLines(t, defs)) + [""]
  {
    LinesSnoc(Join(TypeBlocks(t, defs), "\n"), "");
    assert CreateTypes(t, defs) == Join(TypeBlocks(t, defs), "\n") + "\n" + "";
    if |defs| == 0 {
      assert Lines([]) == [[]];
    } else {
      LinesOfTypeBlocks(t, defs);
    }
  }

  lemma UnionLineSingleLine(t: Family, d: Definition)
    requires '\n' !in d.name
    ensures '\n' !in UnionLine(t, d)
  {
    PascalCaseSingleLine(d.name);
    FamilyNameSingleLine(t);
    assert '\n' !in "  | ";
  }

  lemma UnionText(t: Family, defs: seq<Definition>)
    ensures CreateUnion(t, defs) ==
      ("export type " + FamilyName(t) + " =") + "\n" + (Join(UnionLines(t, defs), "\n") + "\n" + "")
  {
  }

  lemma UnionLinesSingleLine(t: Family, defs: seq<Definition>)
    requires forall i :: 0 <= i < |defs| ==> '\n' !in defs[i].name
    ensures forall i :: 0 <= i < |defs| ==> '\n' !in UnionLines(t, defs)[i]
  {
    forall i | 0 <= i < |defs| ensures '\n' !in UnionLines(t, defs)[i] {
      UnionLineSingleLine(t, defs[i]);
    }
  }

  /** The union type: its header, one `  | <Name><Family>` line per definition
      in order, and a final line break. An empty definition list leaves an
      empty line under the header. */
  lemma UnionLinesOf(t: Family, defs: seq<Definition>)
    requires forall i :: 0 <= i < |defs| ==> '\n' !in defs[i].name
    ensures Lines(CreateUnion(t, defs)) ==
      if |defs| == 0 then ["export type " + FamilyName(t) + " =", "", ""]
      else ["export type " + FamilyName(t) + " ="] + UnionLines(t, defs) + [""]
  {
    var header := "export type " + FamilyName(t) + " =";
    FamilyNameSingleLine(t);
    assert '\n' !in " =" && '\n' !in "export type ";
    assert '\n' !in header;
    if |defs| == 0 {
      EmptyUnionLines(t, header);
    } else {
      var lines := UnionLines(t, defs);
      UnionLinesSingleLine(t, defs);
      UnionText(t, defs);
      FramedLines(header, lines, "");
    }
  }

  lemma EmptyUnionLines(t: Family, header: string)
    requires header == "export type " + FamilyName(t) + " =" && '\n' !in header
    ensures Lines(CreateUnion(t, [])) == [header, "", ""]
  {
    assert CreateUnion(t, []) == header + "\n" + "\n";
    LinesCons(header, "\n");
    assert "\n" == [] + "\n" + [];
    LinesSnoc([], []);
    SplitWithoutSeparator([], '\n');
  }

  /** The single-definition cases of the unit tests for `createUnion` and
      `createTypes`. */
  lemma UnionExample()
    ensures CreateUnion(Event, [Definition("login", [])]) == "export type Event =\n  | LoginEvent\n"
  {
    var ds := [Definition("login", [])];
    assert ds[1..] == [];
    LoginUnionLine();
    assert UnionLines(Event, ds) == ["  | LoginEvent"];
    UnionExampleText();
  }

  lemma LoginUnionLine()
    ensures UnionLine(Event, Definition("login", [])) == "  | LoginEvent"
  {
    PascalCaseLogin();
  }

  lemma UnionExampleText()
    ensures "export type " + "Event" + " =\n" + "  | LoginEvent" + "\n" == "export type Event =\n  | LoginEvent\n"
  {
  }

  lemma LoginEventTypeParts()
    ensures TypeHeader(Event, Definition("login", [])) == "export type LoginEvent = {"
    ensures TypeTagLine(Event, Definition("login", [])) == "  type: EventType.login"
  {
    PascalCaseLogin();
  }

  lemma PascalCaseLogin()
    ensures ToPascalCase("login") == "Login"
  {
    assert "login"[1..] == "ogin";
  }

  lemma LoginEventType()
    ensures CreateType(Event, Definition("login", [])) ==
      "export type LoginEvent = {\n  type: EventType.login\n}"
  {
    var d := Definition("login", []);
    LoginEventTypeParts();
    assert [TypeTagLine(Event, d)] + ParameterLines([]) == [TypeTagLine(Event, d)];
    LoginEventTypeText();
  }

  lemma LoginEventTypeText()
    ensures "export type LoginEvent = {" + "\n" + "  type: EventType.login" + "\n}" ==
      "export type LoginEvent = {\n  type: EventType.login\n}"
  {
  }

  lemma TypesExample()
    ensures CreateTypes(Event, [Definition("login", [])]) ==
      "export type LoginEvent = {\n  type: EventType.login\n}\n"
  {
    var ds := [Definition("login", [])];
    assert ds[1..] == [];
    LoginEventType();
    assert TypeBlocks(Event, ds) == [CreateType(Event, ds[0])];
  }
}
