# vscode-actyx-pond text core in Dafny

This project models the pure text-processing core of the Actyx Pond VS Code
extension. It has four parts:

- **The definition-list parser** (`src/definitionParser.ts`). It turns text such
  as `login(name: string, device)\nlogoff` into an ordered list of definitions,
  each with a name and parameters `{name, dataType}`. It works in four stages:
  - `cleanupInput` turns CRLF into LF in a single pass, drops `//` lines and trims.
  - A four-state character tokenizer (Name, Parameter, Type, EndParams) runs as a
    left fold and tracks a brace level per token.
  - `splitDefinitions` cuts the token list at Name tokens.
  - `buildDefinition` folds each group into a definition; `convertToDefinitions`
    keeps the definitions that have a name.
- **The string helpers and generators** (`src/common.ts`): first-letter case
  mapping, extension stripping, the last path separator, and the enum, type and
  union text generators.
- **The fish export** (`src/exportFish.ts`):
  - reading fish metadata from a fish source file;
  - the filter that picks fish files from a directory listing;
  - the export block written for one fish;
  - the "append only if absent" fold over the content of `index.ts`.
- **The fish-name normaliser** `processFishName` (`src/newFish.ts`).

Modules:

| module | file | contents |
|---|---|---|
| `Optional` | `text.dfy` | `Option<T>` (JavaScript `undefined`) |
| `Text` | `text.dfy` | the JavaScript string built-ins the core uses, written out once |
| `Common` | `common.dfy` | `Parameter`/`Definition`, case mapping, `removeFileExtension`, `getLastSeparator`, the generators |
| `DefinitionParser` | `definition_parser.dfy` | the four parser stages |
| `ExportFish` | `export_fish.dfy` | fish metadata, file filter, export block, content fold |
| `NewFish` | `new_fish.dfy` | `processFishName` |

The `Text` built-ins are `trim`, `split`, `join`, `includes`, `startsWith`,
`endsWith`, `lastIndexOf`, `substr`, `filter` and ASCII case mapping.

`Parameter`, `Definition` and `toDefPascalCase` live in `Common`. The two
TypeScript files import each other, and Dafny modules cannot.

Each operation is a function, and lemmas relate it to a partner:

- **The tokenizer** is specified by an invariant of the fold. The token kinds form
  a path through the automaton Name → StartParams → Parameter → Type → EndParams →
  Name, and the delimiter characters never reach the text of the token they close.
- **`buildDefinition`** is proved equal to an independent right-to-left reading
  of the token list.
- **`splitDefinitions`** is proved to be a partition.
- **The generators** are specified by the lines of their output.
- **`createContent`** is specified by what its output mentions and when it
  changes nothing.

## Model

| member | source | states |
|---|---|---|
| Text.TrimStart | src/definitionParser.ts:30 | the result is a suffix of the input that is empty or starts with a non-whitespace character |
| Text.TrimEnd | src/definitionParser.ts:32 | the result is a prefix of the input that is empty or ends with a non-whitespace character |
| Text.TrimStartRemovesWhitespace | src/definitionParser.ts:30 | every character that `trimStart` drops is whitespace |
| Text.TrimEndRemovesWhitespace | src/definitionParser.ts:32 | every character that `trimEnd` drops is whitespace |
| Text.Trim | src/definitionParser.ts:32 | the trimmed text neither starts nor ends with whitespace |
| Text.TrimPrependWhitespace | src/definitionParser.ts:30 | a leading whitespace character does not change the trimmed text |
| Text.TrimAppendWhitespace | src/definitionParser.ts:30 | a trailing whitespace character does not change the trimmed text |
| Text.TrimOfTrimmed | src/exportFish.ts:30 | text without outer whitespace is its own trim |
| Text.TrimIdempotent | src/definitionParser.ts:32 | trimming twice is trimming once |
| Text.TrimStartsAtFirstNonWhitespace | src/definitionParser.ts:30 | the trimmed text starts with the first non-whitespace character of the input |
| Text.ContainsMeansOccurs | src/exportFish.ts:18 | `includes` holds exactly when the pattern occurs at some index |
| Text.ContainsExtend | src/exportFish.ts:119-121 | text that contains a pattern still contains it after anything is appended |
| Text.ContainsPrepend | src/exportFish.ts:119-121 | text that contains a pattern still contains it after anything is prepended |
| Text.ContainsPiece | src/exportFish.ts:119-121 | a text contains each piece it is built from |
| Text.ContainsAroundSeparator | src/exportFish.ts:18 | for a pattern without the separator, the joined text contains it exactly when one side does |
| Text.OccurrenceOnOneSide | src/exportFish.ts:18 | an occurrence of a pattern without the separator lies wholly on one side of it |
| Text.FilterMembers | src/exportFish.ts:51-57 | `filter` keeps exactly the elements of the input that pass the test |
| Text.FilterAppend | src/exportFish.ts:51-57 | filtering a concatenation concatenates the filtered parts, in order |
| Text.FilterEmpty | src/exportFish.ts:18-19 | the filter is empty exactly when no element passes the test |
| Text.FilterFirst | src/exportFish.ts:18 | the first kept element is the first element that passes the test |
| Text.BeforeFirstSpec | src/exportFish.ts:143 | `split(p)[0]` is the prefix before the first occurrence of `p`, or the whole text when there is none |
| Text.LastIndexOf | src/common.ts:24-25 | -1 exactly when the character is absent, otherwise the index of its last occurrence |
| Text.Split | src/common.ts:9 | `split` returns at least one piece |
| Text.SplitPiecesAvoidSeparator | src/definitionParser.ts:29 | no piece of a split contains the separator |
| Text.SplitWithoutSeparator | src/definitionParser.ts:29 | text without the separator splits into itself |
| Text.SplitAtSeparator | src/definitionParser.ts:29 | splitting at a separator concatenates the splits of the two sides |
| Text.JoinSplit | src/definitionParser.ts:29-31 | joining the pieces of a split with the same separator restores the text |
| Text.SplitJoin | src/common.ts:84 | splitting a join with separator `prefix + sep` gives the pieces back, each but the last followed by `prefix` |
| Text.SplitExtendLast | src/common.ts:87 | appending text without the separator only extends the last piece |
| Text.SplitPiecesFromText | src/definitionParser.ts:29 | a character absent from the text is absent from every piece |
| Text.JoinAppend | src/common.ts:90 | joining one more piece adds the separator and that piece |
| Text.ContainsInJoin | src/exportFish.ts:18 | a joined text contains a pattern without the separator exactly when one piece does |
| Text.UpperChar | src/newFish.ts:32 | `toUpperCase` maps each of `a`-`z` to the same letter in `A`-`Z` and leaves every other character alone |
| Text.LowerChar | src/exportFish.ts:55 | `toLowerCase` maps each of `A`-`Z` to the same letter in `a`-`z` and leaves every other character alone |
| Text.CaseRoundTrip | src/newFish.ts:32 | upper and lower case undo each other on the ASCII letters |
| Text.Upper | src/newFish.ts:32 | upper-casing works character by character and keeps the length |
| Text.Lower | src/exportFish.ts:55 | lower-casing works character by character and keeps the length |
| Common.PascalCaseShape | src/common.ts:13-16 | only the first character changes, to upper case when it is `a`-`z`; the length is kept |
| Common.SemanticsShape | src/common.ts:18-21 | only the first character changes, to lower case when it is `A`-`Z`; the length is kept |
| Common.PascalCaseIdempotent | src/common.ts:13-16 | PascalCasing twice is PascalCasing once |
| Common.SemanticsUndoesPascalCase | src/common.ts:13-21 | `toSemantics` undoes `toPascalCase` on text that does not start with a capital |
| Common.PascalCaseExamples | src/test/suite/definitionParser.test.ts:6-12 | `overViewFish` becomes `OverViewFish`; `OverViewFish`, `_verViewFish`, the empty text and `O` stay as they are; `toDefPascalCase` agrees |
| Common.RemoveFileExtensionIsPrefixBeforeLastDot | src/common.ts:7-11 | the result is the text before the last dot, or empty when there is no dot |
| Common.RemoveFileExtensionOfNoDot | src/test/suite/common.test.ts:18 | the empty name, and a name without a dot, become empty |
| Common.RemoveFileExtensionOfOneDot | src/test/suite/common.test.ts:19 | `file.ts` becomes `file` |
| Common.RemoveFileExtensionOfTwoDots | src/test/suite/common.test.ts:20 | `file.test.ts` becomes `file.test` |
| Common.GetLastSeparator | src/common.ts:23-27 | -1 exactly when the path has neither `/` nor a backslash; otherwise the index of a separator with no separator after it |
| Common.EnumEntries | src/common.ts:81-83 | one `  name = 'name'` entry per definition, in order |
| Common.EnumContentLines | src/common.ts:80-84 | the enum content's lines are the entries in order, each but the last followed by a comma |
| Common.EnumLines | src/common.ts:86-87 | the enum's lines: the header, every entry followed by a comma (a lone comma when there are none), `}`, and an empty last line |
| Common.ParameterLines | src/common.ts:96 | one `  name: dataType` line per parameter, in order |
| Common.TypeBlocks | src/common.ts:90 | one type block per definition, in order |
| Common.TypeLines | src/common.ts:93-99 | for a name without line breaks, a type block's lines: the header, the `type:` tag line, the lines of every parameter in order (several for a type spanning lines), and `}` |
| Common.ParameterLineLines | src/common.ts:96 | a parameter's first line holds its name and the first line of its type; the type's further lines follow as they are |
| Common.SingleLineTypeBlock | src/common.ts:93-99 | when no parameter text holds a line break, the block has exactly one line per parameter |
| Common.LinesOfTypeBlocks | src/common.ts:90 | for names without line breaks, the lines of the joined blocks are the blocks' lines, concatenated in order |
| Common.TypesLines | src/common.ts:89-91 | for names without line breaks, the whole `createTypes` text is the lines of its blocks in order, then an empty last line, so the text ends in a line break |
| Common.UnionLines | src/common.ts:101-103 | one line per definition, in order: two spaces, a bar, the PascalCased name and the family |
| Common.UnionLinesOf | src/common.ts:100-108 | the union's lines: the header, one line per definition in order, and an empty last line; for no definitions, the header followed by two empty lines |
| Common.UnionExample | src/test/suite/buildDefinition.test.ts:6-10 | the union of `login` events is the text the test expects |
| Common.LoginEventType | src/common.ts:93-99 | the type block of the `login` event has a header and a tag line only |
| Common.TypesExample | src/test/suite/buildDefinition.test.ts:20-24 | the types of `login` events are the text the test expects |
| Common.LinesOfJoin | src/common.ts:84 | joining single-line pieces with line breaks and splitting again gives the pieces back |
| Common.LinesOfAnyJoin | src/common.ts:90 | splitting a line-break join gives the lines of every piece in turn, whatever line breaks the pieces hold |
| Common.LinesPrepend | src/common.ts:96 | text without a line break put in front extends only the first line |
| Common.SuffixAllButLastThenLast | src/common.ts:87 | adding the suffix after the last piece completes a suffix on every piece |
| DefinitionParser.WithoutCarriageReturns | src/definitionParser.ts:28 | the reference text has no carriage return |
| DefinitionParser.ReplaceCrlfOnlyDropsCarriageReturns | src/definitionParser.ts:28 | the CRLF replace deletes carriage returns and nothing else |
| DefinitionParser.ReplaceCrlfWithoutCarriageReturn | src/definitionParser.ts:28 | text without a carriage return is left unchanged |
| DefinitionParser.ReplaceCrlfIsSinglePass | src/definitionParser.ts:28 | the replace is a single pass: `\r\r\n` still leaves `\r\n` |
| DefinitionParser.ReplaceCrlfLine | src/definitionParser.ts:28-29 | on a line followed by LF, the replace only drops a final carriage return from that line |
| DefinitionParser.CleanupOfPlainText | src/definitionParser.ts:26-32 | without carriage returns and comment lines, cleanup only trims |
| DefinitionParser.CleanupWithoutSlashes | src/definitionParser.ts:26-32 | without carriage returns and slashes, cleanup only trims |
| DefinitionParser.CleanupIsTrimmed | src/definitionParser.ts:32 | the cleaned text neither starts nor ends with whitespace |
| DefinitionParser.CleanupRemovesCommentLines | src/definitionParser.ts:26-32 | no line of the cleaned text, trimmed, starts with `//` |
| DefinitionParser.DropCommentLinesLeavesNone | src/definitionParser.ts:30 | the line filter leaves no comment line |
| DefinitionParser.DropCommentLinesKeepsLines | src/definitionParser.ts:30 | every line that the filter keeps is one of its input lines |
| DefinitionParser.DropCommentLinesIsFilter | src/definitionParser.ts:30 | the line filter keeps exactly the lines that are not comment lines, in their input order |
| DefinitionParser.DropCommentLinesAppend | src/definitionParser.ts:30 | filtering a concatenation of lines is the concatenation of the filtered parts |
| DefinitionParser.KeepAllLines | src/definitionParser.ts:30 | a list of lines without comment lines passes the filter unchanged |
| DefinitionParser.NoCommentLineTrimStart | src/definitionParser.ts:32 | trimming the start of the text creates no comment line |
| DefinitionParser.NoCommentLineTrimEnd | src/definitionParser.ts:32 | trimming the end of the text creates no comment line |
| DefinitionParser.CleanupIgnoresCommentLine | src/definitionParser.ts:26-32 | a leading comment line does not change the cleaned text |
| DefinitionParser.NewToken | src/definitionParser.ts:48-52 | a new token has the given kind; without a character it is empty at level 0, with one its text is that character, even whitespace, and its level is 1 for `{` and 0 otherwise |
| DefinitionParser.AppendKeepsTextRules | src/definitionParser.ts:54-61 | appending keeps the token kind and keeps `,` `:` `)` out of a parameter and `)` out of a type |
| DefinitionParser.AppendAllLevel | src/definitionParser.ts:60 | appending characters keeps the kind and moves the level by the brace balance of the characters, which may go below 0 |
| DefinitionParser.AppendAllAtLevelZero | src/definitionParser.ts:57-59 | at level 0 and without braces, exactly the characters that are not space, tab or LF are appended |
| DefinitionParser.AppendAllNested | src/definitionParser.ts:57-59 | while the level is not 0, every character is appended |
| DefinitionParser.AppendAllSnoc | src/definitionParser.ts:54-61 | appending characters one by one is appending them as a string |
| DefinitionParser.StepKeepsInvariant | src/definitionParser.ts:63-159 | every step of the tokenizer keeps the kind order and the delimiter rules, and never makes a StartParams accumulator |
| DefinitionParser.RunKeepsInvariant | src/definitionParser.ts:143-165 | the fold over any characters keeps the tokenizer invariant |
| DefinitionParser.StartInvariant | src/definitionParser.ts:161-164 | the initial accumulator (no tokens, an empty Name token) satisfies the invariant |
| DefinitionParser.TokenizeShape | src/definitionParser.ts:138-168 | the token list is not empty, starts with a Name, follows the kind order, keeps the delimiter rules, and does not end in StartParams, so the fallback branch at 154-158 is never taken |
| DefinitionParser.RunFromStart | src/definitionParser.ts:143-167 | the fold from the initial accumulator over any text yields tokenizer output |
| DefinitionParser.WellOrderedMarkers | src/definitionParser.ts:70-73 | every StartParams follows a Name, every Type follows a Parameter, every Parameter follows StartParams, Parameter or Type |
| DefinitionParser.TypeStateComma | src/definitionParser.ts:113-124 | in a Type token a comma ends the type exactly at level 0; otherwise it becomes part of the type |
| DefinitionParser.CloseParenEndsParameters | src/definitionParser.ts:84-88 | in a Parameter or Type token `)` closes the list at any level and opens an empty EndParams token |
| DefinitionParser.EndParamsTakesOneCharacter | src/definitionParser.ts:132-137 | after EndParams the next character, whatever it is, becomes the text of a new Name token |
| DefinitionParser.RunAppend | src/definitionParser.ts:143-165 | tokenizing two texts in a row is tokenizing their concatenation |
| DefinitionParser.RunInName | src/definitionParser.ts:63-80 | inside a name, text without LF or `(` only extends the name token |
| DefinitionParser.RunInParameter | src/definitionParser.ts:82-104 | inside a parameter, text without `)`, `,` or `:` only extends the parameter token |
| DefinitionParser.RunInType | src/definitionParser.ts:106-130 | inside a type, text without `)` whose commas are all nested only extends the type token |
| DefinitionParser.BracedTypeIsLiteral | src/definitionParser.ts:106-130 | a braced type without `)` is kept literally, with its commas, colons and whitespace, and the level returns to 0 |
| DefinitionParser.BraceBalanceWithoutBraces | src/definitionParser.ts:60 | text without braces leaves the level unchanged |
| DefinitionParser.NextNameFrom | src/definitionParser.ts:173 | the search finds the first Name token at or after the start, or -1 when there is none |
| DefinitionParser.FindNextDefinition | src/definitionParser.ts:173 | the first Name token after the head, or -1 when there is none |
| DefinitionParser.SplitIsPartition | src/definitionParser.ts:172-179 | concatenating the groups gives the groups already split followed by the rest |
| DefinitionParser.SplitMakesGroups | src/definitionParser.ts:172-179 | starting from a Name token, every group has exactly one Name token, at its head |
| DefinitionParser.SplitIntoGroups | src/definitionParser.ts:172-179 | splitting from scratch gives back the tokens, in groups that each start with their only Name token |
| DefinitionParser.SplitTokenizerOutput | src/definitionParser.ts:216-218 | the same holds for the tokens of any definition text |
| DefinitionParser.KeepNamedParameters | src/definitionParser.ts:212 | the result is the input filtered by non-empty name: every parameter with a name is kept, in order, and no other |
| DefinitionParser.UpdateLastAfterAppend | src/definitionParser.ts:190-199 | a later type replaces the `unknown` of the parameter just added |
| DefinitionParser.UpdateLastTwice | src/definitionParser.ts:195-199 | of two types written to the last parameter, the later one wins |
| DefinitionParser.StepKeepsDescription | src/definitionParser.ts:182-207 | each fold step keeps the meaning of the tokens still to read |
| DefinitionParser.BuildFoldMatchesDeclared | src/definitionParser.ts:182-209 | the fold equals the independent reading: the last Name, and every Parameter typed by the last Type before the next Parameter, or `unknown` |
| DefinitionParser.BuildDefinitionMatchesDeclared | src/definitionParser.ts:181-214 | the built definition is that reading, with unnamed parameters dropped |
| DefinitionParser.TypeBeforeNextParameterNotEmpty | src/definitionParser.ts:198 | an empty type text falls back to `unknown`, so the type found is never empty |
| DefinitionParser.DeclaredTypesNotEmpty | src/definitionParser.ts:193-198 | no declared parameter has an empty type |
| DefinitionParser.KeepNamedKeepsTypes | src/definitionParser.ts:212 | dropping unnamed parameters keeps the other parameters' types |
| DefinitionParser.DeclaredNamesInOrder | src/definitionParser.ts:190-194 | the kept parameter names are the non-empty trimmed Parameter texts, in token order |
| DefinitionParser.BuildDefinitionParameters | src/definitionParser.ts:181-214 | every parameter has a non-empty name and type, and the names follow the Parameter tokens in order |
| DefinitionParser.BuildDefinitionShape | src/definitionParser.ts:181-214 | the name is trimmed, and every parameter has a non-empty name and type |
| DefinitionParser.BuildAll | src/definitionParser.ts:219 | one definition per group, in order |
| DefinitionParser.KeepNamedDefinitions | src/definitionParser.ts:220 | the result is the input filtered by non-empty name: every definition with a name is kept, in order, and no other |
| DefinitionParser.ConvertOutputShape | src/definitionParser.ts:215-221 | every definition returned has a non-empty trimmed name and parameters with non-empty names and types |
| DefinitionParser.LastNameTrimmed | src/definitionParser.ts:187 | a name taken from a Name token is trimmed |
| DefinitionParser.NameTokenNamesAppend | src/definitionParser.ts:215-221 | the names of concatenated tokens are the names of each part, in order |
| DefinitionParser.GroupName | src/definitionParser.ts:185-188 | a group is named by its head Name token |
| DefinitionParser.GroupsNamesInOrder | src/definitionParser.ts:218-220 | the names of the kept definitions are the non-empty names of the groups, in order |
| DefinitionParser.ConvertNamesInOrder | src/definitionParser.ts:215-221 | the definitions returned are named by the non-empty Name tokens, in token order |
| DefinitionParser.StepKeepsNamesOneLine | src/definitionParser.ts:63-80 | a Name token holds a line break at most as its first character, since a line break ends the name and only the seed after `)` may be one |
| DefinitionParser.RunKeepsNamesOneLine | src/definitionParser.ts:138-168 | the fold keeps that rule for every token |
| DefinitionParser.TrimNameOneLine | src/definitionParser.ts:187 | the trimmed text of such a Name token holds no line break |
| DefinitionParser.ConvertNamesOneLine | src/definitionParser.ts:215-221 | no returned definition's name holds a line break, whatever the input |
| DefinitionParser.ConvertedTypesLines | src/common.ts:89-99 | for any parsed text, `createTypes` gives one block per definition (header, tag line, the lines of its parameters, `}`) and a final line break |
| DefinitionParser.ConvertIgnoresCommentLine | src/definitionParser.ts:26-32 | a leading comment line does not change the definitions |
| DefinitionParser.EmptyParameterList | src/definitionParser.ts:70-73 | `()` and one more character after a name produce StartParams, an empty Parameter, EndParams and a new Name token |
| DefinitionParser.RunLoginLogoff | src/definitionParser.ts:138-168 | `login()logoff` tokenizes into the `login` name, an empty parameter list and the `logoff` name |
| DefinitionParser.TokenizeLoginLogoff | src/definitionParser.ts:138-168 | the full token list of `login()logoff` |
| DefinitionParser.SplitTwoGroups | src/definitionParser.ts:172-179 | two groups in a row are split apart again |
| DefinitionParser.DefinitionsOfTwoBareNames | src/definitionParser.ts:215-221 | a name with an empty parameter list followed by a bare name gives two definitions without parameters |
| DefinitionParser.ConvertLoginLogoff | src/test/suite/definitionParser.test.ts:21-24 | `login()logoff` gives the definitions `login` and `logoff`, without parameters |
| DefinitionParser.RunTypedParameter | src/definitionParser.ts:138-168 | `name(param: {inner} )` tokenizes into a Name, StartParams, the Parameter, one Type token holding the whole braced text, and EndParams |
| DefinitionParser.BuildTypedParameter | src/definitionParser.ts:181-214 | those tokens build one definition whose only parameter has the braced text as its type |
| DefinitionParser.ConvertTypedParameter | src/definitionParser.ts:215-221 | for word names and a brace content without `)`, braces, `\r` or `/`, the conversion gives one definition whose parameter's type is the whole braced text |
| DefinitionParser.ConvertBracedType | src/test/suite/definitionParser.test.ts:89-92 | `login(name: {first:string, last:string} )` gives `login` with the one parameter `name` of type `{first:string, last:string}` |
| ExportFish.Substr | src/exportFish.ts:28 | `substr(start)` is the text after the first `start` characters, or empty when the text is shorter |
| ExportFish.MarkedLineExists | src/exportFish.ts:18 | some line holds the marker exactly when the content does, since the marker has no line break |
| ExportFish.ParseFindsFishExactlyWithMarker | src/exportFish.ts:18-22 | the file yields metadata exactly when its content holds `Fish = FishType.of<State,` |
| ExportFish.ParseFirstMarkedLine | src/exportFish.ts:18-37 | the name comes from the first marked line; each `has*` flag is whether the whole content holds its marker |
| ExportFish.DeclaredNameOf | src/exportFish.ts:28-30 | after 13 characters, the text up to the first `=`, trimmed, is the declared name |
| ExportFish.DeclarationLineNames | src/exportFish.ts:28-30 | a line `export const XFish = FishType.of<State,...` declares `XFish` |
| ExportFish.ParseDeclaredFish | src/exportFish.ts:14-38 | a file whose first marked line declares `XFish` yields that fish name and the file name |
| ExportFish.FishSourceFileChosen | src/exportFish.ts:51-57 | a file `XFish.ts` is chosen exactly when it is a regular file |
| ExportFish.IndexFileNotChosen | src/exportFish.ts:56 | `index.ts` is never chosen |
| ExportFish.LowerFishFileName | src/exportFish.ts:55 | the lower-cased name of `XFish.ts` contains `fish` |
| ExportFish.KeepCandidates | src/exportFish.ts:148-156 | the alias candidates that are not blank are exactly the aliases whose flag is set, in order |
| ExportFish.AliasesKept | src/exportFish.ts:148-156 | for a fish's five flags, the alias lines are those of Command, CommandType, Event, EventType and Name whose flag is set, in that order |
| ExportFish.OptionalContentLines | src/exportFish.ts:148-159 | the optional content is empty exactly when no flag is set, and otherwise its lines are the alias lines |
| ExportFish.TemplateLines | src/exportFish.ts:158-163 | the block's lines: `export {`, the fish, the aliases, the two state aliases, the `from` line, and an empty last line |
| ExportFish.ExportBodyLines | src/exportFish.ts:142-165 | the body of a fish is exactly its export lines: the name without `Fish`, PascalCased, the set flags' aliases in order, and the file name before `.ts` |
| ExportFish.ExportNameRestoresFish | src/exportFish.ts:145-147 | one trailing `Fish` is stripped before PascalCasing and added back in the block |
| ExportFish.ExportBodyNamesFish | src/exportFish.ts:158-159 | the body mentions the PascalCased fish name |
| ExportFish.CreateContentExtends | src/exportFish.ts:117-122 | the fold only appends: the old content is a prefix of the new |
| ExportFish.CreateContentUnchanged | src/exportFish.ts:117-128 | the content is left unchanged exactly when it already mentions every fish |
| ExportFish.AddExportKeeps | src/exportFish.ts:119-121 | adding an export keeps every text the content held |
| ExportFish.AddExportMentions | src/exportFish.ts:119-121 | after adding a fish with a canonical name, the content mentions it |
| ExportFish.CreateContentKeeps | src/exportFish.ts:117-122 | the fold keeps every text the content held |
| ExportFish.MentionsAllCons | src/exportFish.ts:118-119 | the content mentions every fish exactly when it mentions the first and all the rest |
| ExportFish.CreateContentMentionsAll | src/exportFish.ts:117-122 | after the fold, the content mentions every fish with a canonical name |
| ExportFish.CreateContentIdempotent | src/exportFish.ts:117-128 | running the fold again on its own result changes nothing, for canonical names |
| NewFish.WithFishSuffix | src/newFish.ts:32-34 | the name is kept exactly when its upper-cased form ends in `FISH`, otherwise it gets `Fish` appended; the upper-cased result ends in `FISH` |
| NewFish.ReplaceNonLetters | src/newFish.ts:35 | every character other than `A`-`Z` and `a`-`z` becomes `_`; the length is kept |
| NewFish.ProcessFishNameShape | src/newFish.ts:17-36 | nothing exactly when the input is missing or empty and the placeholder is `enter fish name`; otherwise a name of letters and `_` whose upper case ends in `FISH`, as long as the base or 4 longer, with the base's letters in place |
| NewFish.ReplaceKeepsFishEnding | src/newFish.ts:32-35 | replacing non-letters keeps an upper-case `FISH` ending |
| NewFish.UpperCommutesWithReplace | src/newFish.ts:32-35 | upper-casing and replacing non-letters commute |
| NewFish.ReplaceOfAppend | src/newFish.ts:35 | the replacement works piece by piece |
| NewFish.ReplaceKeepsIdentifier | src/newFish.ts:35 | a name of letters and `_` is left unchanged |
| NewFish.ProcessFishNameIdempotent | src/newFish.ts:24-36 | normalising a normalised name again gives it back, whatever the placeholder |
| NewFish.ProcessFishNameOfIdentifier | src/newFish.ts:24-36 | a non-empty name of letters and `_` is kept, with `Fish` added unless it already ends in some case of `FISH` |

## Left out

- VS Code and the editor are not part of this model: `src/extension.ts`,
  `src/commands.ts`, `src/events.ts`, `consumeSelectedBlock`,
  `extractEditorFileInfo`, `extractStringFileInfo`, `getFileName`, `eol`,
  `createNewFish` and `getNewFishPlaceHolder`. They edit documents and read
  editor state.
- File I/O and promises are left out: the directory read, the file reads and
  writes, and the text encoding in `createExportForAllFishes` and
  `exportToIndexTs`. Only the pure `createContent` fold and the file filter are
  modelled. The directory listing is a parameter.
- The warning popup in `parseFishDefinitionFile` is left out. The model only
  returns `None` there.
- `createFishBody` in `src/newFish.ts` is fixed boilerplate with two
  substitutions. It is left out.
- Case mapping is ASCII only. JavaScript `toUpperCase` and `toLowerCase` also map
  non-ASCII letters.
- `trim` uses the ECMAScript whitespace and line-terminator characters. There is
  no Unicode normalisation.
- Text is a sequence of characters. The `charCodeAt`/`fromCharCode` round trip in
  the tokenizer and the regex `[^a-zA-Z]` in `processFishName` work on UTF-16
  code units in the source; characters outside the basic plane are not modelled.
- The write to the last parameter's `dataType` in `buildDefinition` is modelled
  as a functional update of the last element. It changes a parameter object
  that only the current fold owns, so no aliasing is lost.
- `src/test/suite/common.test.ts` imports `convertToDefinitions` and
  `toDefPascalCase` from `common.ts`, which does not export them. Only its
  `removeFileExtension` and `toPascalCase` cases are used here.
- ExportFish.CreateContentMentionsAll: holds only for canonical fish names (those
  equal to their own PascalCase). The body mentions `PascalCase(stripped name) +
  "Fish"`, not the fish name itself. For a name like `myFish` that text need not
  appear in the content (unless the module path happens to contain it), so the
  fold may append its block again on every run.
- ExportFish.CreateContentIdempotent: holds only for canonical fish names, for the
  same reason.
- ExportFish.AddExportMentions: requires a canonical fish name, for the same
  reason.
- ExportFish.ParseDeclaredFish: covers a declaration whose name ends in `Fish`,
  does not start with whitespace and has no `=`. Every other first marked line is
  covered by ExportFish.ParseFirstMarkedLine, which states the name through the
  `substr`/`split`/`trim` chain.
