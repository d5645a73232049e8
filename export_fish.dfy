/** The pure parts of src/exportFish.ts: reading a fish's metadata from the
    text of its source file, choosing the fish files of a directory, rendering
    the export block of one fish, and adding the blocks of the fishes not yet
    mentioned to the text of an `index.ts`. */
module ExportFish {
  import opened Text
  import opened Optional
  import Common

  /** What the export needs to know about one fish file. */
  datatype FishFileMetaData = FishFileMetaData(
    fishName: string,
    fileName: string,
    hasCommand: bool,
    hasCommandType: bool,
    hasEvent: bool,
    hasEventType: bool,
    hasName: bool)

  /** The text that marks the line declaring the fish. */
  const FishMarker: string := "Fish = FishType.of<State,"
  const CommandMarker: string := "export type Command"
  const CommandTypeMarker: string := "export enum CommandType"
  const EventMarker: string := "export type Event"
  const EventTypeMarker: string := "export enum EventType"
  const NameMarker: string := "export const Name"
  /** The declaration keyword whose length is cut off the marked line. */
  const DeclarationKeyword: string := "export const "

  // ---------------------------------------------------------------------------
  // Reading a fish file

  /** `l.includes(FishMarker)`: the line declares the fish. */
  predicate HasFishMarker(line: string) {
    Contains(line, FishMarker)
  }

  /** `s.substr(start)` for a start that is not negative. */
  function Substr(s: string, start: nat): (r: string)
    ensures start <= |s| ==> s == s[..start] + r
    ensures |s| < start ==> r == []
  {
    if start <= |s| then s[start..] else []
  }

  /** The declared name on the marked line: what follows the declaration
      keyword up to the first `=`, trimmed. */
  function DeclaredName(line: string): string {
    Trim(Split(Substr(line, |DeclarationKeyword|), '=')[0])
  }

  /** `parseFishDefinitionFile(fileName, content)`, without the warning shown
      when no fish is declared. */
  function ParseFishDefinitionFile(fileName: string, content: string): Option<FishFileMetaData> {
    var fishDefs := Filter(Split(content, '\n'), HasFishMarker);
    if |fishDefs| == 0 then None
    else
      Some(FishFileMetaData(
        DeclaredName(fishDefs[0]),
        fileName,
        Contains(content, CommandMarker),
        Contains(content, CommandTypeMarker),
        Contains(content, EventMarker),
        Contains(content, EventTypeMarker),
        Contains(content, NameMarker)))
  }

  lemma MarkerSingleLine()
    ensures '\n' !in FishMarker
  {
  }

  /** Some line holds the marker exactly when the text does: the marker has
      no line break, so it cannot straddle two lines. */
  lemma MarkedLineExists(content: string)
    ensures Filter(Split(content, '\n'), HasFishMarker) != [] <==> Contains(content, FishMarker)
  {
    var lines := Split(content, '\n');
    FilterEmpty(lines, HasFishMarker);
    JoinSplit(content, '\n');
    MarkerSingleLine();
    ContainsInJoin(lines, '\n', FishMarker);
  }

  /** A file declares a fish exactly when its text holds the marker. */
  lemma ParseFindsFishExactlyWithMarker(fileName: string, content: string)
    ensures ParseFishDefinitionFile(fileName, content).Some? <==> Contains(content, FishMarker)
  {
    MarkedLineExists(content);
  }

  /** The text of the marker line declaring a fish called `name`. */
  function DeclarationLine(name: string, rest: string): string {
    DeclarationKeyword + (name + (" =" + (" FishType.of<State," + rest)))
  }

  lemma MarkerParts()
    ensures "Fish" + (" =" + " FishType.of<State,") == FishMarker
  {
  }

  /** The text before the first `=` of `name =…` is `name` and a space. */
  lemma NameBeforeEquals(name: string, tail: string)
    requires '=' !in name
    ensures Split(name + (" =" + tail), '=')[0] == name + " "
  {
    assert name + (" =" + tail) == (name + " ") + ['='] + tail;
    SplitAtSeparator(name + " ", tail, '=');
    SplitWithoutSeparator(name + " ", '=');
  }

  /** A text that neither starts nor ends with whitespace is its own trim. */
  lemma TrimmedText(s: string)
    requires s != [] && !IsWhitespace(s[0]) && !IsWhitespace(s[|s| - 1])
    ensures Trim(s) == s
  {
    assert TrimStart(s) == s;
  }

  /** The name declared by `export const <name> =…` is `<name>` when it holds
      no `=` and neither starts nor ends with whitespace. */
  lemma DeclaredNameOf(name: string, tail: string)
    requires '=' !in name && name != []
    requires !IsWhitespace(name[0]) && !IsWhitespace(name[|name| - 1])
    ensures DeclaredName(DeclarationKeyword + (name + (" =" + tail))) == name
  {
    var x := name + (" =" + tail);
    assert (DeclarationKeyword + x)[|DeclarationKeyword|..] == x;
    NameBeforeEquals(name, tail);
    TrimmedText(name);
    TrimAppendWhitespace(name, ' ');
  }

  /** The declaration of a fish whose name ends in `Fish` holds the marker. */
  lemma DeclarationLineHasMarker(stem: string, rest: string)
    ensures Contains(DeclarationLine(stem + "Fish", rest), FishMarker)
  {
    var call := " =" + " FishType.of<State,";
    MarkerParts();
    assert " =" + (" FishType.of<State," + rest) == call + rest;
    assert DeclarationLine(stem + "Fish", rest) == (DeclarationKeyword + stem) + ("Fish" + call) + rest;
    ContainsPiece(DeclarationKeyword + stem, FishMarker, rest);
  }

  /** The marked line `export const <stem>Fish = FishType.of<State,…`
      declares `<stem>Fish`. */
  lemma DeclarationLineNames(stem: string, rest: string)
    requires '=' !in stem && (stem == [] || !IsWhitespace(stem[0]))
    ensures DeclaredName(DeclarationLine(stem + "Fish", rest)) == stem + "Fish"
  {
    var name := stem + "Fish";
    assert '=' !in name && !IsWhitespace(name[0]) && name[|name| - 1] == 'h';
    DeclaredNameOf(name, " FishType.of<State," + rest);
  }

  /** The name is read from the first line that holds the marker; each flag
      looks at the whole content, wherever the marker line is. */
  lemma ParseFirstMarkedLine(fileName: string, content: string, k: int)
    requires 0 <= k < |Split(content, '\n')|
    requires Contains(Split(content, '\n')[k], FishMarker)
    requires forall i :: 0 <= i < k ==> !Contains(Split(content, '\n')[i], FishMarker)
    ensures var r := ParseFishDefinitionFile(fileName, content);
      && r.Some?
      && r.value.fishName == DeclaredName(Split(content, '\n')[k])
      && r.value.fileName == fileName
      && Flags(r.value) == [Contains(content, CommandMarker), Contains(content, CommandTypeMarker),
                            Contains(content, EventMarker), Contains(content, EventTypeMarker),
                            Contains(content, NameMarker)]
  {
    FilterFirst(Split(content, '\n'), HasFishMarker, k);
  }

  /** Reading a file whose first marked line declares the fish `<stem>Fish`
      (a name without `=` that does not start with whitespace): the metadata
      carries that name and the file name. */
  lemma ParseDeclaredFish(fileName: string, content: string, k: int, stem: string, rest: string)
    requires 0 <= k < |Split(content, '\n')|
    requires Split(content, '\n')[k] == DeclarationLine(stem + "Fish", rest)
    requires forall i :: 0 <= i < k ==> !Contains(Split(content, '\n')[i], FishMarker)
    requires '=' !in stem && (stem == [] || !IsWhitespace(stem[0]))
    ensures var r := ParseFishDefinitionFile(fileName, content);
      r.Some? && r.value.fishName == stem + "Fish" && r.value.fileName == fileName
  {
    DeclarationLineHasMarker(stem, rest);
    DeclarationLineNames(stem, rest);
    ParseFirstMarkedLine(fileName, content, k);
  }

  // ---------------------------------------------------------------------------
  // Choosing the fish files of a directory

  /** `vscode.FileType.File`: a regular file that is not a symbolic link. */
  const RegularFile: int := 1

  /** One `[name, type]` pair of a directory listing. */
  datatype DirectoryEntry = DirectoryEntry(name: string, fileType: int)

  /** The filter of `createExportForAllFishes`. */
  predicate IsFishFile(e: DirectoryEntry) {
    && e.fileType == RegularFile
    && EndsWith(e.name, ".ts")
    && Contains(Lower(e.name), "fish")
    && e.name != "index.ts"
  }

  /** The fish files of a listing, in listing order. */
  function FishFiles(entries: seq<DirectoryEntry>): seq<DirectoryEntry> {
    Filter(entries, IsFishFile)
  }

  /** The lower-cased name of `<stem>Fish.ts` holds `fish`. */
  lemma LowerFishFileName(stem: string)
    ensures Contains(Lower(stem + "Fish.ts"), "fish")
  {
    var n := stem + "Fish.ts";
    var l := Lower(n);
    var k := |stem|;
    assert n[k] == 'F' && n[k + 1] == 'i' && n[k + 2] == 's' && n[k + 3] == 'h';
    assert l[k..k + 4] == "fish";
    assert l == l[..k] + "fish" + l[k + 4..];
    ContainsPiece(l[..k], "fish", l[k + 4..]);
  }

  /** A TypeScript file whose name is `<stem>Fish.ts` is chosen exactly when
      it is a regular file: the name test ignores the rest of the name, and
      such a name is never `index.ts`. */
  lemma FishSourceFileChosen(stem: string, fileType: int)
    ensures IsFishFile(DirectoryEntry(stem + "Fish.ts", fileType)) <==> fileType == RegularFile
  {
    var n := stem + "Fish.ts";
    assert n[|n| - 3..] == ".ts";
    LowerFishFileName(stem);
    assert n[|stem|] == 'F';
    if |stem| == 1 {
      assert "index.ts"[1] == 'n';
    }
  }

  /** The index file is never chosen. */
  lemma IndexFileNotChosen(fileType: int)
    ensures !IsFishFile(DirectoryEntry("index.ts", fileType))
  {
  }

  // ---------------------------------------------------------------------------
  // The export block of one fish

  /** The module path of a fish file: its name before the first `.ts`. */
  function ModulePath(fileName: string): string {
    BeforeFirst(fileName, ".ts")
  }

  /** The fish name without one trailing `Fish`, in PascalCase. */
  function ExportName(fishName: string): string {
    Common.ToPascalCase(if EndsWith(fishName, "Fish") then fishName[..|fishName| - 4] else fishName)
  }

  /** The declarations a fish file may export besides the fish, in the order
      of the alias list. */
  const AliasKinds: seq<string> := ["Command", "CommandType", "Event", "EventType", "Name"]

  /** The flags of a fish, in the order of `AliasKinds`. */
  function Flags(d: FishFileMetaData): seq<bool> {
    [d.hasCommand, d.hasCommandType, d.hasEvent, d.hasEventType, d.hasName]
  }

  /** The alias `<kind> as <name><kind>,`. */
  function Alias(kind: string, name: string): string {
    kind + " as " + name + kind + ","
  }

  /** One entry of the alias list before filtering: two spaces, then the
      alias when its flag is set. */
  function Candidate(flag: bool, alias: string): string {
    "  " + (if flag then alias else [])
  }

  /** The entries of the alias list before filtering, one per kind. */
  function Candidates(flags: seq<bool>, kinds: seq<string>, name: string): seq<string>
    requires |flags| == |kinds|
  {
    if |flags| == 0 then []
    else [Candidate(flags[0], Alias(kinds[0], name))] + Candidates(flags[1..], kinds[1..], name)
  }

  /** `x.trim()` is truthy: the entry is not blank. */
  predicate NotBlank(x: string) {
    Trim(x) != []
  }

  /** `optionalContent`: the kept entries joined by line breaks. */
  function OptionalContent(d: FishFileMetaData, name: string): string {
    Join(Filter(Candidates(Flags(d), AliasKinds, name), NotBlank), "\n")
  }

  /** The line naming the fish, followed by the optional content on lines
      of its own when there is any. */
  function FishEntry(name: string, optional: string): string {
    "  " + name + "Fish" + "," + (if optional != [] then "\n" + optional else [])
  }

  /** The last three lines of the template and the final line break. */
  function TailText(name: string, path: string): string {
    "  State as " + name + "State," + "\n" + (
    "  PublicState as Public" + name + "State," + "\n" + (
    "} from './" + path + "'" + "\n"))
  }

  /** The template literal of `createFishExportBody`, for a name, an optional
      content and a module path. */
  function Template(name: string, optional: string, path: string): string {
    "export {" + "\n" + (FishEntry(name, optional) + "\n" + TailText(name, path))
  }

  /** `createFishExportBody(fishDef)`. */
  function CreateFishExportBody(d: FishFileMetaData): string {
    var name := ExportName(d.fishName);
    Template(name, OptionalContent(d, name), ModulePath(d.fileName))
  }

  /** The alias lines of the set flags, in the order of the kinds. */
  function AliasLines(flags: seq<bool>, kinds: seq<string>, name: string): seq<string>
    requires |flags| == |kinds|
  {
    if |flags| == 0 then []
    else (if flags[0] then ["  " + Alias(kinds[0], name)] else []) + AliasLines(flags[1..], kinds[1..], name)
  }

  /** The lines of the export block of a fish. */
  function ExportLines(d: FishFileMetaData): seq<string> {
    var name := ExportName(d.fishName);
    ["export {", "  " + name + "Fish" + ","]
    + AliasLines(Flags(d), AliasKinds, name)
    + ["  State as " + name + "State,",
       "  PublicState as Public" + name + "State,",
       "} from './" + ModulePath(d.fileName) + "'",
       ""]
  }

  /** A candidate survives the filter exactly when its flag is set. */
  lemma KeepCandidate(flag: bool, alias: string)
    requires |alias| > 0 && !IsWhitespace(alias[0])
    ensures Filter([Candidate(flag, alias)], NotBlank) == if flag then ["  " + alias] else []
  {
    var c := Candidate(flag, alias);
    if flag {
      TrimStartsAtFirstNonWhitespace(c, 2);
    } else {
      assert c == "  ";
      assert TrimStart(c) == TrimStart(c[1..]) == TrimStart(c[2..]);
    }
    var single: seq<string> := [c];
    assert single[1..] == [];
  }

  /** Every kind is a word that does not start with whitespace. */
  predicate KindsStartVisible(kinds: seq<string>) {
    forall i :: 0 <= i < |kinds| ==> kinds[i] != [] && !IsWhitespace(kinds[i][0])
  }

  /** The filter keeps exactly the alias lines of the set flags, in order. */
  lemma {:induction false} KeepCandidates(flags: seq<bool>, kinds: seq<string>, name: string)
    requires |flags| == |kinds| && KindsStartVisible(kinds)
    ensures Filter(Candidates(flags, kinds, name), NotBlank) == AliasLines(flags, kinds, name)
  {
    if |flags| > 0 {
      var c := Candidate(flags[0], Alias(kinds[0], name));
      var rest := Candidates(flags[1..], kinds[1..], name);
      FilterAppend([c], rest, NotBlank);
      assert Alias(kinds[0], name)[0] == kinds[0][0];
      KeepCandidate(flags[0], Alias(kinds[0], name));
      assert KindsStartVisible(kinds[1..]) by {
        forall i | 0 <= i < |kinds| - 1 ensures kinds[1..][i] != [] && !IsWhitespace(kinds[1..][i][0]) {
          assert kinds[1..][i] == kinds[i + 1];
        }
      }
      KeepCandidates(flags[1..], kinds[1..], name);
    }
  }

  lemma AliasKindsStartVisible()
    ensures KindsStartVisible(AliasKinds)
  {
    assert AliasKinds[0][0] == 'C' && AliasKinds[1][0] == 'C' && AliasKinds[2][0] == 'E';
    assert AliasKinds[3][0] == 'E' && AliasKinds[4][0] == 'N';
  }

  lemma AliasKindsSingleLine()
    ensures forall i :: 0 <= i < |AliasKinds| ==> '\n' !in AliasKinds[i]
  {
    assert '\n' !in AliasKinds[0] && '\n' !in AliasKinds[1] && '\n' !in AliasKinds[2];
    assert '\n' !in AliasKinds[3] && '\n' !in AliasKinds[4];
  }

  /** The filter keeps the alias lines of the set flags of a fish. */
  lemma AliasesKept(d: FishFileMetaData, name: string)
    ensures Filter(Candidates(Flags(d), AliasKinds, name), NotBlank) == AliasLines(Flags(d), AliasKinds, name)
  {
    AliasKindsStartVisible();
    KeepCandidates(Flags(d), AliasKinds, name);
  }

  /** Alias lines of single-line kinds and names are single lines. */
  lemma {:induction false} AliasLinesSingleLine(flags: seq<bool>, kinds: seq<string>, name: string)
    requires |flags| == |kinds| && '\n' !in name
    requires forall i :: 0 <= i < |kinds| ==> '\n' !in kinds[i]
    ensures forall i :: 0 <= i < |AliasLines(flags, kinds, name)| ==> '\n' !in AliasLines(flags, kinds, name)[i]
  {
    if |flags| > 0 {
      assert '\n' !in "  " && '\n' !in " as " && '\n' !in ",";
      assert '\n' !in "  " + Alias(kinds[0], name);
      assert forall i :: 0 <= i < |kinds| - 1 ==> kinds[1..][i] == kinds[i + 1];
      AliasLinesSingleLine(flags[1..], kinds[1..], name);
    }
  }

  /** Every alias line starts with two spaces. */
  lemma {:induction false} AliasLinesNotEmpty(flags: seq<bool>, kinds: seq<string>, name: string)
    requires |flags| == |kinds|
    ensures forall i :: 0 <= i < |AliasLines(flags, kinds, name)| ==> AliasLines(flags, kinds, name)[i] != []
  {
    if |flags| > 0 {
      AliasLinesNotEmpty(flags[1..], kinds[1..], name);
    }
  }

  /** Joining texts that are not empty gives the empty text only when there
      is nothing to join. */
  lemma JoinEmpty(pieces: seq<string>, sep: string)
    requires forall i :: 0 <= i < |pieces| ==> pieces[i] != []
    ensures Join(pieces, sep) == [] <==> pieces == []
  {
    if |pieces| > 1 {
      assert |Join(pieces, sep)| >= |pieces[0]|;
    }
  }

  lemma ModulePathSingleLine(fileName: string)
    requires '\n' !in fileName
    ensures '\n' !in ModulePath(fileName)
  {
    var p := ModulePath(fileName);
    BeforeFirstSpec(fileName, ".ts");
    assert p == fileName[..|p|];
  }

  lemma ExportNameSingleLine(fishName: string)
    requires '\n' !in fishName
    ensures '\n' !in ExportName(fishName)
  {
    var stem := if EndsWith(fishName, "Fish") then fishName[..|fishName| - 4] else fishName;
    assert forall c :: c in stem ==> c in fishName;
    Common.PascalCaseSingleLine(stem);
  }

  /** The block lines after the alias lines. */
  lemma TailLines(name: string, path: string)
    requires '\n' !in name && '\n' !in path
    ensures Common.Lines(TailText(name, path)) ==
      ["  State as " + name + "State,", "  PublicState as Public" + name + "State,",
       "} from './" + path + "'", ""]
  {
    var l3, l4, l5 := "  State as " + name + "State,", "  PublicState as Public" + name + "State,",
      "} from './" + path + "'";
    assert '\n' !in "  State as " && '\n' !in "State,";
    assert '\n' !in "  PublicState as Public" && '\n' !in "} from './" && '\n' !in "'";
    assert l5 + "\n" == l5 + "\n" + [];
    Common.LinesCons(l5, []);
    Common.LinesCons(l4, l5 + "\n");
    Common.LinesCons(l3, l4 + "\n" + (l5 + "\n"));
  }

  /** The fish line and the alias lines. */
  lemma HeadLines(first: string, optional: string, aliases: seq<string>, tail: string)
    requires '\n' !in first
    requires optional == [] <==> aliases == []
    requires aliases != [] ==> Common.Lines(optional) == aliases
    ensures Common.Lines(first + (if optional != [] then "\n" + optional else []) + "\n" + tail)
      == [first] + aliases + Common.Lines(tail)
  {
    if optional == [] {
      assert first + [] == first;
      Common.LinesCons(first, tail);
    } else {
      assert first + ("\n" + optional) + "\n" + tail == first + "\n" + (optional + ['\n'] + tail);
      Common.LinesCons(first, optional + ['\n'] + tail);
      SplitAtSeparator(optional, tail, '\n');
    }
  }

  /** The template, line by line, when the optional content is the alias
      lines joined by line breaks. */
  lemma TemplateLines(name: string, optional: string, aliases: seq<string>, path: string)
    requires '\n' !in name && '\n' !in path
    requires optional == [] <==> aliases == []
    requires aliases != [] ==> Common.Lines(optional) == aliases
    ensures Common.Lines(Template(name, optional, path)) ==
      ["export {", "  " + name + "Fish" + ","] + aliases
      + ["  State as " + name + "State,", "  PublicState as Public" + name + "State,",
         "} from './" + path + "'", ""]
  {
    TailLines(name, path);
    var first := "  " + name + "Fish" + ",";
    assert '\n' !in "  " && '\n' !in "Fish" && '\n' !in ",";
    HeadLines(first, optional, aliases, TailText(name, path));
    assert '\n' !in "export {";
    Common.LinesCons("export {", FishEntry(name, optional) + "\n" + TailText(name, path));
  }

  /** The optional content of a fish, line by line, is its alias lines. */
  lemma OptionalContentLines(d: FishFileMetaData, name: string)
    requires '\n' !in name
    ensures var aliases := AliasLines(Flags(d), AliasKinds, name);
      && (OptionalContent(d, name) == [] <==> aliases == [])
      && (aliases != [] ==> Common.Lines(OptionalContent(d, name)) == aliases)
  {
    var aliases := AliasLines(Flags(d), AliasKinds, name);
    AliasesKept(d, name);
    AliasLinesNotEmpty(Flags(d), AliasKinds, name);
    JoinEmpty(aliases, "\n");
    AliasKindsSingleLine();
    AliasLinesSingleLine(Flags(d), AliasKinds, name);
    if aliases != [] {
      Common.LinesOfJoin(aliases);
    }
  }

  /** The export block of a fish, line by line: the opening line, the fish
      itself, one alias line per set flag in the fixed order, the state and
      public state aliases, the module path before the first `.ts`, and a
      final line break. */
  lemma ExportBodyLines(d: FishFileMetaData)
    requires '\n' !in d.fishName && '\n' !in d.fileName
    ensures Common.Lines(CreateFishExportBody(d)) == ExportLines(d)
  {
    var name := ExportName(d.fishName);
    ExportNameSingleLine(d.fishName);
    ModulePathSingleLine(d.fileName);
    OptionalContentLines(d, name);
    TemplateLines(name, OptionalContent(d, name), AliasLines(Flags(d), AliasKinds, name), ModulePath(d.fileName));
  }

  /** Dropping a trailing `Fish` before PascalCasing and putting it back
      gives the PascalCase form of the fish name, followed by one more `Fish`
      when the name did not end in `Fish`. */
  lemma ExportNameRestoresFish(fishName: string)
    ensures ExportName(fishName) + "Fish" ==
      Common.ToPascalCase(fishName) + (if EndsWith(fishName, "Fish") then [] else "Fish")
  {
    if EndsWith(fishName, "Fish") {
      var stem := fishName[..|fishName| - 4];
      assert fishName == stem + "Fish";
      if |stem| == 0 {
        assert fishName[0] == 'F';
      } else {
        assert fishName[0] == stem[0];
        assert fishName[1..] == stem[1..] + "Fish";
      }
    }
  }

  /** The template mentions every prefix of `<name>Fish`. */
  lemma TemplateNamesFish(name: string, optional: string, path: string, prefix: string, extra: string)
    requires name + "Fish" == prefix + extra
    ensures Contains(Template(name, optional, path), prefix)
  {
    var entry := FishEntry(name, optional);
    var after := "," + (if optional != [] then "\n" + optional else []);
    assert entry == "  " + (name + "Fish") + after;
    assert entry == "  " + prefix + (extra + after);
    ContainsPiece("  ", prefix, extra + after);
    ContainsExtend(entry, "\n" + TailText(name, path), prefix);
    assert entry + ("\n" + TailText(name, path)) == entry + "\n" + TailText(name, path);
    ContainsPrepend("export {" + "\n", entry + "\n" + TailText(name, path), prefix);
  }

  /** The block of a fish mentions the PascalCase form of its name. */
  lemma ExportBodyNamesFish(d: FishFileMetaData)
    ensures Contains(CreateFishExportBody(d), Common.ToPascalCase(d.fishName))
  {
    var name := ExportName(d.fishName);
    ExportNameRestoresFish(d.fishName);
    TemplateNamesFish(name, OptionalContent(d, name), ModulePath(d.fileName),
      Common.ToPascalCase(d.fishName), if EndsWith(d.fishName, "Fish") then [] else "Fish");
  }

  // ---------------------------------------------------------------------------
  // Adding the export blocks to the index file

  /** One step of the `createContent` reduction. */
  function AddExport(content: string, d: FishFileMetaData): string {
    if Contains(content, d.fishName) then content else content + "\n" + CreateFishExportBody(d)
  }

  /** `createContent(content)`: the fishes are visited left to right, and a
      fish's block is appended only when its name does not yet occur in the
      text built so far. */
  function CreateContent(content: string, fishDefs: seq<FishFileMetaData>): string
    decreases |fishDefs|
  {
    if |fishDefs| == 0 then content
    else CreateContent(AddExport(content, fishDefs[0]), fishDefs[1..])
  }

  /** The existing text is kept as the start of the new one. */
  lemma {:induction false} CreateContentExtends(content: string, fishDefs: seq<FishFileMetaData>)
    ensures StartsWith(CreateContent(content, fishDefs), content)
    decreases |fishDefs|
  {
    if |fishDefs| > 0 {
      var next := AddExport(content, fishDefs[0]);
      CreateContentExtends(next, fishDefs[1..]);
      assert next[..|content|] == content;
      var r := CreateContent(content, fishDefs);
      assert r[..|next|][..|content|] == r[..|content|];
    }
  }

  /** The text is left unchanged exactly when every fish name already occurs
      in it; then the text `exportToIndexTs` writes back is the text it read. */
  lemma {:induction false} CreateContentUnchanged(content: string, fishDefs: seq<FishFileMetaData>)
    ensures CreateContent(content, fishDefs) == content <==> MentionsAll(content, fishDefs)
    decreases |fishDefs|
  {
    if |fishDefs| > 0 {
      var d := fishDefs[0];
      var next := AddExport(content, d);
      CreateContentUnchanged(next, fishDefs[1..]);
      MentionsAllCons(content, fishDefs);
      if !Contains(content, d.fishName) {
        CreateContentExtends(next, fishDefs[1..]);
        assert |CreateContent(content, fishDefs)| > |content|;
      }
    }
  }

  /** A name that is its own PascalCase form, as the names of generated fishes
      are. */
  predicate IsCanonicalFishName(name: string) {
    Common.ToPascalCase(name) == name
  }

  /** A step never loses what the text already mentions. */
  lemma AddExportKeeps(content: string, d: FishFileMetaData, sub: string)
    requires Contains(content, sub)
    ensures Contains(AddExport(content, d), sub)
  {
    if !Contains(content, d.fishName) {
      ContainsExtend(content, "\n" + CreateFishExportBody(d), sub);
      assert content + ("\n" + CreateFishExportBody(d)) == AddExport(content, d);
    }
  }

  /** After a step the text mentions the fish, when its name is canonical. */
  lemma AddExportMentions(content: string, d: FishFileMetaData)
    requires IsCanonicalFishName(d.fishName)
    ensures Contains(AddExport(content, d), d.fishName)
  {
    if !Contains(content, d.fishName) {
      ExportBodyNamesFish(d);
      ContainsPrepend(content + "\n", CreateFishExportBody(d), d.fishName);
    }
  }

  /** The whole reduction never loses what the text already mentions. */
  lemma {:induction false} CreateContentKeeps(content: string, fishDefs: seq<FishFileMetaData>, sub: string)
    requires Contains(content, sub)
    ensures Contains(CreateContent(content, fishDefs), sub)
    decreases |fishDefs|
  {
    if |fishDefs| > 0 {
      AddExportKeeps(content, fishDefs[0], sub);
      CreateContentKeeps(AddExport(content, fishDefs[0]), fishDefs[1..], sub);
    }
  }

  /** Every fish of the list is mentioned in the text. */
  predicate MentionsAll(text: string, fishDefs: seq<FishFileMetaData>) {
    forall i :: 0 <= i < |fishDefs| ==> Contains(text, fishDefs[i].fishName)
  }

  lemma MentionsAllCons(text: string, fishDefs: seq<FishFileMetaData>)
    requires |fishDefs| > 0
    ensures MentionsAll(text, fishDefs) <==>
      Contains(text, fishDefs[0].fishName) && MentionsAll(text, fishDefs[1..])
  {
    assert forall i :: 1 <= i < |fishDefs| ==> fishDefs[i] == fishDefs[1..][i - 1];
  }

  /** Afterwards every fish with a canonical name is mentioned in the text. */
  lemma {:induction false} CreateContentMentionsAll(content: string, fishDefs: seq<FishFileMetaData>)
    requires forall i :: 0 <= i < |fishDefs| ==> IsCanonicalFishName(fishDefs[i].fishName)
    ensures MentionsAll(CreateContent(content, fishDefs), fishDefs)
    decreases |fishDefs|
  {
    if |fishDefs| > 0 {
      var d := fishDefs[0];
      var next := AddExport(content, d);
      AddExportMentions(content, d);
      CreateContentKeeps(next, fishDefs[1..], d.fishName);
      CreateContentMentionsAll(next, fishDefs[1..]);
      MentionsAllCons(CreateContent(next, fishDefs[1..]), fishDefs);
    }
  }

  /** Exporting the same fishes twice adds nothing the second time. */
  lemma CreateContentIdempotent(content: string, fishDefs: seq<FishFileMetaData>)
    requires forall i :: 0 <= i < |fishDefs| ==> IsCanonicalFishName(fishDefs[i].fishName)
    ensures CreateContent(CreateContent(content, fishDefs), fishDefs) == CreateContent(content, fishDefs)
  {
    CreateContentMentionsAll(content, fishDefs);
    CreateContentUnchanged(CreateContent(content, fishDefs), fishDefs);
  }
}
