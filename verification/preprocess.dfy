/** The per-line preprocessing hook of the build configuration: a line that
    looks like an import statement is rewritten by every remapping rule in
    turn, each rule replacing the first occurrence of its `find` text with its
    `replace` text; any other line passes through unchanged. */
module Preprocess {
  import opened Wrappers
  import opened JsStrings
  import Remappings

  // ---------------------------------------------------------------------------
  // The import-line test: the regular expression /^\s*import /i

  const Keyword: string := "import "

  /** ASCII lower-casing. Under the `i` flag without `u`, the characters of
      `import` match only their ASCII upper- and lower-case forms. */
  function AsciiLower(c: char): char
  {
    if 'A' <= c <= 'Z' then (c as int + 32) as char else c
  }

  /** The keyword, in any letter case, followed by one space, begins at `at`. */
  predicate KeywordAt(line: string, at: nat)
  {
    at + |Keyword| <= |line| &&
    forall t :: 0 <= t < |Keyword| ==> AsciiLower(line[at + t]) == Keyword[t]
  }

  /** What the regular expression accepts: from the start of the line, any run
      of whitespace and then the keyword. */
  ghost predicate MatchesImportPattern(line: string)
  {
    exists k: nat :: k <= |line| && AllWhitespace(line[..k]) && KeywordAt(line, k)
  }

  /** The test the hook applies: skip the leading whitespace and look for the
      keyword there. */
  predicate IsImportLine(line: string)
  {
    KeywordAt(TrimStart(line), 0)
  }

  /** The test agrees with the regular expression, in both directions. */
  lemma ImportLineMatchesPattern(line: string)
    ensures IsImportLine(line) <==> MatchesImportPattern(line)
  {
    if IsImportLine(line) {
      ImportLineIsMatch(line);
    }
    if MatchesImportPattern(line) {
      var m: nat :| m <= |line| && AllWhitespace(line[..m]) && KeywordAt(line, m);
      MatchIsImportLine(line, m);
    }
  }

  lemma ImportLineIsMatch(line: string)
    requires IsImportLine(line)
    ensures MatchesImportPattern(line)
  {
    var t := TrimStart(line);
    var k := |line| - |t|;
    assert forall u :: 0 <= u < |Keyword| ==> line[k + u] == t[u];
    assert KeywordAt(line, k);
  }

  lemma MatchIsImportLine(line: string, m: nat)
    requires m <= |line| && AllWhitespace(line[..m]) && KeywordAt(line, m)
    ensures IsImportLine(line)
  {
    KeywordStart(line, m);
    assert line[..m] + line[m..] == line;
    TrimStartOfWhitespacePrefix(line[..m], line[m..]);
    assert TrimStart(line) == line[m..];
    assert forall u :: 0 <= u < |Keyword| ==> line[m..][u] == line[m + u];
  }

  /** The keyword starts with a letter, which is not whitespace. */
  lemma KeywordStart(line: string, at: nat)
    requires KeywordAt(line, at)
    ensures !IsWhitespace(line[at])
  {
    assert AsciiLower(line[at + 0]) == Keyword[0] == 'i';
  }

  // ---------------------------------------------------------------------------
  // Rules

  /** A remapping rule as the hook destructures an entry `[find, replace]`:
      `replace` is absent when the entry has a single field. */
  datatype Rule = Rule(find: string, replace: Option<string>)

  /** The first two fields of an entry; any further field is ignored. */
  function RuleOf(entry: seq<string>): Rule
    requires |entry| >= 1
  {
    Rule(entry[0], if |entry| >= 2 then Some(entry[1]) else None)
  }

  /** The text that `String.prototype.replace` inserts: an absent replacement
      is the value `undefined`, which it converts to the text "undefined". */
  function ReplacementText(rule: Rule): string
  {
    match rule.replace
    case Some(text) => text
    case None => "undefined"
  }

  /** One step of the hook's loop: if `find` occurs in the line, its first
      occurrence is replaced. */
  function ApplyRule(line: string, rule: Rule): string
  {
    if Contains(line, rule.find) then ReplaceFirst(line, rule.find, ReplacementText(rule))
    else line
  }

  /** Entries the hook can destructure: each has at least one field. */
  predicate WellFormed(entries: seq<seq<string>>)
  {
    forall i :: 0 <= i < |entries| ==> |entries[i]| >= 1
  }

  /** The line after the rules of `entries` have been applied one after the
      other, the first entry first. */
  function ApplyRules(line: string, entries: seq<seq<string>>): string
    requires WellFormed(entries)
    decreases |entries|
  {
    if entries == [] then line
    else ApplyRule(ApplyRules(line, entries[..|entries| - 1]), RuleOf(entries[|entries| - 1]))
  }

  /** The `transform` callback, given the parsed remappings. A line that is
      not an import line comes back unchanged whatever the rules; an import
      line comes back with every rule applied in order. */
  method Transform(line: string, remappings: seq<seq<string>>) returns (result: string)
    requires WellFormed(remappings)
    ensures !MatchesImportPattern(line) ==> result == line
    ensures MatchesImportPattern(line) ==> result == ApplyRules(line, remappings)
  {
    ImportLineMatchesPattern(line);
    result := line;
    if IsImportLine(result) {
      var i := 0;
      while i < |remappings|
        invariant 0 <= i <= |remappings|
        invariant result == ApplyRules(line, remappings[..i])
      {
        var rule := RuleOf(remappings[i]);
        if Contains(result, rule.find) {
          result := ReplaceFirst(result, rule.find, ReplacementText(rule));
        }
        assert remappings[..i + 1][..i] == remappings[..i];
        i := i + 1;
      }
      assert remappings[..i] == remappings;
    }
  }

  // ---------------------------------------------------------------------------
  // Properties of the rule sequence

  /** Applying the rules of `first + second` is applying those of `first` and
      then those of `second` to the result. */
  lemma {:induction false} ApplyRulesAppend(line: string, first: seq<seq<string>>, second: seq<seq<string>>)
    requires WellFormed(first) && WellFormed(second)
    ensures WellFormed(first + second)
    ensures ApplyRules(line, first + second) == ApplyRules(ApplyRules(line, first), second)
    decreases |second|
  {
    var all := first + second;
    assert WellFormed(all) by {
      forall i | 0 <= i < |all| ensures |all[i]| >= 1 {
        if i >= |first| { assert all[i] == second[i - |first|]; }
      }
    }
    if second == [] {
      assert all == first;
    } else {
      var n := |second| - 1;
      ApplyRulesAppend(line, first, second[..n]);
      assert all[..|all| - 1] == first + second[..n];
      assert all[|all| - 1] == second[n];
    }
  }

  /** The rules apply left to right: the first rule rewrites the line and the
      remaining rules see its output. */
  lemma LeftToRight(line: string, entry: seq<string>, rest: seq<seq<string>>)
    requires |entry| >= 1 && WellFormed(rest)
    ensures WellFormed([entry] + rest)
    ensures ApplyRules(line, [entry] + rest) == ApplyRules(ApplyRule(line, RuleOf(entry)), rest)
  {
    ApplyRulesAppend(line, [entry], rest);
    assert [entry][..0] == [];
  }

  /** One rule step in closed form: a rule whose `find` text occurs nowhere
      leaves the line unchanged; otherwise, with `at` the first position where
      it occurs, the text before `at` is kept, `find` is replaced by the
      replacement text, and the text after it is kept. */
  lemma ApplyRuleEffect(line: string, rule: Rule)
    ensures (forall q: nat :: !OccursAt(line, rule.find, q)) ==> ApplyRule(line, rule) == line
    ensures forall at: nat ::
      OccursAt(line, rule.find, at) && (forall q: nat :: q < at ==> !OccursAt(line, rule.find, q)) ==>
        ApplyRule(line, rule) == line[..at] + ReplacementText(rule) + line[at + |rule.find|..]
  {
  }

  /** Only the first two fields of an entry matter: for `a=b=c` the rule
      replaces `a` with `b` and `c` is ignored. */
  lemma OnlyFirstTwoFields(entry: seq<string>)
    requires |entry| >= 2
    ensures RuleOf(entry) == RuleOf(entry[..2])
    ensures RuleOf(entry).find == entry[0] && ReplacementText(RuleOf(entry)) == entry[1]
  {
  }

  /** A single-field entry (a line without `=`) replaces its text with the
      word "undefined". */
  lemma SingleFieldEntry(entry: seq<string>)
    requires |entry| == 1
    ensures ReplacementText(RuleOf(entry)) == "undefined"
  {
  }

  /** With an empty remappings file every line is returned unchanged. */
  lemma EmptyFileKeepsLines(line: string)
    ensures WellFormed(Remappings.GetRemappings(""))
    ensures ApplyRules(line, Remappings.GetRemappings("")) == line
  {
    Remappings.EmptyContent();
  }

  /** An empty `find` occurs at the start of every line, and an entry with
      one field inserts "undefined": the entry `[""]` puts "undefined" in
      front of every import line. */
  lemma EmptyFindPrefixesUndefined(line: string)
    ensures WellFormed([[""]])
    ensures ApplyRules(line, [[""]]) == "undefined" + line
  {
    assert OccursAt(line, "", 0);
    assert IndexOf(line, "") == Some(0);
    assert [[""]][..0] == [];
  }

  /** An entry `[""]` at position `i` puts "undefined" in front of the line
      as the entries before it left it. */
  lemma BlankEntryPrefixesUndefined(line: string, entries: seq<seq<string>>, i: nat)
    requires WellFormed(entries) && i < |entries| && entries[i] == [""]
    ensures ApplyRules(line, entries[..i + 1]) == "undefined" + ApplyRules(line, entries[..i])
  {
    assert entries[..i + 1][..i] == entries[..i];
    var prev := ApplyRules(line, entries[..i]);
    assert OccursAt(prev, "", 0);
    assert IndexOf(prev, "") == Some(0);
  }

  /** A whitespace-only line among real rules (the blank line of a file with
      CRLF line ends, say) yields an entry that puts "undefined" in front of
      the import line as the rules above it left it. */
  lemma BlankLineAmongRules(content: string, line: string, i: nat)
    requires i < |Remappings.GetRemappings(content)|
    requires var segments := Split(content, '\n');
      AllWhitespace(segments[Remappings.SegmentIndex(segments, i)])
    ensures var entries := Remappings.GetRemappings(content);
      WellFormed(entries) &&
      ApplyRules(line, entries[..i + 1]) == "undefined" + ApplyRules(line, entries[..i])
  {
    Remappings.BlankSegmentEntry(content, i);
    BlankEntryPrefixesUndefined(line, Remappings.GetRemappings(content), i);
  }

  /** A remappings file that is one whitespace-only line, such as "\r", with
      or without a line feed after it, is not dropped as empty: it yields the
      entry `[""]`, and every import line then gets "undefined" in front of
      it. */
  lemma BlankRemappingLine(content: string, line: string)
    requires content != [] && AllWhitespace(content) && '\n' !in content
    ensures Remappings.GetRemappings(content) == [[""]]
    ensures Remappings.GetRemappings(content + "\n") == [[""]]
    ensures ApplyRules(line, Remappings.GetRemappings(content)) == "undefined" + line
    ensures ApplyRules(line, Remappings.GetRemappings(content + "\n")) == "undefined" + line
  {
    SplitNoSeparator(content, '\n');
    SplitAtSeparator(content, '\n', "");
    assert content + ['\n'] + "" == content + "\n";
    assert Split("", '\n') == [""];
    assert Remappings.NonEmpty([content, ""]) == [content] + Remappings.NonEmpty([""]);
    assert Remappings.NonEmpty([""]) == Remappings.NonEmpty([]);
    Remappings.WhitespaceOnlySegment(content);
    EmptyFindPrefixesUndefined(line);
  }

  const ExampleFind: string := "@openzeppelin/"
  const ExampleReplace: string := "lib/openzeppelin-contracts/"
  const ExampleBefore: string := "import \""
  const ExampleAfter: string := "token/ERC20.sol\";"
  const ExampleLine: string := ExampleBefore + ExampleFind + ExampleAfter

  lemma ExampleIsImportLine()
    ensures MatchesImportPattern(ExampleLine)
  {
    assert AllWhitespace(ExampleLine[..0]);
    assert forall t :: 0 <= t < |Keyword| ==> ExampleLine[t] == ExampleBefore[t];
    assert KeywordAt(ExampleLine, 0);
  }

  lemma ExampleFirstOccurrence()
    ensures IndexOf(ExampleLine, ExampleFind) == Some(|ExampleBefore|)
  {
    var at := |ExampleBefore|;
    assert ExampleLine[at..at + |ExampleFind|] == ExampleFind;
    assert OccursAt(ExampleLine, ExampleFind, at);
    forall q: nat | q < at ensures !OccursAt(ExampleLine, ExampleFind, q) {
      assert ExampleLine[q] == ExampleBefore[q] != ExampleFind[0];
    }
  }

  /** The example line spelled out. */
  lemma ExampleLineText()
    ensures ExampleLine == "import \"@openzeppelin/token/ERC20.sol\";"
  {
  }

  /** The rewritten example line spelled out. */
  lemma ExampleResultText()
    ensures ExampleBefore + ExampleReplace + ExampleAfter ==
      "import \"lib/openzeppelin-contracts/token/ERC20.sol\";"
  {
    assert ExampleBefore + ExampleReplace == "import \"lib/openzeppelin-contracts/";
    assert "import \"lib/openzeppelin-contracts/" + ExampleAfter ==
      "import \"lib/openzeppelin-contracts/token/ERC20.sol\";";
  }

  /** The OpenZeppelin remapping rewrites an import of one of its contracts:
      `import "@openzeppelin/token/ERC20.sol";` becomes
      `import "lib/openzeppelin-contracts/token/ERC20.sol";`. */
  lemma OpenZeppelinExample()
    ensures MatchesImportPattern(ExampleLine)
    ensures ApplyRules(ExampleLine, [[ExampleFind, ExampleReplace]]) ==
      ExampleBefore + ExampleReplace + ExampleAfter
    ensures ApplyRules(ExampleLine, [[ExampleFind, ExampleReplace]]) ==
      "import \"lib/openzeppelin-contracts/token/ERC20.sol\";"
  {
    ExampleResultText();
    ExampleIsImportLine();
    ExampleFirstOccurrence();
    var rules := [[ExampleFind, ExampleReplace]];
    var at := |ExampleBefore|;
    assert rules[..0] == [];
    assert ApplyRules(ExampleLine, rules) == ApplyRule(ExampleLine, Rule(ExampleFind, Some(ExampleReplace)));
    assert ExampleLine[..at] == ExampleBefore;
    assert ExampleLine[at + |ExampleFind|..] == ExampleAfter;
  }

}
