# Import remapping for the Hardhat build

This project models the import remapping of a Solidity project built with
Hardhat. There are two pieces:

- **The remapping loader** (`getRemappings`). It reads `remappings.txt` and
  splits it at every line feed. It drops the empty segments, trims each
  remaining segment, and cuts it at every `=`. The result is an ordered list
  of entries, each a list of fields.
- **The preprocessing hook** (`transform`). It runs on each source line. A
  line that matches `/^\s*import /i` goes through the entries in file order.
  Each entry is destructured as `[find, replace]`. When `find` occurs in the
  line, its first occurrence is replaced by `replace`. Each entry sees the
  line as the entries before it left it. Any other line is returned
  unchanged.

The model has four modules:

- `Wrappers` (`wrappers.dfy`): the `Option` datatype.
- `JsStrings` (`js_strings.dfy`): the JavaScript string built-ins the code
  calls, written out as functions with their properties proved. The code
  calls `split` with a one-character separator, `trim`, `match` and `replace`
  with a string pattern. It calls `match` twice: once with the import
  regular expression, modelled in `Preprocess`, and once with `find`, modelled
  as the literal search `Contains`. `indexOf` is the search that `replace`
  performs. `join` is
  never called; it is the inverse of `split` and appears only in the
  round-trip lemmas. The whitespace that `trim` strips is the
  ECMAScript WhiteSpace and LineTerminator set. The regular-expression class
  `\s` uses the same set.
- `Remappings` (`remappings.dfy`): the loader, as a pure function from the
  file content to the list of entries.
- `Preprocess` (`preprocess.dfy`): the import-line test, the rule steps, the
  left-to-right fold over the entries, and the hook itself. The hook is a
  method with a loop over the entries, proved against the fold.

Four behaviours of the code are easy to misread, and the model keeps them
as the code has them:

- The code splits a remapping line at every `=`, not only at the first one.
  Only the first two fields reach the hook; any further field is ignored.
- The import test needs a literal space right after `import`, in any letter
  case. A line such as `import{X} from "y";` or `import\t"a.sol";` is not an
  import line.
- An entry with a single field (a remapping line without `=`) leaves
  `replace` undefined. JavaScript then inserts the text `undefined`. The model
  makes this explicit: the field is an `Option`, and `ReplacementText` turns
  an absent one into `"undefined"`.
- The filter drops only empty segments, not blank lines. A line made only
  of whitespace, such as the `"\r"` left by a blank line of a file with CRLF
  line ends, stays and becomes the entry `[""]`. Its empty `find` occurs at
  the start of every line, and its missing `replace` becomes `"undefined"`.
  So, at that entry's place in the rule order, every import line gets
  `undefined` in front of it. This holds for a blank line among real rules
  as well as for a file that is one blank line.

## Model

| member | source | states |
|---|---|---|
| `JsStrings.Split` | helpers/hardhat-remappings.ts:6 | splitting yields at least one field, and no field contains the separator |
| `JsStrings.SplitCount` | helpers/hardhat-remappings.ts:8 | a string with k separators splits into exactly k + 1 fields |
| `JsStrings.JoinSplit` | helpers/hardhat-remappings.ts:8 | joining the fields with the separator gives back the original string |
| `JsStrings.SplitJoin` | helpers/hardhat-remappings.ts:8 | splitting a join of separator-free fields gives back those fields (the inverse direction) |
| `JsStrings.SplitEnds` | helpers/hardhat-remappings.ts:8 | the first field is a prefix of the string and the last field is a suffix |
| `JsStrings.SplitAbsent` | helpers/hardhat-remappings.ts:6 | a character absent from the string is absent from every field |
| `JsStrings.TrimStart` | helpers/hardhat-remappings.ts:8 | the result is a suffix of the input, the removed prefix is all whitespace, and the result does not start with whitespace |
| `JsStrings.TrimEnd` | helpers/hardhat-remappings.ts:8 | the result is a prefix of the input, the removed suffix is all whitespace, and the result does not end with whitespace |
| `JsStrings.Trim` | helpers/hardhat-remappings.ts:8 | the trimmed string neither starts nor ends with whitespace |
| `JsStrings.TrimInfix` | helpers/hardhat-remappings.ts:8 | trimming keeps a contiguous middle part and removes only whitespace on both sides |
| `JsStrings.TrimUnique` | helpers/hardhat-remappings.ts:8 | whitespace, then a middle part with no whitespace at its ends, then whitespace, always trims to that middle part |
| `JsStrings.TrimAbsent` | helpers/hardhat-remappings.ts:8 | trimming introduces no character |
| `JsStrings.TrimKeepsNonWhitespace` | helpers/hardhat-remappings.ts:8 | trimming keeps every non-whitespace character with its count, so no `=` is lost |
| `JsStrings.IndexOf` | hardhat.config.ts:15 | the result is a position where the pattern occurs and no earlier position has it; no result means it occurs nowhere |
| `JsStrings.ReplaceFirst` | hardhat.config.ts:15 | with no occurrence the string is unchanged; otherwise only the first occurrence is replaced: the prefix before it and the rest after it are kept, and the length becomes old − pattern + replacement |
| `Remappings.NonEmpty` | helpers/hardhat-remappings.ts:7 | the filter keeps only non-empty segments, all taken from the input |
| `Remappings.NonEmptyCount` | helpers/hardhat-remappings.ts:7 | the filter keeps as many segments as there are, less the empty ones |
| `Remappings.SegmentIndex` | helpers/hardhat-remappings.ts:6-7 | the i-th kept segment is a non-empty segment with exactly i non-empty segments before it |
| `Remappings.GetRemappings` | helpers/hardhat-remappings.ts:3-9 | every entry of the loaded list has at least one field |
| `Remappings.EmptyContent` | helpers/hardhat-remappings.ts:4-7 | empty file content yields no entries |
| `Remappings.EntryCount` | helpers/hardhat-remappings.ts:6-7 | the number of entries is the number of non-empty line-feed segments; whitespace-only segments count |
| `Remappings.EntryOrigin` | helpers/hardhat-remappings.ts:6-8 | entry i comes from the i-th non-empty segment in file order; joining its fields with `=` gives that segment trimmed, and splitting the trimmed segment gives the entry |
| `Remappings.EntryFieldsClean` | helpers/hardhat-remappings.ts:6-8 | no field of any entry contains `=` or a line feed |
| `Remappings.EntryFieldCount` | helpers/hardhat-remappings.ts:8 | a segment with k occurrences of `=` yields exactly k + 1 fields |
| `Remappings.EntryEdges` | helpers/hardhat-remappings.ts:8 | the first field has no leading whitespace and the last has no trailing whitespace |
| `Remappings.WhitespaceOnlySegment` | helpers/hardhat-remappings.ts:7-8 | a whitespace-only line survives the filter and becomes an entry with one empty field |
| `Preprocess.ImportLineMatchesPattern` | hardhat.config.ts:12 | the hook's import test holds exactly when the line is optional whitespace, then `import` in any case, then a space (both directions) |
| `Preprocess.Transform` | hardhat.config.ts:11-20 | a non-import line comes back unchanged whatever the rules; an import line comes back with every entry's rule applied in order, each to the previous output |
| `Preprocess.ApplyRulesAppend` | hardhat.config.ts:13-17 | applying the rules of two lists in a row equals applying the rules of their concatenation |
| `Preprocess.LeftToRight` | hardhat.config.ts:13-17 | the first entry rewrites the line first, and the remaining entries see its output |
| `Preprocess.ApplyRuleEffect` | hardhat.config.ts:14-16 | a rule whose `find` occurs at no position leaves the line unchanged; if `at` is the first position where it occurs, the result is the line before `at`, then the replacement text, then the line after the occurrence |
| `Preprocess.OnlyFirstTwoFields` | hardhat.config.ts:13 | only the first two fields of an entry matter: `find` is the first, `replace` the second |
| `Preprocess.SingleFieldEntry` | hardhat.config.ts:13-15 | an entry with one field replaces its `find` with the text `undefined` |
| `Preprocess.EmptyFindPrefixesUndefined` | hardhat.config.ts:13-15 | the entry `[""]` puts the text `undefined` in front of every line |
| `Remappings.BlankSegmentEntry` | helpers/hardhat-remappings.ts:6-8 | a whitespace-only line anywhere in the file, such as the `"\r"` of a blank CRLF line among real rules, becomes the entry `[""]` at its own place in the list |
| `Preprocess.BlankEntryPrefixesUndefined` | hardhat.config.ts:13-16 | an entry `[""]` at position i puts `undefined` in front of the line as the entries before it left it |
| `Preprocess.BlankLineAmongRules` | hardhat.config.ts:13-16 | a whitespace-only line of the remappings file, wherever it stands, puts `undefined` in front of the import line as the rules above it left it |
| `Preprocess.BlankRemappingLine` | helpers/hardhat-remappings.ts:6-8 | a remappings file that is one whitespace-only line with no line feed inside it (such as `"\r"`), with or without a line feed after it, yields the single entry `[""]`, so every import line gets `undefined` in front of it |
| `Preprocess.EmptyFileKeepsLines` | hardhat.config.ts:12-19 | with an empty remappings file every line is returned unchanged |
| `Preprocess.ExampleResultText` | hardhat.config.ts:15 | the rewritten example line spelled out is `import "lib/openzeppelin-contracts/token/ERC20.sol";` |
| `Preprocess.OpenZeppelinExample` | hardhat.config.ts:12-15 | the rule `@openzeppelin/` → `lib/openzeppelin-contracts/` rewrites `import "@openzeppelin/token/ERC20.sol";` to `import "lib/openzeppelin-contracts/token/ERC20.sol";` |

## Left out

- Reading `remappings.txt` (helpers/hardhat-remappings.ts:4-5) is I/O. So are its failures: a missing file or a permission error. With the `"utf8"` encoding, invalid byte sequences do not fail; they are decoded to U+FFFD, which the model handles as an ordinary character. `Remappings.GetRemappings` takes the decoded file content as a parameter.
- The hook calls `getRemappings()` again for every import line, inside the import test (hardhat.config.ts:12-13). Lines that are not imports never read the file, so a missing file fails the build only at the first import line. `Preprocess.Transform` takes the parsed entries as a parameter instead. Re-reading an unchanged file gives the same entries, so the result of the rewrite is the same.
- Preprocess.ApplyRule: `line.match(find)` compiles `find` into a regular expression, while `line.replace(find, …)` uses it as literal text. The model treats `find` as literal text in both places. This agrees with the code at least when `find` contains no regular-expression metacharacters; it can also agree otherwise, for example when `a.b` occurs literally. A `find` that is not a valid pattern, such as `(`, makes `line.match(find)` throw (hardhat.config.ts:14). The model has no such failure.
- Preprocess.ReplacementText: with a string pattern, `replace` expands `$$`, `$&`, `` $` `` and `$'` in the replacement; `$1` and `$<name>` stay literal because there are no capture groups. The model inserts the replacement verbatim, so it agrees with the code at least when the replacement contains none of these four.
- Preprocess.RuleOf: an entry with no fields at all cannot be destructured meaningfully. `RuleOf` requires at least one field, and `Remappings.GetRemappings` proves that every entry it returns has one.
- Characters are Unicode scalar values, whereas JavaScript strings are UTF-16 code units. The operations modelled here agree on text without unpaired surrogates.
- The rest of the Hardhat configuration is static data or host-toolchain wiring: the compiler version, the `paths` block, the plugin imports and the `hre` parameter (hardhat.config.ts:1-10, 21-29).
