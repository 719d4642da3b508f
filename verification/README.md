# Batch rename script, modelled in Dafny

`Transfer/rename_script_georg.py` rewrites the GAP source files of a directory
(names ending in `.g`, `.gd` or `.gi`) with a list of literal rename rules.
Each line of the rules file has the shape `s/old/new/`. The script splits the
line on `/`, takes field 1 as the text to find and field 2 as its replacement,
and replaces every occurrence in every selected file. It reads all files
into a map from name to text first. It then applies the rules one after the
other: rule *i+1* sees the output of rule *i*, so there is no simultaneous
replacement. At the end it writes every file back.

The model has three modules:

- `Wrappers` (`Wrappers.dfy`): `Option` and `Result`.
- `PyStrings` (`PyStrings.dfy`): the Python string operations the script uses.
  These are `str.split` with a one-character separator (`Split`),
  `str.endswith` (`EndsWith`) and `str.replace` (`ReplaceAll`). `Join` is the
  inverse of splitting. `LeftmostSplit` describes `str.replace` declaratively:
  the string is cut at its leftmost non-overlapping occurrences, and no
  occurrence lies wholly inside an uncut part. `ReplaceAll` is proved to
  equal "cut, then join with the replacement" for every such cutting.
- `RenameScript` (`RenameScript.dfy`): the script itself. It covers
  - the suffix filter (`Eligible`, `SelectFiles`);
  - reading the snapshot (`Snapshot`);
  - rule parsing (`ParseRule`, `ParseRules`);
  - the rule fold (`ApplyRules`);
  - the rule loop, as the method `RewriteContents`, proved equal to the
    function `Rewrite`;
  - the write-back (`WriteBack`) and the whole run (`Run`).

The file system is a parameter. `listing` stands for what `os.listdir`
returns. `disk` maps the names the script opens to their text. The rules file
is given as its lines, each with its line break as `readlines` leaves it.

Points where the code's behaviour is easy to misread:

- Blank lines and lines with fewer than two `/` are not skipped. They raise
  `IndexError` (`Error.IndexError` with the line's index), and nothing is
  written. But the fields are read inside the dict comprehension. When no file
  was selected, the comprehension body never runs, so a malformed line then
  raises nothing (`Rewrite`, `RewriteContents`).
- A line with exactly two `/` keeps its line break in the replacement text.
  With a third `/` and no trailing one, the line break lands in field 3,
  which is ignored (`ParseRuleExamples`).
- The script opens each listed name as given, not joined with the target
  directory. So `listing` and `disk` are separate parameters, and a listed
  name missing from `disk` raises `FileNotFound` (`Snapshot`).

## Model

| member | source | states |
|---|---|---|
| `PyStrings.EndsWith` | Transfer/rename_script_georg.py:13 | `name.endswith(suffix)`: the suffix is no longer than the name and equals its last characters; `EligibleExtension` and `EligibleHasExtension` state its meaning for the three extensions |
| `RenameScript.Eligible` | Transfer/rename_script_georg.py:13 | the l.13 condition, a disjunction of three `endswith` tests; `EligibleExtension` and `EligibleHasExtension` together state that a name is selected exactly when it is a stem followed by `.g`, `.gd` or `.gi`, and `SelectFiles` that it decides membership in the selection |
| `RenameScript.EligibleHasExtension` | Transfer/rename_script_georg.py:13 | every selected name is a stem followed by `.g`, `.gd` or `.gi` (the converse of `EligibleExtension`) |
| `RenameScript.EligibleExtension` | Transfer/rename_script_georg.py:13 | every name of the form stem + `.g`, `.gd` or `.gi` is selected |
| `RenameScript.IneligibleLastChar` | Transfer/rename_script_georg.py:13 | a name whose last character is not `g`, `d` or `i` (or that is empty) is never selected |
| `RenameScript.TxtNotEligible` | Transfer/rename_script_georg.py:13 | `foo.txt` is not selected; `foo.g`, `foo.gd`, `foo.gi` are |
| `RenameScript.SelectFiles` | Transfer/rename_script_georg.py:13 | the selected names are exactly the eligible names of the listing |
| `RenameScript.Snapshot` | Transfer/rename_script_georg.py:16-19 | succeeds iff every selected name can be opened; then its keys are the selected names and each maps to its text on disk; otherwise it fails with `FileNotFound` for the first name in order that cannot be opened |
| `PyStrings.Split` | Transfer/rename_script_georg.py:21 | `split("/")` gives one field more than there are separators, and no field contains the separator |
| `PyStrings.SplitJoin` | Transfer/rename_script_georg.py:21 | joining the fields with the separator gives back the line |
| `PyStrings.SplitNoSep` | Transfer/rename_script_georg.py:21 | a string without the separator is a single field |
| `PyStrings.SplitFirstSep` | Transfer/rename_script_georg.py:21 | the first field ends at the first separator, and the rest is split independently |
| `RenameScript.ParseRule` | Transfer/rename_script_georg.py:21-22 | a line gives a rule iff it has at least two `/` (otherwise `split[1]` or `split[2]` raises); neither the search nor the replacement text contains `/` |
| `RenameScript.ParseRuleOfShape` | Transfer/rename_script_georg.py:21-22 | a line `prefix/old/new` followed by nothing or by further `/`-fields gives exactly the rule `old` to `new`; field 0 and fields after 2 are ignored |
| `RenameScript.ParseRuleExamples` | Transfer/rename_script_georg.py:21-22 | empty and blank lines are malformed; `s/A/B/` followed by a line break gives `A` to `B`; `s/A/B` followed by a line break gives `A` to `B` plus the line break; `s/A/B/C` followed by a line break gives `A` to `B`, the line break staying in an ignored field |
| `RenameScript.ParseRules` | Transfer/rename_script_georg.py:20-22 | succeeds iff every line parses, then yields one rule per line in file order; otherwise fails at the first malformed line |
| `RenameScript.ParseRulesAllWellFormed` | Transfer/rename_script_georg.py:20-22 | when every line parses, the file's rules are exactly its lines' rules, in order |
| `RenameScript.ParseRulesFirstMalformed` | Transfer/rename_script_georg.py:20-22 | the first malformed line is where parsing the whole file fails |
| `PyStrings.ReplaceAll` | Transfer/rename_script_georg.py:22 | `s.replace(old, new)` for a non-empty `old`; its contract is carried by `ReplaceAllSpec` and `ReplaceAllIsJoin` (the leftmost non-overlapping occurrences are replaced), with `ReplaceAllNoMatch`, `ReplaceAllSelf` and `ReplaceAllNonOverlapping` |
| `PyStrings.LeftmostSplitExists` | Transfer/rename_script_georg.py:22 | every string has a cutting at the leftmost non-overlapping occurrences of a non-empty search text |
| `PyStrings.ReplaceAllIsJoin` | Transfer/rename_script_georg.py:22 | for every leftmost cutting of `s`, `s.replace(old, new)` is the parts joined with `new` |
| `PyStrings.ReplaceAllSpec` | Transfer/rename_script_georg.py:22 | `s.replace(old, new)` is `s` cut at its leftmost non-overlapping occurrences of `old` and rejoined with `new`; no occurrence of `old` lies wholly within an uncut part |
| `PyStrings.ReplaceAllNoMatch` | Transfer/rename_script_georg.py:22 | when `old` does not occur in `s`, the result is `s` |
| `PyStrings.ReplaceAllSelf` | Transfer/rename_script_georg.py:22 | replacing `old` by itself leaves every string unchanged |
| `PyStrings.ReplaceAllNonOverlapping` | Transfer/rename_script_georg.py:22 | matches are taken from the left and do not overlap: `"aaaa".replace("aa", "a") == "aa"` |
| `RenameScript.ApplyRules` | Transfer/rename_script_georg.py:20-22 | the rules applied to one text one after the other, each to the output of the one before; its contract is carried by `ApplyRulesAppend`, `ApplyRulesSnoc`, `ApplyRulesNoMatch` and `ApplyRulesSelf` |
| `RenameScript.ApplyRulesAppend` | Transfer/rename_script_georg.py:20-22 | applying two rule lists in turn is applying their concatenation (sequential, not simultaneous) |
| `RenameScript.ApplyRulesSnoc` | Transfer/rename_script_georg.py:20-22 | the last rule makes one pass over the output of all earlier rules |
| `RenameScript.ApplyRulesNoMatch` | Transfer/rename_script_georg.py:20-22 | a text containing none of the rules' search texts comes out unchanged |
| `RenameScript.ApplyRulesSelf` | Transfer/rename_script_georg.py:20-22 | rules of the form `X/X` leave every text unchanged |
| `RenameScript.ChainedRules` | Transfer/rename_script_georg.py:20-22 | rules `A/B` then `B/C` turn `A` into `C` |
| `RenameScript.CascadeNotRerun` | Transfer/rename_script_georg.py:20-22 | rules `A/B` then `C/A` turn `AC` into `BA`: earlier rules are not re-run |
| `RenameScript.ReplaceInAll` | Transfer/rename_script_georg.py:22 | the dict comprehension of one rule, `str.replace` on every file's text; `ApplyToAllSnoc` states that it extends the fold over the rules by that rule |
| `RenameScript.ApplyToAll` | Transfer/rename_script_georg.py:19-22 | applying the rules to every file keeps the set of files the same |
| `RenameScript.ApplyToAllSnoc` | Transfer/rename_script_georg.py:20-22 | rebuilding the contents map with one more rule, as each loop iteration does, gives the snapshot with all rules so far applied |
| `RenameScript.ApplyToAllNoRules` | Transfer/rename_script_georg.py:19 | with no rules every file keeps its snapshot text |
| `RenameScript.Rewrite` | Transfer/rename_script_georg.py:19-22 | the rule loop succeeds iff no file was selected or every rule line parses; it keeps the key set of the contents map; otherwise it raises `IndexError` at the first malformed line |
| `RenameScript.RewriteContents` | Transfer/rename_script_georg.py:19-22 | the loop that rebuilds the contents map once per rule line gives exactly `Rewrite`: each file's text with the parsed rules applied in order |
| `RenameScript.RewriteNoRules` | Transfer/rename_script_georg.py:19-22 | with an empty rules file the contents map equals the snapshot |
| `RenameScript.RewritePerFile` | Transfer/rename_script_georg.py:19-22 | a file's final text depends only on its own original text and the rules |
| `RenameScript.RewriteUntouchedOnNoMatch` | Transfer/rename_script_georg.py:19-22 | a file containing none of the rules' search texts keeps its text |
| `RenameScript.WriteBack` | Transfer/rename_script_georg.py:23-25 | every file in the final map gets its final text; every other file keeps its text; no file is deleted |
| `RenameScript.Run` | Transfer/rename_script_georg.py:10-25 | a successful run neither creates nor deletes files, and never changes a file that is not both listed and eligible |
| `RenameScript.RunNoRules` | Transfer/rename_script_georg.py:10-25 | with an empty rules file, every file is written back with the text it was read as |
| `RenameScript.RunUntouchedOnNoMatch` | Transfer/rename_script_georg.py:10-25 | a file containing none of the rules' search texts is written back with the text it was read as |
| `RenameScript.RunRewritesSelected` | Transfer/rename_script_georg.py:13-25 | when every listed, eligible file can be opened and every rules line parses, the run succeeds and every such file is written back as its text with all parsed rules applied in file order |
| `RenameScript.SnapshotEmpty` | Transfer/rename_script_georg.py:19 | the contents map is empty exactly when no file was selected |
| `RenameScript.RunSucceeds` | Transfer/rename_script_georg.py:13-25 | the run reaches the write-back iff every selected file can be opened and, when some file was selected, every rules line has two `/` |
| `RenameScript.RunFails` | Transfer/rename_script_georg.py:13-25 | a failing run reports a listed eligible file that cannot be opened, or, with every selected file read and at least one selected, the first malformed rules line |

## Left out

- Reading `sys.argv`, listing the directory and reading the rules file (lines 10-15) are I/O. They are the parameters `listing` and `lines`.
- Text decoding and the line breaks `readlines` keeps are not modelled: each rule line is a given string.
- Target files are opened in text mode (lines 17 and 24): on reading, `\r\n` and `\r` become `\n`, and on writing each `\n` becomes the platform's line separator. `disk` holds the text as read, so `RunNoRules` and `RunUntouchedOnNoMatch` hold of that text, not of the bytes on disk.
- RunFails: names a missing file that is listed and eligible, but not that it is the first such file in listing order, because `SelectFiles` is specified by membership only (`Snapshot` does state the first-missing order).
- Failures while reading a file other than a missing name, and failures while writing (lines 23-25), are not modelled. `WriteBack` is a total map update, so the model does not capture that a failed write can leave some files rewritten and others not.
- The join of the target directory and the file name, which the script omits, is not modelled. Listed names are looked up in `disk` as they are.
- ReplaceAll: requires a non-empty search text. Python's `str.replace` with an empty search text inserts the replacement before every character and at the end; that case is not modelled.
- ApplyRules: requires every rule's search text to be non-empty, for the same reason.
- Rewrite: requires `NoEmptyPatterns(lines)`, so a rules file with a line like `s//x/` is outside the model.
- RewriteContents: requires `NoEmptyPatterns(lines)`, as `Rewrite` does.
- Run: requires `NoEmptyPatterns(lines)`, as `Rewrite` does.
- Determinism of the run is not stated as a lemma: every member is a function of its inputs.
