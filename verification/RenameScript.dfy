/**
 The batch rename script: it selects the files of a directory whose names end
 in `.g`, `.gd` or `.gi`, reads them all into a map from name to contents,
 then applies the rules of a rules file one after the other (each line
 `s/old/new/` replaces every `old` with `new` in every file) and writes the
 final contents back. Rules are applied in sequence, not simultaneously: a
 rule sees the text produced by the rules before it.

 The file system is a parameter: `listing` is what listing the target
 directory returns, `disk` maps the names the script opens to their text,
 and the rules file is given as its lines.
 */
module RenameScript {
  import opened Wrappers
  import opened PyStrings

  /** One rename rule: every `oldText` becomes `newText`. */
  datatype Rule = Rule(oldText: string, newText: string)

  /** The exceptions that end the script before anything is written. */
  datatype Error =
    | FileNotFound(name: string)  // opening a listed file for reading fails
    | IndexError(line: nat)       // rules line `line` has fewer than three `/`-separated fields

  // ---------------------------------------------------------------------------
  // Selecting the files
  // ---------------------------------------------------------------------------

  /** The file names the script rewrites. */
  predicate Eligible(name: string)
  {
    EndsWith(name, ".g") || EndsWith(name, ".gd") || EndsWith(name, ".gi")
  }

  /** Any name made of a stem and one of the three extensions is selected. */
  lemma EligibleExtension(stem: string, ext: string)
    requires ext == ".g" || ext == ".gd" || ext == ".gi"
    ensures Eligible(stem + ext)
  {
    assert (stem + ext)[|stem + ext| - |ext|..] == ext;
  }

  /** Conversely, every selected name is a stem followed by one of the three extensions. */
  lemma EligibleHasExtension(name: string) returns (stem: string, ext: string)
    requires Eligible(name)
    ensures ext == ".g" || ext == ".gd" || ext == ".gi"
    ensures name == stem + ext
  {
    ext := if EndsWith(name, ".g") then ".g" else if EndsWith(name, ".gd") then ".gd" else ".gi";
    stem := name[..|name| - |ext|];
    assert name == name[..|name| - |ext|] + name[|name| - |ext|..];
  }

  /**
   A name is selected only if it ends in `g`, `d` or `i`; in particular
   `foo.txt` is never selected.
   */
  lemma IneligibleLastChar(name: string)
    requires |name| == 0 || name[|name| - 1] !in "gdi"
    ensures !Eligible(name)
  {
  }

  lemma TxtNotEligible()
    ensures !Eligible("foo.txt") && Eligible("foo.g") && Eligible("foo.gd") && Eligible("foo.gi")
  {
    IneligibleLastChar("foo.txt");
    EligibleExtension("foo", ".g");
    EligibleExtension("foo", ".gd");
    EligibleExtension("foo", ".gi");
  }

  /** The list comprehension that keeps the eligible names of the listing. */
  function SelectFiles(listing: seq<string>): (files: seq<string>)
    ensures forall f :: f in files <==> f in listing && Eligible(f)
    ensures |files| <= |listing|
  {
    if listing == [] then []
    else (if Eligible(listing[0]) then [listing[0]] else []) + SelectFiles(listing[1..])
  }

  // ---------------------------------------------------------------------------
  // Reading the snapshot
  // ---------------------------------------------------------------------------

  /**
   The dict comprehension that reads every selected file, in listing order:
   the first name that cannot be opened raises, otherwise every selected
   name maps to its text on disk.
   */
  function Snapshot(files: seq<string>, disk: map<string, string>): (r: Result<map<string, string>, Error>)
    ensures r.Success? <==> forall f :: f in files ==> f in disk
    ensures r.Success? ==> forall f :: f in r.value <==> f in files
    ensures r.Success? ==> forall f :: f in r.value ==> r.value[f] == disk[f]
    ensures r.Failure? ==> r.error.FileNotFound?
    ensures r.Failure? ==> exists i :: 0 <= i < |files| && files[i] == r.error.name && files[i] !in disk &&
                                     forall j :: 0 <= j < i ==> files[j] in disk
  {
    if files == [] then Success(map[])
    else if files[0] !in disk then Failure(FileNotFound(files[0]))
    else
      match Snapshot(files[1..], disk)
      case Failure(e) =>
        var i :| 0 <= i < |files[1..]| && files[1..][i] == e.name && files[1..][i] !in disk &&
                 forall j :: 0 <= j < i ==> files[1..][j] in disk;
        assert files[i + 1] == e.name;
        Failure(e)
      case Success(rest) => Success(rest[files[0] := disk[files[0]]])
  }

  // ---------------------------------------------------------------------------
  // Parsing the rules
  // ---------------------------------------------------------------------------

  /**
   `line.split("/")` and its fields 1 and 2; a line with fewer than two `/`
   has no field 2 and the script raises `IndexError`.
   */
  function ParseRule(line: string): (r: Option<Rule>)
    ensures r.Some? <==> Count(line, '/') >= 2
    ensures r.Some? ==> '/' !in r.value.oldText && '/' !in r.value.newText
  {
    var fields := Split(line, '/');
    if |fields| < 3 then None else Some(Rule(fields[1], fields[2]))
  }

  /**
   A line of the documented shape `prefix/old/new` followed by nothing or by
   a further `/`-field yields exactly the rule `old` to `new`: the prefix and
   anything after the third field are ignored.
   */
  lemma ParseRuleOfShape(prefix: string, oldText: string, newText: string, tail: string)
    requires '/' !in prefix && '/' !in oldText && '/' !in newText
    requires tail == [] || tail[0] == '/'
    ensures ParseRule(prefix + "/" + oldText + "/" + newText + tail) == Some(Rule(oldText, newText))
  {
    var line := prefix + "/" + oldText + "/" + newText + tail;
    assert line == prefix + ['/'] + (oldText + ['/'] + (newText + tail));
    SplitFirstSep(prefix, '/', oldText + ['/'] + (newText + tail));
    SplitFirstSep(oldText, '/', newText + tail);
    if tail == [] {
      assert newText + tail == newText;
      SplitNoSep(newText, '/');
    } else {
      assert newText + tail == newText + ['/'] + tail[1..];
      SplitFirstSep(newText, '/', tail[1..]);
    }
  }

  /**
   Blank lines are malformed, a trailing `/` keeps the line break out of
   the replacement, and a line with exactly two `/` keeps it in the
   replacement; with a third `/` the line break lands in an ignored field.
   */
  lemma ParseRuleExamples()
    ensures ParseRule("") == None && ParseRule("\n") == None
    ensures ParseRule("s/A/B/\n") == Some(Rule("A", "B"))
    ensures ParseRule("s/A/B\n") == Some(Rule("A", "B\n"))
    ensures ParseRule("s/A/B/C\n") == Some(Rule("A", "B"))
  {
    ParseRuleOfShape("s", "A", "B", "/C\n");
    assert "s" + "/" + "A" + "/" + "B" + "/C\n" == "s/A/B/C\n";
    ParseRuleOfShape("s", "A", "B", "/\n");
    assert "s" + "/" + "A" + "/" + "B" + "/\n" == "s/A/B/\n";
    ParseRuleOfShape("s", "A", "B\n", "");
    assert "s" + "/" + "A" + "/" + "B\n" + "" == "s/A/B\n";
  }

  /**
   The rules of the whole file, in order, or the index of the first line that
   is malformed.
   */
  function ParseRules(lines: seq<string>): (r: Result<seq<Rule>, Error>)
    ensures r.Success? <==> forall k :: 0 <= k < |lines| ==> ParseRule(lines[k]).Some?
    ensures r.Success? ==> |r.value| == |lines|
    ensures r.Success? ==> forall k :: 0 <= k < |lines| ==> ParseRule(lines[k]) == Some(r.value[k])
    ensures r.Failure? ==> r.error.IndexError? && r.error.line < |lines|
    ensures r.Failure? ==> ParseRule(lines[r.error.line]).None?
    ensures r.Failure? ==> forall k :: 0 <= k < r.error.line ==> ParseRule(lines[k]).Some?
  {
    if lines == [] then Success([])
    else
      var n := |lines| - 1;
      var init := lines[..n];
      assert forall k :: 0 <= k < n ==> init[k] == lines[k];
      match ParseRules(init)
      case Failure(e) =>
        assert init[e.line] == lines[e.line];
        Failure(e)
      case Success(rules) =>
        match ParseRule(lines[n])
        case None => Failure(IndexError(n))
        case Some(rule) =>
          var all := rules + [rule];
          assert forall k :: 0 <= k < n ==> all[k] == rules[k];
          Success(all)
  }

  /**
   A line that, if it gives a rule, searches for a non-empty string. With an
   empty search string Python's `replace` inserts the replacement before
   every character and at the end; the model excludes such rules.
   */
  predicate PatternNonEmpty(line: string)
  {
    ParseRule(line).Some? ==> ParseRule(line).value.oldText != ""
  }

  predicate NoEmptyPatterns(lines: seq<string>)
  {
    forall k :: 0 <= k < |lines| ==> PatternNonEmpty(lines[k])
  }

  predicate ValidRules(rules: seq<Rule>)
  {
    forall k :: 0 <= k < |rules| ==> rules[k].oldText != ""
  }

  lemma ParsedRulesValid(lines: seq<string>)
    requires NoEmptyPatterns(lines) && ParseRules(lines).Success?
    ensures ValidRules(ParseRules(lines).value)
  {
    var rules := ParseRules(lines).value;
    forall k | 0 <= k < |rules|
      ensures rules[k].oldText != ""
    {
      assert PatternNonEmpty(lines[k]);
    }
  }

  // ---------------------------------------------------------------------------
  // Applying the rules
  // ---------------------------------------------------------------------------

  /** The rules applied to one text, first rule first, each to the output of the one before. */
  function ApplyRules(rules: seq<Rule>, s: string): string
    requires ValidRules(rules)
  {
    if rules == [] then s
    else ApplyRules(rules[1..], ReplaceAll(s, rules[0].oldText, rules[0].newText))
  }

  /** Applying two rule lists one after the other is applying their concatenation. */
  lemma {:induction false} ApplyRulesAppend(r1: seq<Rule>, r2: seq<Rule>, s: string)
    requires ValidRules(r1) && ValidRules(r2)
    ensures ValidRules(r1 + r2)
    ensures ApplyRules(r1 + r2, s) == ApplyRules(r2, ApplyRules(r1, s))
  {
    if r1 == [] {
      assert r1 + r2 == r2;
    } else {
      assert (r1 + r2)[1..] == r1[1..] + r2;
      ApplyRulesAppend(r1[1..], r2, ReplaceAll(s, r1[0].oldText, r1[0].newText));
    }
  }

  /** The last rule acts on what all earlier rules produced, in one pass. */
  lemma ApplyRulesSnoc(rules: seq<Rule>, rule: Rule, s: string)
    requires ValidRules(rules) && rule.oldText != ""
    ensures ValidRules(rules + [rule])
    ensures ApplyRules(rules + [rule], s) == ReplaceAll(ApplyRules(rules, s), rule.oldText, rule.newText)
  {
    ApplyRulesAppend(rules, [rule], s);
  }

  /** A text in which no rule's search string occurs comes out unchanged. */
  lemma {:induction false} ApplyRulesNoMatch(rules: seq<Rule>, s: string)
    requires ValidRules(rules)
    requires forall k :: 0 <= k < |rules| ==> !Occurs(rules[k].oldText, s)
    ensures ApplyRules(rules, s) == s
  {
    if rules != [] {
      ReplaceAllNoMatch(s, rules[0].oldText, rules[0].newText);
      assert forall k :: 0 <= k < |rules[1..]| ==> rules[1..][k] == rules[k + 1];
      ApplyRulesNoMatch(rules[1..], s);
    }
  }

  /** Rules that replace a string by itself change nothing. */
  lemma {:induction false} ApplyRulesSelf(rules: seq<Rule>, s: string)
    requires ValidRules(rules)
    requires forall k :: 0 <= k < |rules| ==> rules[k].oldText == rules[k].newText
    ensures ApplyRules(rules, s) == s
  {
    if rules != [] {
      ReplaceAllSelf(s, rules[0].oldText);
      assert forall k :: 0 <= k < |rules[1..]| ==> rules[1..][k] == rules[k + 1];
      ApplyRulesSelf(rules[1..], s);
    }
  }

  /** Rules chain: `A/B` then `B/C` turns `A` into `C`, not `B`. */
  lemma ChainedRules()
    ensures ApplyRules([Rule("A", "B"), Rule("B", "C")], "A") == "C"
  {
    assert ReplaceAll("A", "A", "B") == "B" by {
      assert "A"[..1] == "A" && "A"[1..] == "";
    }
    assert ReplaceAll("B", "B", "C") == "C" by {
      assert "B"[..1] == "B" && "B"[1..] == "";
    }
    assert [Rule("A", "B"), Rule("B", "C")][1..] == [Rule("B", "C")];
  }

  /**
   Rules are not re-run: `A/B` then `C/A` turns `AC` into `BA`; the `A`
   that the second rule produces is not turned into `B` again.
   */
  lemma CascadeNotRerun()
    ensures ApplyRules([Rule("A", "B"), Rule("C", "A")], "AC") == "BA"
  {
    assert ReplaceAll("AC", "A", "B") == "BC" by {
      assert "AC"[..1] == "A" && "AC"[1..] == "C";
      assert "C"[..1] != "A" && "C"[1..] == "";
    }
    assert ReplaceAll("BC", "C", "A") == "BA" by {
      assert "BC"[..1] != "C" && "BC"[1..] == "C";
      assert "C"[..1] == "C" && "C"[1..] == "";
    }
    assert [Rule("A", "B"), Rule("C", "A")][1..] == [Rule("C", "A")];
  }

  /** The dict comprehension of one rule: its replacement made in every file's text. */
  function ReplaceInAll(contents: map<string, string>, rule: Rule): map<string, string>
    requires rule.oldText != ""
  {
    map f | f in contents :: ReplaceAll(contents[f], rule.oldText, rule.newText)
  }

  /** Every file's text with all the rules applied; the set of files stays the same. */
  function ApplyToAll(rules: seq<Rule>, snapshot: map<string, string>): (contents: map<string, string>)
    requires ValidRules(rules)
    ensures contents.Keys == snapshot.Keys
  {
    map f | f in snapshot :: ApplyRules(rules, snapshot[f])
  }

  /**
   Running one more rule over the contents map, as the loop does, gives the
   map with all the rules so far applied to the snapshot.
   */
  lemma ApplyToAllSnoc(rules: seq<Rule>, rule: Rule, snapshot: map<string, string>)
    requires ValidRules(rules) && rule.oldText != ""
    ensures ValidRules(rules + [rule])
    ensures ApplyToAll(rules + [rule], snapshot) == ReplaceInAll(ApplyToAll(rules, snapshot), rule)
  {
    forall f | f in snapshot
      ensures ApplyRules(rules + [rule], snapshot[f])
              == ReplaceAll(ApplyRules(rules, snapshot[f]), rule.oldText, rule.newText)
    {
      ApplyRulesSnoc(rules, rule, snapshot[f]);
    }
  }

  /** With no rules every file keeps its text. */
  lemma ApplyToAllNoRules(snapshot: map<string, string>)
    ensures ApplyToAll([], snapshot) == snapshot
  {
    var contents := ApplyToAll([], snapshot);
    forall f | f in snapshot
      ensures contents[f] == snapshot[f]
    {
    }
  }

  // ---------------------------------------------------------------------------
  // The rule loop over the contents map
  // ---------------------------------------------------------------------------

  /**
   What the rule loop leaves in the contents map: every file's text with all
   rules applied, or the `IndexError` of the first malformed line. When no
   file was selected the comprehension body never runs, so a malformed line
   raises nothing.
   */
  function Rewrite(lines: seq<string>, snapshot: map<string, string>): (r: Result<map<string, string>, Error>)
    requires NoEmptyPatterns(lines)
    ensures r.Success? <==> snapshot == map[] || ParseRules(lines).Success?
    ensures r.Success? ==> r.value.Keys == snapshot.Keys
    ensures r.Failure? ==> r == Failure(IndexError(ParseRules(lines).error.line))
  {
    if snapshot == map[] then Success(snapshot)
    else
      match ParseRules(lines)
      case Failure(e) => Failure(e)
      case Success(rules) =>
        ParsedRulesValid(lines);
        Success(ApplyToAll(rules, snapshot))
  }

  /** When every line parses, the rules of the file are those of its lines. */
  lemma ParseRulesAllWellFormed(lines: seq<string>, rules: seq<Rule>)
    requires |rules| == |lines|
    requires forall k :: 0 <= k < |lines| ==> ParseRule(lines[k]) == Some(rules[k])
    ensures ParseRules(lines) == Success(rules)
  {
    forall k | 0 <= k < |lines|
      ensures ParseRule(lines[k]).Some?
    {
      assert ParseRule(lines[k]) == Some(rules[k]);
    }
    var r := ParseRules(lines);
    assert r.Success?;
    var v := r.value;
    forall k | 0 <= k < |lines|
      ensures v[k] == rules[k]
    {
      assert ParseRule(lines[k]) == Some(v[k]);
    }
    assert v == rules;
  }

  /** The first malformed line is the one the whole file fails at. */
  lemma ParseRulesFirstMalformed(lines: seq<string>, i: nat)
    requires i < |lines| && ParseRule(lines[i]).None?
    requires forall k :: 0 <= k < i ==> ParseRule(lines[k]).Some?
    ensures ParseRules(lines) == Failure(IndexError(i))
  {
    var r := ParseRules(lines);
    assert r.Failure?;
    assert r.error.line <= i;
    assert r.error.line >= i;
  }

  /**
   The loop `for line in lines`: split the line, then rebuild the contents
   map with field 1 replaced by field 2 in every file.
   */
  method RewriteContents(lines: seq<string>, snapshot: map<string, string>)
    returns (result: Result<map<string, string>, Error>)
    requires NoEmptyPatterns(lines)
    ensures result == Rewrite(lines, snapshot)
  {
    var contents := snapshot;
    ghost var done: seq<Rule> := [];
    ApplyToAllNoRules(snapshot);
    var i := 0;
    while i < |lines|
      invariant 0 <= i <= |lines|
      invariant snapshot == map[] ==> contents == snapshot
      invariant snapshot != map[] ==> |done| == i && ValidRules(done)
      invariant snapshot != map[] ==> forall k :: 0 <= k < i ==> ParseRule(lines[k]) == Some(done[k])
      invariant snapshot != map[] ==> contents == ApplyToAll(done, snapshot)
    {
      var rule := ParseRule(lines[i]);
      // The comprehension reads split[1] and split[2] once per file, so it
      // raises only when there is a file.
      if contents != map[] {
        if rule.None? {
          ParseRulesFirstMalformed(lines, i);
          return Failure(IndexError(i));
        }
        assert PatternNonEmpty(lines[i]);
        ApplyToAllSnoc(done, rule.value, snapshot);
        contents := ReplaceInAll(contents, rule.value);
        done := done + [rule.value];
      }
      i := i + 1;
    }
    if snapshot != map[] {
      ParseRulesAllWellFormed(lines, done);
    }
    return Success(contents);
  }

  /** With no rules the contents map is the snapshot itself. */
  lemma RewriteNoRules(snapshot: map<string, string>)
    ensures Rewrite([], snapshot) == Success(snapshot)
  {
    ApplyToAllNoRules(snapshot);
  }

  /**
   Each file's final text depends only on its own original text and the
   rules: two snapshots that agree on a file give it the same final text.
   */
  lemma RewritePerFile(lines: seq<string>, s1: map<string, string>, s2: map<string, string>, f: string)
    requires NoEmptyPatterns(lines)
    requires f in s1 && f in s2 && s1[f] == s2[f]
    requires Rewrite(lines, s1).Success? && Rewrite(lines, s2).Success?
    ensures f in Rewrite(lines, s1).value && f in Rewrite(lines, s2).value
    ensures Rewrite(lines, s1).value[f] == Rewrite(lines, s2).value[f]
  {
  }

  /** A file in which none of the rules' search strings occurs keeps its text. */
  lemma RewriteUntouchedOnNoMatch(lines: seq<string>, snapshot: map<string, string>, f: string)
    requires NoEmptyPatterns(lines) && Rewrite(lines, snapshot).Success?
    requires f in snapshot
    requires forall k :: 0 <= k < |lines| && ParseRule(lines[k]).Some? ==>
               !Occurs(ParseRule(lines[k]).value.oldText, snapshot[f])
    ensures f in Rewrite(lines, snapshot).value && Rewrite(lines, snapshot).value[f] == snapshot[f]
  {
    var rules := ParseRules(lines).value;
    ParsedRulesValid(lines);
    forall k | 0 <= k < |rules|
      ensures !Occurs(rules[k].oldText, snapshot[f])
    {
      assert ParseRule(lines[k]) == Some(rules[k]);
    }
    ApplyRulesNoMatch(rules, snapshot[f]);
  }

  // ---------------------------------------------------------------------------
  // Writing back, and the whole script
  // ---------------------------------------------------------------------------

  /** Every file of the final map is overwritten with its final text; no other file changes. */
  function WriteBack(disk: map<string, string>, contents: map<string, string>): (written: map<string, string>)
    ensures written.Keys == disk.Keys + contents.Keys
    ensures forall f :: f in contents ==> written[f] == contents[f]
    ensures forall f :: f in disk && f !in contents ==> written[f] == disk[f]
  {
    disk + contents
  }

  /**
   The whole script: select, read, rewrite, write back. An exception before
   the write-back leaves the disk as it was, which is the `Failure` result.
   */
  function Run(listing: seq<string>, lines: seq<string>, disk: map<string, string>): (r: Result<map<string, string>, Error>)
    requires NoEmptyPatterns(lines)
    ensures r.Success? ==> r.value.Keys == disk.Keys
    ensures r.Success? ==> forall f :: f in disk && !(f in listing && Eligible(f)) ==> r.value[f] == disk[f]
  {
    match Snapshot(SelectFiles(listing), disk)
    case Failure(e) => Failure(e)
    case Success(snapshot) =>
      match Rewrite(lines, snapshot)
      case Failure(e) => Failure(e)
      case Success(contents) => Success(WriteBack(disk, contents))
  }

  /** With an empty rules file the script writes every file back with the text it was read as. */
  lemma RunNoRules(listing: seq<string>, disk: map<string, string>)
    requires forall f :: f in listing && Eligible(f) ==> f in disk
    ensures Run(listing, [], disk) == Success(disk)
  {
    var snapshot := Snapshot(SelectFiles(listing), disk).value;
    RewriteNoRules(snapshot);
    assert WriteBack(disk, snapshot) == disk;
  }

  /**
   A selected file that contains none of the rules' search strings is written
   back with the text it was read as.
   */
  lemma RunUntouchedOnNoMatch(listing: seq<string>, lines: seq<string>, disk: map<string, string>, f: string)
    requires NoEmptyPatterns(lines) && Run(listing, lines, disk).Success?
    requires f in disk
    requires forall k :: 0 <= k < |lines| && ParseRule(lines[k]).Some? ==>
               !Occurs(ParseRule(lines[k]).value.oldText, disk[f])
    ensures Run(listing, lines, disk).value[f] == disk[f]
  {
    var snapshot := Snapshot(SelectFiles(listing), disk).value;
    if f in snapshot {
      RewriteUntouchedOnNoMatch(lines, snapshot, f);
    }
  }

  /**
   When every selected file can be opened and every rules line parses, the
   run succeeds and every selected file is written back with all the rules
   applied to its text.
   */
  lemma RunRewritesSelected(listing: seq<string>, lines: seq<string>, disk: map<string, string>, f: string)
    requires NoEmptyPatterns(lines) && ParseRules(lines).Success?
    requires forall g :: g in listing && Eligible(g) ==> g in disk
    requires f in listing && Eligible(f)
    ensures Run(listing, lines, disk).Success? && ValidRules(ParseRules(lines).value)
    ensures Run(listing, lines, disk).value[f] == ApplyRules(ParseRules(lines).value, disk[f])
  {
    RunSucceeds(listing, lines, disk);
    var snapshot := Snapshot(SelectFiles(listing), disk).value;
    assert f in snapshot;
    ParsedRulesValid(lines);
  }

  /** The selected files are none exactly when the snapshot is empty. */
  lemma SnapshotEmpty(files: seq<string>, disk: map<string, string>)
    requires Snapshot(files, disk).Success?
    ensures Snapshot(files, disk).value == map[] <==> files == []
  {
    if files != [] {
      assert files[0] in Snapshot(files, disk).value;
    }
  }

  /**
   The script runs to the write-back exactly when every selected file can be
   opened and, if any file was selected, every rules line has two `/`.
   */
  lemma RunSucceeds(listing: seq<string>, lines: seq<string>, disk: map<string, string>)
    requires NoEmptyPatterns(lines)
    ensures Run(listing, lines, disk).Success? <==>
              (forall f :: f in listing && Eligible(f) ==> f in disk) &&
              (SelectFiles(listing) == [] || ParseRules(lines).Success?)
  {
    var files := SelectFiles(listing);
    if Snapshot(files, disk).Success? {
      SnapshotEmpty(files, disk);
    }
  }

  /**
   A failing run names its cause: a selected file that cannot be opened, or,
   when every selected file was read and there is one, the first malformed
   rules line.
   */
  lemma RunFails(listing: seq<string>, lines: seq<string>, disk: map<string, string>)
    requires NoEmptyPatterns(lines) && Run(listing, lines, disk).Failure?
    ensures var e := Run(listing, lines, disk).error;
      || (e.FileNotFound? && e.name in listing && Eligible(e.name) && e.name !in disk)
      || (&& SelectFiles(listing) != []
          && (forall f :: f in listing && Eligible(f) ==> f in disk)
          && ParseRules(lines).Failure?
          && e == IndexError(ParseRules(lines).error.line))
  {
    var files := SelectFiles(listing);
    var r := Snapshot(files, disk);
    if r.Failure? {
      var i :| 0 <= i < |files| && files[i] == r.error.name && files[i] !in disk &&
               forall j :: 0 <= j < i ==> files[j] in disk;
      assert r.error.name in files;
    } else {
      SnapshotEmpty(files, disk);
    }
  }
}
