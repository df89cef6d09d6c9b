/** `getEntries`, identical in both scripts: the keys defined in the locale
    file, one per definition line, in file order. The locale file is given
    as its lines, each with its line terminator as `readlines` keeps it. */
module LocaleEntries {
  import opened Text
  import opened LocalePatterns

  /** The definition prefix tested on the stripped line. */
  const DefinitionPrefix: string := "L["

  /** What one line contributes: the strip test, then the anchored match on
      the UNSTRIPPED line, then the non-empty test on group 1. A key it
      yields is non-empty and is the group of a match of the definition
      pattern at column 0. */
  function LineKey(line: string): (r: Option<string>)
    ensures r.Some? ==> r.value != [] && EntryMatch(line, r.value)
  {
    if StartsWith(Strip(line), DefinitionPrefix) then
      match EntryKey(line)
      case Some(key) => if |key| > 0 then Some(key) else None
      case None => None
    else None
  }

  /** The list `getEntries` returns for the given lines. */
  function Entries(lines: seq<string>): seq<string> {
    Collect(lines, LineKey)
  }

  /** `getEntries`: appends the key of each matching line in turn. */
  method GetEntries(lines: seq<string>) returns (entries: seq<string>)
    ensures entries == Entries(lines)
  {
    entries := [];
    for i := 0 to |lines|
      invariant entries == Entries(lines[..i])
    {
      assert lines[..i + 1][..i] == lines[..i];
      var line := lines[i];
      assert Entries(lines[..i + 1]) == entries + (if LineKey(line).Some? then [LineKey(line).value] else []);
      if StartsWith(Strip(line), DefinitionPrefix) {
        var m := EntryKey(line);
        if m.Some? && |m.value| > 0 {
          entries := entries + [m.value];
        }
      }
    }
    assert lines[..|lines|] == lines;
  }

  /** The strip test lets through nothing the anchored match does not
      already demand: a line yields a key exactly when the pattern matches it
      at column 0, and the key is never empty. */
  lemma StripTestIsRedundant(line: string)
    ensures LineKey(line) == EntryKey(line)
    ensures LineKey(line).Some? ==> |LineKey(line).value| >= 1
  {
    if EntryKey(line).Some? {
      assert line[..3] == EntryOpen;
      assert !IsSpace(line[0]);
      assert TrimLeft(line) == line;
      StripKeepsPrefix(line, DefinitionPrefix);
    }
  }

  /** An indented definition passes the strip test but yields no key, since
      the anchored match needs `L["` at column 0. */
  lemma IndentedDefinitionDropped(line: string)
    requires line != [] && IsSpace(line[0])
    requires StartsWith(TrimLeft(line), EntryOpen)
    ensures StartsWith(Strip(line), DefinitionPrefix)
    ensures LineKey(line).None?
  {
    StripKeepsPrefix(line, DefinitionPrefix);
    var t := TrimLeft(line);
    assert t[..2] == t[..3][..2];
  }

  /** Lines are processed independently and in order: the entries of two
      stretches of the file are the entries of each, one after the other,
      with every repeated definition kept. */
  lemma EntriesAppend(a: seq<string>, b: seq<string>)
    ensures Entries(a + b) == Entries(a) + Entries(b)
  {
    CollectAppend(a, b, LineKey);
  }

  /** A key is an entry exactly when some line of the file defines it. */
  lemma EntriesMembership(lines: seq<string>, key: string)
    ensures key in Entries(lines) <==> exists i :: 0 <= i < |lines| && LineKey(lines[i]) == Some(key)
  {
    CollectMembership(lines, LineKey, key);
  }

  /** A line holding two definitions, `L["A"] = L["B"] = 1` and its newline. */
  const TwoDefinitions: string := EntryOpen + GreedyKey + "\"] = 1\n"

  /** The key the greedy capture takes from `TwoDefinitions`. */
  const GreedyKey: string := "A\"] = L[\"B"

  /** The line of `TwoDefinitions` ends at index 19. */
  lemma TwoDefinitionsNewline()
    ensures NewlineFrom(TwoDefinitions, 3) == 19
  {
    var line := TwoDefinitions;
    assert forall k :: 3 <= k < 19 ==> line[k] != '\n';
    assert line[19] == '\n';
  }

  /** The last `"] ` of `TwoDefinitions` starts at index 13. */
  lemma TwoDefinitionsLastClose()
    ensures LastCloseFrom(TwoDefinitions, 19) == Some(13)
  {
    var line := TwoDefinitions;
    assert line[13..16] == EntryClose;
    forall k | 14 <= k <= 19 ensures !CloseAt(line, k) {
      assert line[k] != '"';
      assert k + 3 <= |line| ==> line[k..k + 3][0] == line[k];
    }
  }

  /** The anchored match of `TwoDefinitions` captures up to index 13. */
  lemma TwoDefinitionsMatch()
    ensures EntryKey(TwoDefinitions) == Some(GreedyKey)
  {
    var line := TwoDefinitions;
    TwoDefinitionsNewline();
    TwoDefinitionsLastClose();
    assert line[..3] == EntryOpen;
    assert line[3..13] == GreedyKey;
  }

  /** The capture is greedy: on a line holding two definitions the key runs
      from the first `L["` to the second `"] `. */
  lemma GreedyCaptureExample()
    ensures LineKey(TwoDefinitions) == Some(GreedyKey)
  {
    TwoDefinitionsMatch();
    StripTestIsRedundant(TwoDefinitions);
  }

  /** A definition indented by two spaces passes the strip test and is dropped. */
  lemma IndentedDefinitionExample()
    ensures StartsWith(Strip("  L[\"A\"] = 1\n"), DefinitionPrefix)
    ensures LineKey("  L[\"A\"] = 1\n").None?
  {
    IndentedDefinitionDropped("  L[\"A\"] = 1\n");
  }
}
