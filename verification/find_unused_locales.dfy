/** scripts/find_unused_locales.py: the substring check. It counts, for every
    entry, the lines of the scanned files that contain the entry as a plain
    substring, and reports the entries no line contains. */
module FindUnusedLocales {
  import opened Text
  import opened LocalePatterns
  import opened LocaleEntries
  import opened ValidateLocales

  /** The number of lines that contain `entry` (`entry in line`); each line
      counts at most once. */
  function LinesWith(lines: seq<string>, entry: string): (r: nat)
    ensures r <= |lines|
    decreases |lines|
  {
    if lines == [] then 0
    else LinesWith(lines[..|lines| - 1], entry) + (if Contains(lines[|lines| - 1], entry) then 1 else 0)
  }

  /** `findUses(entries, path)`: a counter per entry, bumped once for every
      (line, position in `entries`) pair whose line contains the entry. It
      counts lines, not occurrences within a line, and an entry listed twice
      is bumped twice per line. */
  method FindUses(entries: seq<string>, lines: seq<string>) returns (uses: map<string, int>)
    ensures uses.Keys == set e | e in entries
    ensures forall e :: e in uses ==> uses[e] == LinesWith(lines, e) * multiset(entries)[e] >= 0
  {
    uses := map e | e in entries :: 0;
    for i := 0 to |lines|
      invariant uses.Keys == set e | e in entries
      invariant forall e :: e in uses ==> uses[e] == LinesWith(lines[..i], e) * multiset(entries)[e]
    {
      var counted := CountLine(entries, lines[i], uses);
      forall e | e in counted
        ensures counted[e] == LinesWith(lines[..i + 1], e) * multiset(entries)[e]
      {
        LinesStep(lines, i, e, multiset(entries)[e]);
      }
      uses := counted;
    }
    assert lines[..|lines|] == lines;
  }

  /** Scanning line `i` adds one per listing of the entry when the line contains it. */
  lemma LinesStep(lines: seq<string>, i: nat, e: string, m: nat)
    requires i < |lines|
    ensures LinesWith(lines[..i + 1], e) * m
            == LinesWith(lines[..i], e) * m + (if Contains(lines[i], e) then m else 0)
  {
    assert lines[..i + 1][..i] == lines[..i];
    var n := LinesWith(lines[..i], e);
    assert (n + 1) * m == n * m + m;
  }

  /** The inner loop of `findUses` on one line: every position of `entries`
      whose entry the line contains bumps that entry's counter once. */
  method CountLine(entries: seq<string>, line: string, uses0: map<string, int>) returns (uses: map<string, int>)
    requires forall e :: e in entries ==> e in uses0
    ensures uses.Keys == uses0.Keys
    ensures forall e :: e in uses ==> uses[e] == uses0[e] + (if Contains(line, e) then multiset(entries)[e] else 0)
  {
    uses := uses0;
    for j := 0 to |entries|
      invariant uses.Keys == uses0.Keys
      invariant forall e :: e in uses ==> uses[e] == uses0[e] + (if Contains(line, e) then multiset(entries[..j])[e] else 0)
    {
      var entry := entries[j];
      assert entries[..j + 1] == entries[..j] + [entry];
      if Contains(line, entry) {
        uses := uses[entry := uses[entry] + 1];
      }
    }
    assert entries[..|entries|] == entries;
  }

  /** The number of lines, over all scanned files, that contain `entry`. */
  function TotalLinesWith(files: seq<SourceFile>, entry: string): nat
    decreases |files|
  {
    if files == [] then 0
    else TotalLinesWith(files[..|files| - 1], entry) + LinesWith(files[|files| - 1].1, entry)
  }

  /** `for k in uses.keys(): totalUses[k] += uses[k]`, the keys of `uses` listed in `keys`. */
  method AddUses(totalUses0: map<string, int>, uses: map<string, int>, keys: seq<string>)
    returns (totalUses: map<string, int>)
    requires NoDuplicates(keys)
    requires forall k :: k in keys ==> k in totalUses0 && k in uses
    ensures totalUses.Keys == totalUses0.Keys
    ensures forall e :: e in totalUses ==> totalUses[e] == totalUses0[e] + (if e in keys then uses[e] else 0)
  {
    totalUses := totalUses0;
    for j := 0 to |keys|
      invariant totalUses.Keys == totalUses0.Keys
      invariant forall e :: e in totalUses ==> totalUses[e] == totalUses0[e] + (if e in keys[..j] then uses[e] else 0)
    {
      var k := keys[j];
      assert keys[..j + 1] == keys[..j] + [k];
      assert k !in keys[..j];
      totalUses := totalUses[k := totalUses[k] + uses[k]];
    }
    assert keys[..|keys|] == keys;
  }

  /** Scanning file `f` adds its count to the running total, however many
      times the entry is listed. */
  lemma TotalStep(files: seq<SourceFile>, f: nat, e: string, m: nat)
    requires f < |files|
    ensures TotalLinesWith(files[..f + 1], e) * m
            == TotalLinesWith(files[..f], e) * m + LinesWith(files[f].1, e) * m
  {
    assert files[..f + 1][..f] == files[..f];
    var n, d := TotalLinesWith(files[..f], e), LinesWith(files[f].1, e);
    assert TotalLinesWith(files[..f + 1], e) == n + d;
    assert (n + d) * m == n * m + d * m;
  }

  /** The loop of `findUnused`: `totalUses` starts as `dict.fromkeys(entries, 0)`
      and receives the counters of each file in turn. */
  method TotalUses(entries: seq<string>, files: seq<SourceFile>, keys: seq<string>)
    returns (totalUses: map<string, int>)
    requires keys == Distinct(entries)
    ensures totalUses.Keys == set e | e in entries
    ensures forall e :: e in totalUses ==> totalUses[e] == TotalLinesWith(files, e) * multiset(entries)[e]
  {
    totalUses := map e | e in entries :: 0;
    for f := 0 to |files|
      invariant totalUses.Keys == set e | e in entries
      invariant forall e :: e in totalUses ==> totalUses[e] == TotalLinesWith(files[..f], e) * multiset(entries)[e]
    {
      var uses := FindUses(entries, files[f].1);
      totalUses := AddUses(totalUses, uses, keys);
      forall e | e in totalUses
        ensures totalUses[e] == TotalLinesWith(files[..f + 1], e) * multiset(entries)[e]
      {
        TotalStep(files, f, e, multiset(entries)[e]);
      }
    }
    assert files[..|files|] == files;
  }

  /** `findUnused`: the entries, in the key order of `dict.fromkeys(entries, 0)`
      (first occurrence, no repeats), whose total count is zero. */
  method FindUnused(entries: seq<string>, files: seq<SourceFile>) returns (unused: seq<string>)
    ensures unused == Filter(Distinct(entries), e => TotalLinesWith(files, e) == 0)
  {
    var keys := Distinct(entries);
    var totalUses := TotalUses(entries, files, keys);
    ZeroTotals(entries, files, keys, totalUses);
    unused := Filter(keys, e => e in totalUses && totalUses[e] == 0);
    FilterCongruent(keys, e => e in totalUses && totalUses[e] == 0, e => TotalLinesWith(files, e) == 0);
  }

  /** An entry's total is zero exactly when no line contains it, since the
      entry occurs at least once in the list. */
  lemma ZeroTotals(entries: seq<string>, files: seq<SourceFile>, keys: seq<string>, totalUses: map<string, int>)
    requires forall e :: e in keys ==> e in entries
    requires forall e :: e in entries ==> e in totalUses && totalUses[e] == TotalLinesWith(files, e) * multiset(entries)[e]
    ensures forall e :: e in keys ==> (e in totalUses && totalUses[e] == 0) == (TotalLinesWith(files, e) == 0)
  {
    forall e | e in keys ensures (e in totalUses && totalUses[e] == 0) == (TotalLinesWith(files, e) == 0) {
      var n, m := TotalLinesWith(files, e), multiset(entries)[e];
      assert m >= 1;
      assert n > 0 ==> n * m > 0;
    }
  }

  /** `entry` is a substring of some line of some scanned file. */
  ghost predicate UsedSomewhere(files: seq<SourceFile>, entry: string) {
    exists f, i :: 0 <= f < |files| && 0 <= i < |files[f].1| && Contains(files[f].1[i], entry)
  }

  lemma {:induction false} LinesWithPositive(lines: seq<string>, entry: string)
    ensures LinesWith(lines, entry) > 0 <==> exists i :: 0 <= i < |lines| && Contains(lines[i], entry)
    decreases |lines|
  {
    if lines != [] {
      var pre := lines[..|lines| - 1];
      LinesWithPositive(pre, entry);
      assert forall i :: 0 <= i < |pre| ==> pre[i] == lines[i];
    }
  }

  /** A total of zero means no line of any file contains the entry. */
  lemma {:induction false} TotalLinesPositive(files: seq<SourceFile>, entry: string)
    ensures TotalLinesWith(files, entry) > 0 <==> UsedSomewhere(files, entry)
    decreases |files|
  {
    if files != [] {
      var pre, last := files[..|files| - 1], files[|files| - 1];
      TotalLinesPositive(pre, entry);
      LinesWithPositive(last.1, entry);
      assert forall f :: 0 <= f < |pre| ==> pre[f] == files[f];
      if UsedSomewhere(files, entry) {
        var f, i :| 0 <= f < |files| && 0 <= i < |files[f].1| && Contains(files[f].1[i], entry);
        if f < |pre| {
          assert UsedSomewhere(pre, entry);
        }
      }
      if UsedSomewhere(pre, entry) {
        var f, i :| 0 <= f < |pre| && 0 <= i < |pre[f].1| && Contains(pre[f].1[i], entry);
        assert files[f] == pre[f];
      }
      if LinesWith(last.1, entry) > 0 {
        var i :| 0 <= i < |last.1| && Contains(last.1[i], entry);
        assert files[|files| - 1] == last;
      }
    }
  }

  /** What `findUnused` returns: the distinct entries in first-occurrence
      order, keeping exactly those that no line of any file contains. */
  lemma FindUnusedSpec(entries: seq<string>, files: seq<SourceFile>, entry: string)
    ensures var r := Filter(Distinct(entries), e => TotalLinesWith(files, e) == 0);
            (entry in r <==> entry in entries && !UsedSomewhere(files, entry))
            && NoDuplicates(r) && IsSubsequence(r, Distinct(entries))
  {
    TotalLinesPositive(files, entry);
    FilterNoDuplicates(Distinct(entries), e => TotalLinesWith(files, e) == 0);
    FilterOrder(Distinct(entries), e => TotalLinesWith(files, e) == 0);
  }

  /** The whole script: entries, then `findUnused`, then the exit status,
      which is 1 exactly when some entry is contained in no scanned line. */
  method ReportUnused(localeLines: seq<string>, files: seq<SourceFile>) returns (unusedEntries: seq<string>, status: int)
    ensures unusedEntries == Filter(Distinct(Entries(localeLines)), e => TotalLinesWith(files, e) == 0)
    ensures status == 0 || status == 1
    ensures status == 0 <==> forall e :: e in Entries(localeLines) ==> UsedSomewhere(files, e)
  {
    var entries := GetEntries(localeLines);
    unusedEntries := FindUnused(entries, files);
    forall e ensures e in unusedEntries <==> e in entries && !UsedSomewhere(files, e) {
      FindUnusedSpec(entries, files, e);
    }
    if |unusedEntries| == 0 {
      status := 0;
      assert forall e :: e !in unusedEntries;
    } else {
      assert unusedEntries[0] in unusedEntries;
      status := 1;
    }
  }

  /** A key that validate_locales records as referenced is contained in the
      line it was found on, so the substring check counts it as used. */
  lemma ReferencedIsUsed(files: seq<SourceFile>, key: string)
    ensures key in Group(Hits(files)) ==> UsedSomewhere(files, key)
  {
    var hits := Hits(files);
    GroupIsLocs(hits, key);
    if key in Group(hits) {
      var loc := Group(hits)[key][0];
      LocsSound(hits, key, loc);
      HitsSound(files, Hit(key, loc));
      SeenAtIsUsed(files, key, loc);
    }
  }

  /** A key recorded at some line is contained in that line. */
  lemma SeenAtIsUsed(files: seq<SourceFile>, key: string, loc: Location)
    requires SeenAt(files, key, loc)
    ensures UsedSomewhere(files, key)
  {
    var f :| 0 <= f < |files| && files[f].0 == loc.path && 1 <= loc.line <= |files[f].1|
              && FirstReference(files[f].1[loc.line - 1]) == Some(key);
    LineWithReferenceIsUsed(files, f, loc.line - 1, key);
  }

  /** A line whose first reference is `key` contains `key`. */
  lemma LineWithReferenceIsUsed(files: seq<SourceFile>, f: nat, i: nat, key: string)
    requires f < |files| && i < |files[f].1| && FirstReference(files[f].1[i]) == Some(key)
    ensures UsedSomewhere(files, key)
  {
    ReferenceOccursInLine(files[f].1[i]);
  }

  /** Every entry the substring check reports is also an unused entry of
      validate_locales (the converse fails: see `SubstringMatchExample`). */
  lemma SubstringCheckReportsFewer(entries: seq<string>, files: seq<SourceFile>, entry: string)
    requires entry in Filter(Distinct(entries), e => TotalLinesWith(files, e) == 0)
    ensures entry in UnusedEntries(entries, Group(Hits(files)))
  {
    ReferencedIsUsed(files, entry);
    TotalLinesPositive(files, entry);
  }

  /** The line of `SubstringMatchExample`, `f(L.FooBar, L.Baz)` and its newline. */
  const ExampleText: string := "f(L." + "FooBar" + ", L.Baz)\n"

  /** The one scanned file of `SubstringMatchExample`. */
  const ExampleFiles: seq<SourceFile> := [("Bindings.lua", [ExampleText])]

  /** The word run after the example's first `L.` is `FooBar`. */
  lemma ExampleWord()
    ensures WordFrom(ExampleText, 4) == "FooBar"
  {
    var line := ExampleText;
    assert !IsWordChar(line[10]);
    assert WordFrom(line, 10) == [];
    assert WordFrom(line, 9) == "r";
    assert WordFrom(line, 8) == "ar";
    assert WordFrom(line, 7) == "Bar";
    assert WordFrom(line, 6) == "oBar";
    assert WordFrom(line, 5) == "ooBar";
  }

  /** The example line's one recorded reference is `FooBar`, and the line contains `Foo`. */
  lemma ExampleLine()
    ensures FirstReference(ExampleText) == Some("FooBar")
    ensures Contains(ExampleText, "Foo")
  {
    var line := ExampleText;
    ExampleWord();
    assert line[0] != 'L' && line[1] != 'L';
    assert RefAt(line, 2);
    assert FirstReference(line) == RefFrom(line, 1) == RefFrom(line, 2);
    assert line[4..7] == "Foo";
    assert OccursAt(line, "Foo", 4);
    ContainsSpec(line, "Foo");
  }

  /** validate_locales records the example's one reference, `FooBar` at line 1. */
  lemma ExampleHits()
    ensures Hits(ExampleFiles) == [Hit("FooBar", Location("Bindings.lua", 1))]
  {
    var line := ExampleText;
    ExampleLine();
    assert [line][..0] == [];
    assert FileHits("Bindings.lua", [line], 1) == [Hit("FooBar", Location("Bindings.lua", 1))];
    assert ExampleFiles[..0] == [];
  }

  /** The substring check finds `Foo` on the example's one line. */
  lemma ExampleTotal()
    ensures TotalLinesWith(ExampleFiles, "Foo") == 1
  {
    var line := ExampleText;
    ExampleLine();
    assert [line][..0] == [];
    assert LinesWith([line], "Foo") == 1;
    assert ExampleFiles[..0] == [];
  }

  /** validate_locales reports the entry `Foo` of the example as unused. */
  lemma ExampleUnused()
    ensures UnusedEntries(["Foo"], Group(Hits(ExampleFiles))) == ["Foo"]
  {
    ExampleHits();
    var hits := [Hit("FooBar", Location("Bindings.lua", 1))];
    assert hits[..0] == [];
    assert "Foo" !in Group(hits);
    assert ["Foo"][1..] == [];
  }

  /** The substring check does not report the entry `Foo` of the example. */
  lemma ExampleCounted()
    ensures Filter(Distinct(["Foo"]), e => TotalLinesWith(ExampleFiles, e) == 0) == []
  {
    ExampleTotal();
    assert ["Foo"][..0] == [];
    assert Distinct(["Foo"]) == ["Foo"];
    assert ["Foo"][1..] == [];
  }

  /** Matching ignores token boundaries: the line `f(L.FooBar, L.Baz)`
      references only `FooBar`, so validate_locales reports an entry `Foo`
      as unused while the substring check counts it as used. */
  lemma SubstringMatchExample()
    ensures UnusedEntries(["Foo"], Group(Hits(ExampleFiles))) == ["Foo"]
    ensures Filter(Distinct(["Foo"]), e => TotalLinesWith(ExampleFiles, e) == 0) == []
  {
    ExampleUnused();
    ExampleCounted();
  }
}
