/** scripts/validate_locales.py: collects the locale entries and the `L.Key`
    references of the source files, then reports entries nobody references
    and references nobody defines. The source files are given as a list of
    (path, lines) pairs, "Bindings.lua" first and then the files under src,
    in the order the directory walk yields them. */
module ValidateLocales {
  import opened Text
  import opened LocalePatterns
  import opened LocaleEntries

  /** A scanned file: its path and its lines. */
  type SourceFile = (string, seq<string>)

  /** Where a reference was seen: a path and a 1-based line number. */
  datatype Location = Location(path: string, line: nat)

  /** The text the script stores for a location: `f"{path} (line: {lineNum})"`. */
  function Render(loc: Location): string {
    loc.path + " (line: " + Digits(loc.line) + ")"
  }

  /** Keeping the (path, line) pair instead of its text loses nothing: two
      locations with the same text are the same location. */
  lemma RenderInjective(a: Location, b: Location)
    requires Render(a) == Render(b)
    ensures a == b
  {
    var da, db := Digits(a.line), Digits(b.line);
    var s := Render(a);
    var n := |s|;
    assert s == a.path + " (line: " + da + ")";
    assert s == b.path + " (line: " + db + ")";
    assert s[n - 2 - |da|] == ' ' && s[n - 2 - |db|] == ' ';
    forall k | n - 1 - |da| <= k < n - 1 ensures '0' <= s[k] <= '9' {
      assert s[k] == da[k - (n - 1 - |da|)];
    }
    forall k | n - 1 - |db| <= k < n - 1 ensures '0' <= s[k] <= '9' {
      assert s[k] == db[k - (n - 1 - |db|)];
    }
    assert |da| == |db|;
    assert da == s[n - 1 - |da|..n - 1] == db;
    DigitsInjective(a.line, b.line);
    assert a.path == s[..n - 9 - |da|] == b.path;
  }

  /** One recorded reference: the key and where it was seen. */
  datatype Hit = Hit(key: string, at: Location)

  /** What line number `n` (1-based) of `path` contributes: the first match only. */
  function LineHits(path: string, n: nat, line: string): seq<Hit> {
    match FirstReference(line)
    case None => []
    case Some(key) => [Hit(key, Location(path, n))]
  }

  /** The references of the first `n` lines of one file, line by line. */
  function FileHits(path: string, lines: seq<string>, n: nat): seq<Hit>
    requires n <= |lines|
    decreases n
  {
    if n == 0 then [] else FileHits(path, lines, n - 1) + LineHits(path, n, lines[n - 1])
  }

  /** All references in scan order: files in the given order, lines in file order. */
  function Hits(files: seq<SourceFile>): seq<Hit>
    decreases |files|
  {
    if files == [] then []
    else Hits(files[..|files| - 1]) + FileHits(files[|files| - 1].0, files[|files| - 1].1, |files[|files| - 1].1|)
  }

  /** The keys of the hits, in order. */
  function KeysOf(hits: seq<Hit>): (r: seq<string>)
    ensures |r| == |hits| && forall i :: 0 <= i < |hits| ==> r[i] == hits[i].key
    decreases |hits|
  {
    if hits == [] then [] else KeysOf(hits[..|hits| - 1]) + [hits[|hits| - 1].key]
  }

  /** The dict `getReferences` builds: each hit in turn creates its key with
      an empty list if absent, then appends its location. Each key comes
      from some hit, so there are no more keys than hits. */
  function Group(hits: seq<Hit>): (r: map<string, seq<Location>>)
    ensures |r| <= |hits|
    decreases |hits|
  {
    if hits == [] then map[]
    else
      var m := Group(hits[..|hits| - 1]);
      var h := hits[|hits| - 1];
      m[h.key := (if h.key in m then m[h.key] else []) + [h.at]]
  }

  /** `[h.at for h in hits if h.key == key]`, the reference definition of a key's list. */
  function Locs(hits: seq<Hit>, key: string): seq<Location>
    decreases |hits|
  {
    if hits == [] then []
    else Locs(hits[..|hits| - 1], key) + (if hits[|hits| - 1].key == key then [hits[|hits| - 1].at] else [])
  }

  /** The dict holds exactly the keys of the hits, and each key's list is
      the locations of that key's hits, in scan order, never empty. */
  lemma {:induction false} GroupIsLocs(hits: seq<Hit>, key: string)
    ensures key in Group(hits) <==> key in KeysOf(hits)
    ensures key in Group(hits) ==> Group(hits)[key] == Locs(hits, key) != []
    ensures key !in Group(hits) ==> Locs(hits, key) == []
    decreases |hits|
  {
    if hits != [] {
      var pre := hits[..|hits| - 1];
      GroupIsLocs(pre, key);
      assert KeysOf(hits) == KeysOf(pre) + [hits[|hits| - 1].key];
    }
  }

  /** Inserting one more hit: the dict step of lines 37-39 and the key order it produces. */
  lemma GroupStep(hits: seq<Hit>, h: Hit)
    ensures Group(hits + [h]) ==
              Group(hits)[h.key := (if h.key in Group(hits) then Group(hits)[h.key] else []) + [h.at]]
    ensures Distinct(KeysOf(hits + [h])) ==
              if h.key in Group(hits) then Distinct(KeysOf(hits)) else Distinct(KeysOf(hits)) + [h.key]
  {
    assert (hits + [h])[..|hits|] == hits;
    assert KeysOf(hits + [h])[..|hits|] == KeysOf(hits);
    GroupIsLocs(hits, h.key);
  }

  /** Scanning line `i` (number `i + 1`) appends that line's reference. */
  lemma ScanStep(path: string, lines: seq<string>, i: nat, done: seq<Hit>, hits: seq<Hit>)
    requires i < |lines| && hits == done + FileHits(path, lines, i)
    ensures done + FileHits(path, lines, i + 1) == hits + LineHits(path, i + 1, lines[i])
  {
  }

  /** The inner loop body of `getReferences` for one reference: create the key with
      an empty list if it is new, then append the location. */
  method Record(ghost hits: seq<Hit>, references0: map<string, seq<Location>>, order0: seq<string>,
                key: string, loc: Location)
    returns (references: map<string, seq<Location>>, order: seq<string>)
    requires references0 == Group(hits) && order0 == Distinct(KeysOf(hits))
    ensures references == Group(hits + [Hit(key, loc)])
    ensures order == Distinct(KeysOf(hits + [Hit(key, loc)]))
  {
    GroupStep(hits, Hit(key, loc));
    references, order := references0, order0;
    if key !in references {
      references := references[key := []];
      order := order + [key];
    }
    references := references[key := references[key] + [loc]];
  }

  /** The body of the line loop of `getReferences`: searches line number
      `lineNum` for its first reference and records it. */
  method ScanLine(path: string, lineNum: nat, line: string, ghost hits: seq<Hit>,
                  references0: map<string, seq<Location>>, order0: seq<string>)
    returns (references: map<string, seq<Location>>, order: seq<string>)
    requires references0 == Group(hits) && order0 == Distinct(KeysOf(hits))
    ensures references == Group(hits + LineHits(path, lineNum, line))
    ensures order == Distinct(KeysOf(hits + LineHits(path, lineNum, line)))
  {
    references, order := references0, order0;
    var found := FirstReference(line);
    if found.Some? {
      var key := found.value;
      var loc := Location(path, lineNum);
      assert LineHits(path, lineNum, line) == [Hit(key, loc)];
      references, order := Record(hits, references, order, key, loc);
    } else {
      assert hits + LineHits(path, lineNum, line) == hits;
    }
  }

  /** The body of `getReferences` for one file: scans its lines with the
      1-based counter `lineNum`, extending the dict and its key order. */
  method ScanFile(path: string, lines: seq<string>, ghost done: seq<Hit>,
                  references0: map<string, seq<Location>>, order0: seq<string>)
    returns (references: map<string, seq<Location>>, order: seq<string>)
    requires references0 == Group(done) && order0 == Distinct(KeysOf(done))
    ensures references == Group(done + FileHits(path, lines, |lines|))
    ensures order == Distinct(KeysOf(done + FileHits(path, lines, |lines|)))
  {
    references, order := references0, order0;
    var lineNum := 0;
    ghost var hits := done;
    assert done + [] == done;
    for i := 0 to |lines|
      invariant lineNum == i
      invariant hits == done + FileHits(path, lines, i)
      invariant references == Group(hits) && order == Distinct(KeysOf(hits))
    {
      lineNum := lineNum + 1;
      ScanStep(path, lines, i, done, hits);
      references, order := ScanLine(path, lineNum, lines[i], hits, references, order);
      hits := hits + LineHits(path, lineNum, lines[i]);
    }
  }

  /** `getReferences`: the dict from key to locations, and the order in
      which its keys were inserted (a Python dict's iteration order). */
  method GetReferences(files: seq<SourceFile>) returns (references: map<string, seq<Location>>, order: seq<string>)
    ensures references == Group(Hits(files))
    ensures order == Distinct(KeysOf(Hits(files)))
  {
    references, order := map[], [];
    for f := 0 to |files|
      invariant references == Group(Hits(files[..f]))
      invariant order == Distinct(KeysOf(Hits(files[..f])))
    {
      assert files[..f + 1][..f] == files[..f];
      references, order := ScanFile(files[f].0, files[f].1, Hits(files[..f]), references, order);
    }
    assert files[..|files|] == files;
  }

  /** At most one reference is recorded per line: the references of the
      first `n` lines number at most `n`, and no two share a line number. */
  lemma AtMostOnePerLine(path: string, lines: seq<string>, n: nat)
    requires n <= |lines|
    ensures |FileHits(path, lines, n)| <= n
    ensures forall i, j :: 0 <= i < j < |FileHits(path, lines, n)| ==>
              FileHits(path, lines, n)[i].at.line < FileHits(path, lines, n)[j].at.line
  {
    FileHitsCount(path, lines, n);
    FileHitsInLineOrder(path, lines, n);
    InLineOrderPairwise(FileHits(path, lines, n));
  }

  lemma {:induction false} FileHitsCount(path: string, lines: seq<string>, n: nat)
    requires n <= |lines|
    ensures |FileHits(path, lines, n)| <= n
    decreases n
  {
    if n > 0 {
      FileHitsCount(path, lines, n - 1);
      LineHitsAt(path, n, lines[n - 1]);
    }
  }

  /** The key `key` is recorded at line `loc.line` of a file named `loc.path`. */
  ghost predicate SeenAt(files: seq<SourceFile>, key: string, loc: Location) {
    exists f :: 0 <= f < |files| && files[f].0 == loc.path && 1 <= loc.line <= |files[f].1|
                && FirstReference(files[f].1[loc.line - 1]) == Some(key)
  }

  lemma {:induction false} FileHitsSound(path: string, lines: seq<string>, n: nat, h: Hit)
    requires n <= |lines| && h in FileHits(path, lines, n)
    ensures h.at.path == path && 1 <= h.at.line <= n
    ensures FirstReference(lines[h.at.line - 1]) == Some(h.key)
    decreases n
  {
    var hs, extra := FileHits(path, lines, n - 1), LineHits(path, n, lines[n - 1]);
    assert FileHits(path, lines, n) == hs + extra;
    if h in hs {
      FileHitsSound(path, lines, n - 1, h);
    } else {
      assert h == Hit(FirstReference(lines[n - 1]).value, Location(path, n));
    }
  }

  lemma {:induction false} FileHitsComplete(path: string, lines: seq<string>, n: nat, i: nat)
    requires i < n <= |lines| && FirstReference(lines[i]).Some?
    ensures Hit(FirstReference(lines[i]).value, Location(path, i + 1)) in FileHits(path, lines, n)
    decreases n
  {
    var hs, extra := FileHits(path, lines, n - 1), LineHits(path, n, lines[n - 1]);
    assert FileHits(path, lines, n) == hs + extra;
    if i < n - 1 {
      FileHitsComplete(path, lines, n - 1, i);
    } else {
      assert extra == [Hit(FirstReference(lines[i]).value, Location(path, i + 1))];
    }
  }

  lemma {:induction false} HitsSound(files: seq<SourceFile>, h: Hit)
    requires h in Hits(files)
    ensures SeenAt(files, h.key, h.at)
    decreases |files|
  {
    var pre, last := files[..|files| - 1], files[|files| - 1];
    if h in Hits(pre) {
      HitsSound(pre, h);
      var f :| 0 <= f < |pre| && pre[f].0 == h.at.path && 1 <= h.at.line <= |pre[f].1|
                && FirstReference(pre[f].1[h.at.line - 1]) == Some(h.key);
      assert files[f] == pre[f];
    } else {
      FileHitsSound(last.0, last.1, |last.1|, h);
      assert files[|files| - 1] == last;
    }
  }

  lemma {:induction false} HitsComplete(files: seq<SourceFile>, f: nat, i: nat)
    requires f < |files| && i < |files[f].1| && FirstReference(files[f].1[i]).Some?
    ensures Hit(FirstReference(files[f].1[i]).value, Location(files[f].0, i + 1)) in Hits(files)
    decreases |files|
  {
    var pre := files[..|files| - 1];
    if f < |pre| {
      assert pre[f] == files[f];
      HitsComplete(pre, f, i);
    } else {
      FileHitsComplete(files[f].0, files[f].1, |files[f].1|, i);
    }
  }

  /** What the reference dict means: a key is in it exactly when some line
      of some file has it as its first reference; every list is non-empty;
      every location in a list names such a line (1-based); and every such
      line's location is in its key's list. */
  lemma ReferencesSpec(files: seq<SourceFile>, key: string)
    ensures key in Group(Hits(files)) ==> Group(Hits(files))[key] != []
    ensures key in Group(Hits(files)) ==> forall loc :: loc in Group(Hits(files))[key] ==> SeenAt(files, key, loc)
    ensures forall f, i :: 0 <= f < |files| && 0 <= i < |files[f].1| && FirstReference(files[f].1[i]) == Some(key) ==>
              key in Group(Hits(files)) && Location(files[f].0, i + 1) in Group(Hits(files))[key]
  {
    var hits := Hits(files);
    GroupIsLocs(hits, key);
    forall loc | key in Group(hits) && loc in Group(hits)[key] ensures SeenAt(files, key, loc) {
      LocsSound(hits, key, loc);
      HitsSound(files, Hit(key, loc));
    }
    forall f, i | 0 <= f < |files| && 0 <= i < |files[f].1| && FirstReference(files[f].1[i]) == Some(key)
      ensures key in Group(hits) && Location(files[f].0, i + 1) in Group(hits)[key]
    {
      HitsComplete(files, f, i);
      LocsComplete(hits, Hit(key, Location(files[f].0, i + 1)));
    }
  }

  lemma {:induction false} LocsSound(hits: seq<Hit>, key: string, loc: Location)
    requires loc in Locs(hits, key)
    ensures Hit(key, loc) in hits
    decreases |hits|
  {
    var pre := hits[..|hits| - 1];
    if loc in Locs(pre, key) {
      LocsSound(pre, key, loc);
    }
  }

  lemma {:induction false} LocsComplete(hits: seq<Hit>, h: Hit)
    requires h in hits
    ensures h.at in Locs(hits, h.key) && h.key in Group(hits)
    decreases |hits|
  {
    var pre := hits[..|hits| - 1];
    if h in pre {
      LocsComplete(pre, h);
    }
    GroupIsLocs(hits, h.key);
  }

  /** Line numbers strictly increase along `locs`: each location's line
      comes after the line of the one before it. */
  predicate IncreasingLines(locs: seq<Location>)
    decreases |locs|
  {
    |locs| <= 1
    || (IncreasingLines(locs[..|locs| - 1]) && locs[|locs| - 2].line < locs[|locs| - 1].line)
  }

  /** Appending at most one location numbered `n` after locations numbered below `n`. */
  lemma IncreasingAppend(xs: seq<Location>, ys: seq<Location>, n: nat)
    requires IncreasingLines(xs) && |ys| <= 1
    requires forall x :: x in xs ==> x.line < n
    requires forall y :: y in ys ==> y.line == n
    ensures IncreasingLines(xs + ys)
  {
    var all := xs + ys;
    if ys == [] {
      assert all == xs;
    } else if xs == [] {
      assert all == ys;
    } else {
      assert all[..|all| - 1] == xs;
      assert all[|all| - 2] == xs[|xs| - 1] && xs[|xs| - 1] in xs;
      assert all[|all| - 1] == ys[0] && ys[0] in ys;
      assert all[|all| - 2].line < all[|all| - 1].line;
    }
  }

  /** Line numbers strictly increase along `hits`. */
  predicate HitsInLineOrder(hits: seq<Hit>)
    decreases |hits|
  {
    |hits| <= 1
    || (HitsInLineOrder(hits[..|hits| - 1]) && hits[|hits| - 2].at.line < hits[|hits| - 1].at.line)
  }

  /** In hits ordered by line, every hit before the last has a smaller line. */
  lemma {:induction false} BeforeLast(hits: seq<Hit>, h: Hit)
    requires hits != [] && HitsInLineOrder(hits) && h in hits[..|hits| - 1]
    ensures h.at.line < hits[|hits| - 1].at.line
    decreases |hits|
  {
    var pre := hits[..|hits| - 1];
    if h != pre[|pre| - 1] {
      assert h in pre[..|pre| - 1];
      BeforeLast(pre, h);
    }
  }

  /** In hits ordered by line, every earlier hit has a smaller line than every later one. */
  lemma {:induction false} InLineOrderPairwise(hits: seq<Hit>)
    requires HitsInLineOrder(hits)
    ensures forall i, j :: 0 <= i < j < |hits| ==> hits[i].at.line < hits[j].at.line
    decreases |hits|
  {
    if hits != [] {
      var pre := hits[..|hits| - 1];
      assert HitsInLineOrder(pre);
      InLineOrderPairwise(pre);
      forall i, j | 0 <= i < j < |hits| ensures hits[i].at.line < hits[j].at.line {
        assert pre[i] == hits[i];
        if j < |pre| {
          assert pre[j] == hits[j];
        } else {
          BeforeLast(hits, pre[i]);
        }
      }
    }
  }

  /** A key's locations in hits ordered by line are ordered by line. */
  lemma {:induction false} LocsIncrease(hits: seq<Hit>, key: string)
    requires HitsInLineOrder(hits)
    ensures IncreasingLines(Locs(hits, key))
    decreases |hits|
  {
    if hits != [] {
      var pre, last := hits[..|hits| - 1], hits[|hits| - 1];
      assert HitsInLineOrder(pre);
      LocsIncrease(pre, key);
      forall loc | loc in Locs(pre, key) ensures loc.line < last.at.line {
        LocsSound(pre, key, loc);
        BeforeLast(hits, Hit(key, loc));
      }
      var extra := if last.key == key then [last.at] else [];
      IncreasingAppend(Locs(pre, key), extra, last.at.line);
    }
  }

  /** The hits of one line: none, or one carrying that line's number. */
  /** A line contributes at most one hit, and it carries that line's number. */
  lemma LineHitsAt(path: string, n: nat, line: string)
    ensures |LineHits(path, n, line)| <= 1
    ensures LineHits(path, n, line) != [] ==> LineHits(path, n, line)[0].at.line == n
  {
  }

  /** Appending at most one hit at line `n` after hits ordered up to line `n - 1`. */
  lemma HitsAppendInOrder(xs: seq<Hit>, ys: seq<Hit>, all: seq<Hit>, n: nat)
    requires HitsInLineOrder(xs)
    requires xs != [] ==> xs[|xs| - 1].at.line <= n - 1
    requires |ys| <= 1
    requires ys != [] ==> ys[0].at.line == n
    requires all == xs + ys
    ensures HitsInLineOrder(all)
    ensures all != [] ==> all[|all| - 1].at.line <= n
  {
    if ys == [] {
      assert all == xs;
    } else if xs == [] {
      assert all == ys;
    } else {
      assert all[..|all| - 1] == xs;
      assert all[|all| - 2] == xs[|xs| - 1];
      assert all[|all| - 1] == ys[0];
    }
  }

  /**
   * One file's hits come in strictly increasing line order, the last one at
   * most at line `n`.
   */
  lemma {:induction false} FileHitsInLineOrder(path: string, lines: seq<string>, n: nat)
    requires n <= |lines|
    ensures HitsInLineOrder(FileHits(path, lines, n))
    ensures FileHits(path, lines, n) != [] ==> FileHits(path, lines, n)[|FileHits(path, lines, n)| - 1].at.line <= n
    decreases n
  {
    if n > 0 {
      FileHitsInLineOrder(path, lines, n - 1);
      LineHitsAt(path, n, lines[n - 1]);
      HitsAppendInOrder(FileHits(path, lines, n - 1), LineHits(path, n, lines[n - 1]), FileHits(path, lines, n), n);
    }
  }

  /** Within one file a key's locations come in increasing line order. */
  lemma FileLocsIncrease(path: string, lines: seq<string>, key: string)
    ensures IncreasingLines(Locs(FileHits(path, lines, |lines|), key))
  {
    FileHitsInLineOrder(path, lines, |lines|);
    LocsIncrease(FileHits(path, lines, |lines|), key);
  }

  /** The locations of a key in two stretches of hits are those of each, in order. */
  lemma {:induction false} LocsAppend(a: seq<Hit>, b: seq<Hit>, key: string)
    ensures Locs(a + b, key) == Locs(a, key) + Locs(b, key)
    decreases |b|
  {
    if b == [] {
      assert a + b == a;
    } else {
      var b' := b[..|b| - 1];
      assert (a + b)[..|a + b| - 1] == a + b';
      LocsAppend(a, b', key);
    }
  }

  /** `[e for e in entries if e not in references.keys()]`. */
  function UnusedEntries(entries: seq<string>, references: map<string, seq<Location>>): (r: seq<string>)
    ensures forall e :: e in r <==> e in entries && e !in references
    ensures forall e :: multiset(r)[e] == if e in references then 0 else multiset(entries)[e]
    ensures IsSubsequence(r, entries)
  {
    FilterOrder(entries, e => e !in references);
    Filter(entries, e => e !in references)
  }

  /** `[e for e in references.keys() if e not in entries]`, the keys taken in insertion order. */
  function UndefinedReferences(order: seq<string>, entries: seq<string>): (r: seq<string>)
    ensures forall e :: e in r <==> e in order && e !in entries
    ensures IsSubsequence(r, order)
  {
    FilterOrder(order, e => e !in entries);
    Filter(order, e => e !in entries)
  }

  /** The undefined references list each key once, in first-seen order. */
  lemma UndefinedReferencesDistinct(files: seq<SourceFile>, entries: seq<string>)
    ensures NoDuplicates(UndefinedReferences(Distinct(KeysOf(Hits(files))), entries))
  {
    FilterNoDuplicates(Distinct(KeysOf(Hits(files))), e => e !in entries);
  }

  /** The whole script: entries, references, the two reports and the exit status. */
  method Validate(localeLines: seq<string>, files: seq<SourceFile>)
    returns (unusedEntries: seq<string>, undefinedReferences: seq<string>, status: int)
    ensures unusedEntries == UnusedEntries(Entries(localeLines), Group(Hits(files)))
    ensures undefinedReferences == UndefinedReferences(Distinct(KeysOf(Hits(files))), Entries(localeLines))
    ensures status == 0 || status == 1
    ensures status == 0 <==> forall key :: key in Entries(localeLines) <==> key in Group(Hits(files))
  {
    var entries := GetEntries(localeLines);
    var references, order := GetReferences(files);
    unusedEntries := UnusedEntries(entries, references);
    undefinedReferences := UndefinedReferences(order, entries);
    forall key ensures key in order <==> key in references {
      GroupIsLocs(Hits(files), key);
    }
    if |unusedEntries| > 0 || |undefinedReferences| > 0 {
      status := 1;
      if |unusedEntries| > 0 {
        assert unusedEntries[0] in unusedEntries;
      } else {
        assert undefinedReferences[0] in undefinedReferences;
      }
    } else {
      status := 0;
      assert forall key :: key !in unusedEntries && key !in undefinedReferences;
    }
  }

  /** The two reports never share a key. */
  lemma ReportsDisjoint(entries: seq<string>, files: seq<SourceFile>, key: string)
    ensures !(key in UnusedEntries(entries, Group(Hits(files)))
              && key in UndefinedReferences(Distinct(KeysOf(Hits(files))), entries))
  {
    GroupIsLocs(Hits(files), key);
  }
}
