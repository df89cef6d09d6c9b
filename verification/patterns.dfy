/** The two fixed regular expressions of the locale scripts, written out as
    searches over the characters of one line:

      definition pattern  `L\["(.+)"\] `   applied with `re.match` (anchored at column 0)
      reference pattern   `\bL\.(\w+)\b`   applied with `re.search` (leftmost match)

    Each search comes with a declarative predicate saying what a match of
    the pattern is, and a lemma tying the two together. */
module LocalePatterns {
  import opened Text

  /** The literal text before and after the captured key of a definition. */
  const EntryOpen: string := "L[\""
  const EntryClose: string := "\"] "

  /** The definition pattern matches `line` at column 0 with `key` as group 1:
      `L["`, then one or more characters other than a newline (what `.`
      matches), then `"] `. */
  ghost predicate EntryMatch(line: string, key: string) {
    |key| >= 1 && '\n' !in key && StartsWith(line, EntryOpen + key + EntryClose)
  }

  /** The closing text `"] ` starts at index `j`. */
  predicate CloseAt(line: string, j: int) {
    0 <= j && j + 3 <= |line| && line[j..j + 3] == EntryClose
  }

  /** The first newline at or after `i`, or the end of the line: `.` cannot run past it. */
  function NewlineFrom(line: string, i: nat): (r: nat)
    requires i <= |line|
    ensures i <= r <= |line|
    ensures r < |line| ==> line[r] == '\n'
    ensures forall k :: i <= k < r ==> line[k] != '\n'
    decreases |line| - i
  {
    if i == |line| || line[i] == '\n' then i else NewlineFrom(line, i + 1)
  }

  /** The rightmost close at an index in [4, j]: the one greedy backtracking of `.+` reaches first. */
  function LastCloseFrom(line: string, j: int): (r: Option<nat>)
    ensures r.Some? ==> 4 <= r.value <= j && CloseAt(line, r.value)
    ensures r.Some? ==> forall k :: r.value < k <= j ==> !CloseAt(line, k)
    ensures r.None? ==> forall k :: 4 <= k <= j ==> !CloseAt(line, k)
    decreases j
  {
    if j < 4 then None
    else if CloseAt(line, j) then Some(j)
    else LastCloseFrom(line, j - 1)
  }

  /** `re.match(LOCALE_ENTRY_PATTERN, line)`, giving group 1 when it matches. */
  function EntryKey(line: string): (r: Option<string>)
    ensures r.Some? ==> EntryMatch(line, r.value)
  {
    if !StartsWith(line, EntryOpen) then None
    else
      match LastCloseFrom(line, NewlineFrom(line, 3))
      case None => None
      case Some(j) =>
        assert line[..j + 3] == line[..3] + line[3..j] + line[j..j + 3];
        Some(line[3..j])
  }

  /** The match is found whenever the pattern can match, and the capture is
      the longest possible one: `.+` is greedy, so the key runs to the LAST
      `"] ` before the end of the line. */
  lemma EntryKeyGreedy(line: string, key: string)
    requires EntryMatch(line, key)
    ensures EntryKey(line).Some? && |key| <= |EntryKey(line).value|
  {
    var j0 := 3 + |key|;
    var whole := EntryOpen + key + EntryClose;
    assert line[..|whole|] == whole;
    assert line[..3] == EntryOpen;
    assert line[j0..j0 + 3] == whole[j0..j0 + 3] == EntryClose;
    forall k | 3 <= k < j0 ensures line[k] != '\n' {
      assert line[k] == whole[k] == key[k - 3];
    }
    assert CloseAt(line, j0);
  }

  /** `\bL\.` followed by at least one word character starts at `i`. The
      `\b` before `L` holds at column 0 or after a non-word character. */
  predicate RefAt(line: string, i: int) {
    0 <= i && i + 2 < |line| && line[i] == 'L' && line[i + 1] == '.' && IsWordChar(line[i + 2])
    && (i == 0 || !IsWordChar(line[i - 1]))
  }

  /** The reference pattern matches at `i` with `key` as group 1: the word
      run `key` follows `L.` and ends at a word boundary. */
  ghost predicate RefMatch(line: string, i: int, key: string) {
    0 <= i && i + 2 + |key| <= |line| && |key| >= 1
    && line[i] == 'L' && line[i + 1] == '.' && (i == 0 || !IsWordChar(line[i - 1]))
    && line[i + 2..i + 2 + |key|] == key
    && (forall c :: c in key ==> IsWordChar(c))
    && (i + 2 + |key| == |line| || !IsWordChar(line[i + 2 + |key|]))
  }

  /** The run of word characters starting at `i`: what `\w+` takes
      before the closing `\b`. */
  function WordFrom(line: string, i: nat): string
    requires i <= |line|
    decreases |line| - i
  {
    if i == |line| || !IsWordChar(line[i]) then [] else [line[i]] + WordFrom(line, i + 1)
  }

  /** `WordFrom` is the whole maximal run of word characters at `i`. */
  lemma {:induction false} WordFromRun(line: string, i: nat)
    requires i <= |line|
    ensures i + |WordFrom(line, i)| <= |line|
    ensures forall k :: 0 <= k < |WordFrom(line, i)| ==> WordFrom(line, i)[k] == line[i + k]
    ensures forall c :: c in WordFrom(line, i) ==> IsWordChar(c)
    ensures i + |WordFrom(line, i)| == |line| || !IsWordChar(line[i + |WordFrom(line, i)|])
    decreases |line| - i
  {
    if i < |line| && IsWordChar(line[i]) {
      WordFromRun(line, i + 1);
      var w := WordFrom(line, i + 1);
      assert WordFrom(line, i) == [line[i]] + w;
      forall k | 1 <= k < 1 + |w| ensures WordFrom(line, i)[k] == line[i + k] {
        assert WordFrom(line, i)[k] == w[k - 1];
      }
    }
  }

  /** The leftmost start of a reference at or after `i`. */
  function FindRef(line: string, i: nat): (r: Option<nat>)
    requires i <= |line|
    ensures r.Some? ==> i <= r.value && RefAt(line, r.value)
    decreases |line| - i
  {
    if i == |line| then None
    else if RefAt(line, i) then Some(i)
    else FindRef(line, i + 1)
  }

  /** `FindRef` skips no reference start: what it finds is the leftmost one
      at or after `i`, and when it finds none there is none. */
  lemma {:induction false} FindRefLeftmost(line: string, i: nat)
    requires i <= |line|
    ensures FindRef(line, i).Some? ==> forall k :: i <= k < FindRef(line, i).value ==> !RefAt(line, k)
    ensures FindRef(line, i).None? ==> forall k :: i <= k ==> !RefAt(line, k)
    decreases |line| - i
  {
    if i < |line| && !RefAt(line, i) {
      FindRefLeftmost(line, i + 1);
    }
  }

  /** The group of the leftmost reference at or after `i`. */
  function RefFrom(line: string, i: nat): Option<string>
    requires i <= |line|
    decreases |line| - i
  {
    if i == |line| then None
    else if RefAt(line, i) then Some(WordFrom(line, i + 2))
    else RefFrom(line, i + 1)
  }

  /** `re.search(LOCALE_REFERENCE_PATTERN, line)`, giving group 1 of the
      leftmost match: a non-empty run of word characters (`\w+`). */
  function FirstReference(line: string): (r: Option<string>)
    ensures r.Some? ==> r.value != [] && forall c :: c in r.value ==> IsWordChar(c)
  {
    RefFromFindRef(line, 0);
    if FindRef(line, 0).Some? then
      WordFromRun(line, FindRef(line, 0).value + 2);
      RefFrom(line, 0)
    else
      RefFrom(line, 0)
  }

  /** `RefFrom` takes the word run after the start `FindRef` finds. */
  lemma {:induction false} RefFromFindRef(line: string, i: nat)
    requires i <= |line|
    ensures FindRef(line, i).None? ==> RefFrom(line, i).None?
    ensures FindRef(line, i).Some? ==> RefFrom(line, i) == Some(WordFrom(line, FindRef(line, i).value + 2))
    decreases |line| - i
  {
    if i < |line| && !RefAt(line, i) {
      RefFromFindRef(line, i + 1);
    }
  }

  /** `FirstReference` finds a key exactly when the reference pattern matches
      somewhere in the line, and then it is the group of the leftmost match. */
  lemma FirstReferenceSpec(line: string)
    ensures FirstReference(line).None? <==> forall i, key :: !RefMatch(line, i, key)
    ensures FirstReference(line).Some? ==>
              exists i :: RefMatch(line, i, FirstReference(line).value)
                          && forall k, key :: 0 <= k < i ==> !RefMatch(line, k, key)
  {
    MatchStartsReference(line);
    FindRefLeftmost(line, 0);
    RefFromFindRef(line, 0);
    if FindRef(line, 0).Some? {
      ReferenceAtMatches(line, FindRef(line, 0).value);
    }
  }

  /** Every match of the reference pattern starts where `RefAt` holds. */
  lemma MatchStartsReference(line: string)
    ensures forall k, key :: RefMatch(line, k, key) ==> RefAt(line, k)
  {
    forall k, key | RefMatch(line, k, key) ensures RefAt(line, k) {
      assert line[k + 2] == line[k + 2..k + 2 + |key|][0] == key[0];
    }
  }

  /** Where `RefAt` holds, the pattern matches with the whole word run as its group. */
  lemma ReferenceAtMatches(line: string, i: nat)
    requires RefAt(line, i)
    ensures RefMatch(line, i, WordFrom(line, i + 2))
  {
    var key := WordFrom(line, i + 2);
    WordFromRun(line, i + 2);
    assert line[i + 2..i + 2 + |key|] == key;
  }

  /** At one position the pattern has only one match: `\w+` followed by `\b`
      must take the whole run of word characters. */
  lemma RefMatchUnique(line: string, i: int, key1: string, key2: string)
    requires RefMatch(line, i, key1) && RefMatch(line, i, key2)
    ensures key1 == key2
  {
    forall k | i + 2 <= k < i + 2 + |key1| ensures IsWordChar(line[k]) {
      assert line[k] == key1[k - i - 2] && key1[k - i - 2] in key1;
    }
    forall k | i + 2 <= k < i + 2 + |key2| ensures IsWordChar(line[k]) {
      assert line[k] == key2[k - i - 2] && key2[k - i - 2] in key2;
    }
    assert |key1| == |key2|;
  }

  /** A recorded reference key occurs in its line as a substring. */
  lemma ReferenceOccursInLine(line: string)
    requires FirstReference(line).Some?
    ensures Contains(line, FirstReference(line).value)
  {
    RefFromFindRef(line, 0);
    var i := FindRef(line, 0).value;
    var key := FirstReference(line).value;
    WordFromRun(line, i + 2);
    assert OccursAt(line, key, i + 2);
    ContainsSpec(line, key);
  }
}
