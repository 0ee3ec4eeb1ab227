/** The phrase de-duplicator: the pure part of `process_data` in duplicate_remover.py.
    The input is split into phrases, optionally cut at their first colon, and duplicates
    are dropped case-insensitively, keeping the first occurrence of each phrase. */
module DuplicateRemover {
  import opened Text
  import opened Wrappers

  /** The characters of the regular expression `[,\n\r]+` that separates phrases. */
  const PhraseSeparators: set<char> := {',', '\n', '\r'}

  /** The phrases of the input: `re.split(r'[,\n\r]+', text)`, every piece stripped and
      the blank ones dropped. No phrase is empty, has surrounding whitespace, or holds a
      separator character. */
  function SplitPhrases(text: string): (r: seq<string>)
    ensures forall k :: 0 <= k < |r| ==> r[k] != [] && IsTrimmed(r[k]) && NoneOf(r[k], PhraseSeparators)
  {
    var pieces := SplitRuns(text, PhraseSeparators);
    var r := StrippedNonBlank(pieces);
    StrippedNonBlankClean(pieces, PhraseSeparators);
    r
  }

  /** `phrase.split(':')[0].strip()`: a stripped string with no colon. */
  function CutAtColon(phrase: string): (r: string)
    ensures ':' !in r && IsTrimmed(r)
  {
    Trim(SplitOn(phrase, ':')[0])
  }

  /** The cut keeps the part before the first colon, stripped, or the whole phrase
      stripped when it has no colon. */
  lemma CutAtColonSpec(phrase: string)
    ensures ':' in phrase ==> CutAtColon(phrase) == Trim(phrase[..IndexOf(phrase, ':')])
    ensures ':' !in phrase ==> CutAtColon(phrase) == Trim(phrase)
  {
  }

  /** Cutting a phrase made of a colon-free head, a colon and any tail keeps the stripped head. */
  lemma CutAtColonKeepsHead(head: string, tail: string)
    requires ':' !in head
    ensures CutAtColon(head + ":" + tail) == Trim(head)
  {
    var p := head + ":" + tail;
    assert p[..|head|] == head;
    assert p[|head|] == ':';
    IndexOfUnique(p, ':', |head|);
    CutAtColonSpec(p);
  }

  /** Colon removal applied to every phrase, dropping those that end up empty. */
  function RemoveColonParts(phrases: seq<string>): (r: seq<string>)
    ensures |r| <= |phrases|
  {
    if |phrases| == 0 then []
    else
      var p := CutAtColon(phrases[0]);
      (if p == [] then [] else [p]) + RemoveColonParts(phrases[1..])
  }

  /** Every phrase left by colon removal is non-empty, colon-free and stripped. */
  lemma {:induction false} RemoveColonPartsClean(phrases: seq<string>)
    ensures forall x :: x in RemoveColonParts(phrases) ==> x != [] && ':' !in x && IsTrimmed(x)
    decreases |phrases|
  {
    if |phrases| > 0 {
      RemoveColonPartsClean(phrases[1..]);
    }
  }

  /** The part of every phrase before its first colon, not yet stripped. */
  function ColonHeads(phrases: seq<string>): seq<string> {
    seq(|phrases|, k requires 0 <= k < |phrases| => SplitOn(phrases[k], ':')[0])
  }

  /** Colon removal is the strip-and-drop-blanks filter applied to the colon heads. */
  lemma {:induction false} RemoveColonPartsAsHeads(phrases: seq<string>)
    ensures RemoveColonParts(phrases) == StrippedNonBlank(ColonHeads(phrases))
    decreases |phrases|
  {
    if |phrases| > 0 {
      RemoveColonPartsAsHeads(phrases[1..]);
      ColonHeadsCons(phrases);
      StrippedNonBlankCons(ColonHeads(phrases));
    }
  }

  lemma ColonHeadsCons(phrases: seq<string>)
    requires |phrases| > 0
    ensures Trim(ColonHeads(phrases)[0]) == CutAtColon(phrases[0])
    ensures ColonHeads(phrases)[1..] == ColonHeads(phrases[1..])
  {
    var heads, tail := ColonHeads(phrases), ColonHeads(phrases[1..]);
    assert |heads[1..]| == |tail|;
    forall k | 0 <= k < |tail|
      ensures heads[1..][k] == tail[k]
    {
      assert phrases[1..][k] == phrases[k + 1];
    }
  }

  /** Colon removal keeps, in order and once each, the stripped colon head of every
      phrase whose head is not blank. */
  lemma RemoveColonPartsInOrder(phrases: seq<string>)
    ensures StrippedInOrder(RemoveColonParts(phrases), ColonHeads(phrases))
  {
    RemoveColonPartsAsHeads(phrases);
    StrippedNonBlankInOrder(ColonHeads(phrases));
  }

  /** The cleaned phrases that `process_data` de-duplicates. */
  function Phrases(inputText: string, removeColon: bool): (r: seq<string>)
    ensures forall x :: x in r ==> x != [] && IsTrimmed(x)
    ensures removeColon ==> forall x :: x in r ==> ':' !in x
    ensures !removeColon ==> StrippedInOrder(r, SplitRuns(Trim(inputText), PhraseSeparators))
    ensures removeColon ==> StrippedInOrder(r, ColonHeads(SplitPhrases(Trim(inputText))))
  {
    var phrases := SplitPhrases(Trim(inputText));
    StrippedNonBlankInOrder(SplitRuns(Trim(inputText), PhraseSeparators));
    if removeColon then
      RemoveColonPartsClean(phrases);
      RemoveColonPartsInOrder(phrases);
      RemoveColonParts(phrases)
    else phrases
  }

  /** The lower-cased forms of the phrases. */
  function LowerSet(phrases: seq<string>): set<string> {
    set k | 0 <= k < |phrases| :: Lower(phrases[k])
  }

  lemma LowerSetAppend(phrases: seq<string>, p: string)
    ensures LowerSet(phrases + [p]) == LowerSet(phrases) + {Lower(p)}
  {
    var s := phrases + [p];
    assert forall k :: 0 <= k < |phrases| ==> s[k] == phrases[k];
    assert s[|phrases|] == p;
  }

  /** No two phrases are equal once lower-cased. */
  predicate NoCaseDuplicates(phrases: seq<string>) {
    forall i, j :: 0 <= i < j < |phrases| ==> Lower(phrases[i]) != Lower(phrases[j])
  }

  /** Phrase `k` is the first whose lower-cased form is what it is. */
  ghost predicate IsFirstOccurrence(phrases: seq<string>, k: int) {
    0 <= k < |phrases| && forall j :: 0 <= j < k ==> Lower(phrases[j]) != Lower(phrases[k])
  }

  ghost predicate StrictlyIncreasing(idx: seq<nat>) {
    forall i, j :: 0 <= i < j < |idx| ==> idx[i] < idx[j]
  }

  /** `unique` is `phrases` at the increasing positions `idx`, and those positions are
      exactly the first occurrences. */
  ghost predicate SelectsAt(phrases: seq<string>, unique: seq<string>, idx: seq<nat>) {
    && |idx| == |unique|
    && StrictlyIncreasing(idx)
    && (forall i :: 0 <= i < |idx| ==> idx[i] < |phrases| && unique[i] == phrases[idx[i]])
    && (forall k :: 0 <= k < |phrases| ==> (IsFirstOccurrence(phrases, k) <==> k in idx))
  }

  /** `unique` lists exactly the first occurrences in `phrases`, with their original
      casing, in the order in which they occur. */
  ghost predicate KeepsFirstOccurrences(phrases: seq<string>, unique: seq<string>) {
    exists idx: seq<nat> :: SelectsAt(phrases, unique, idx)
  }

  /** The phrases without case-insensitive duplicates, in order of first occurrence. */
  function KeepFirstOccurrences(phrases: seq<string>): (r: seq<string>)
    ensures |r| <= |phrases|
  {
    if |phrases| == 0 then []
    else
      var init := phrases[..|phrases| - 1];
      var last := phrases[|phrases| - 1];
      if Lower(last) in LowerSet(init) then KeepFirstOccurrences(init)
      else KeepFirstOccurrences(init) + [last]
  }

  /** De-duplication keeps every lower-cased form, and exactly one phrase for each: the
      number of kept phrases is the number of distinct lower-cased forms. */
  lemma {:induction false} KeepFirstCoverage(phrases: seq<string>)
    ensures LowerSet(KeepFirstOccurrences(phrases)) == LowerSet(phrases)
    ensures |KeepFirstOccurrences(phrases)| == |LowerSet(phrases)|
    decreases |phrases|
  {
    if |phrases| > 0 {
      var init := phrases[..|phrases| - 1];
      var last := phrases[|phrases| - 1];
      assert phrases == init + [last];
      KeepFirstCoverage(init);
      LowerSetAppend(init, last);
      if Lower(last) !in LowerSet(init) {
        LowerSetAppend(KeepFirstOccurrences(init), last);
      }
    }
  }

  /** No two kept phrases are equal ignoring case. */
  lemma {:induction false} KeepFirstNoDuplicates(phrases: seq<string>)
    ensures NoCaseDuplicates(KeepFirstOccurrences(phrases))
    decreases |phrases|
  {
    if |phrases| > 0 {
      var init := phrases[..|phrases| - 1];
      var last := phrases[|phrases| - 1];
      KeepFirstNoDuplicates(init);
      if Lower(last) !in LowerSet(init) {
        var u := KeepFirstOccurrences(init);
        KeepFirstCoverage(init);
        var r := u + [last];
        forall i, j | 0 <= i < j < |r|
          ensures Lower(r[i]) != Lower(r[j])
        {
          if j == |u| {
            assert Lower(r[i]) in LowerSet(u);
          }
        }
      }
    }
  }

  /** Whether a phrase is a first occurrence depends only on the phrases before it. */
  lemma FirstOccurrenceInPrefix(phrases: seq<string>, n: nat)
    requires n <= |phrases|
    ensures forall k :: 0 <= k < n ==> (IsFirstOccurrence(phrases, k) <==> IsFirstOccurrence(phrases[..n], k))
  {
    var init := phrases[..n];
    forall k | 0 <= k < n
      ensures IsFirstOccurrence(phrases, k) <==> IsFirstOccurrence(init, k)
    {
      assert forall j :: 0 <= j <= k ==> init[j] == phrases[j];
    }
  }

  /** The last phrase is a first occurrence exactly when its lower-cased form is new. */
  lemma LastFirstOccurrence(phrases: seq<string>)
    requires |phrases| > 0
    ensures IsFirstOccurrence(phrases, |phrases| - 1) <==> Lower(phrases[|phrases| - 1]) !in LowerSet(phrases[..|phrases| - 1])
  {
    var n := |phrases| - 1;
    var init := phrases[..n];
    if Lower(phrases[n]) in LowerSet(init) {
      var j :| 0 <= j < |init| && Lower(init[j]) == Lower(phrases[n]);
      assert Lower(phrases[j]) == Lower(phrases[n]);
    }
  }

  /** The kept phrases are the first occurrences, with their original casing, in order. */
  lemma {:induction false} KeepFirstSelectsFirstOccurrences(phrases: seq<string>)
    ensures KeepsFirstOccurrences(phrases, KeepFirstOccurrences(phrases))
    decreases |phrases|
  {
    if |phrases| == 0 {
      assert SelectsAt(phrases, [], []);
    } else {
      var n := |phrases| - 1;
      var init := phrases[..n];
      var last := phrases[n];
      KeepFirstSelectsFirstOccurrences(init);
      var u := KeepFirstOccurrences(init);
      var idx0: seq<nat> :| SelectsAt(init, u, idx0);
      FirstOccurrenceInPrefix(phrases, n);
      LastFirstOccurrence(phrases);
      assert n !in idx0;
      if Lower(last) in LowerSet(init) {
        assert SelectsAt(phrases, u, idx0);
      } else {
        var idx := idx0 + [n];
        assert forall k :: 0 <= k < |phrases| ==> (IsFirstOccurrence(phrases, k) <==> k in idx);
        assert SelectsAt(phrases, u + [last], idx);
      }
    }
  }

  /** The loop of `process_data`: a phrase is kept when its lower-cased form has not been
      seen yet. */
  method RemoveDuplicates(phrases: seq<string>) returns (unique: seq<string>)
    ensures unique == KeepFirstOccurrences(phrases)
    ensures NoCaseDuplicates(unique)
    ensures LowerSet(unique) == LowerSet(phrases)
  {
    unique := [];
    var seen: set<string> := {};
    for i := 0 to |phrases|
      invariant unique == KeepFirstOccurrences(phrases[..i])
      invariant seen == LowerSet(phrases[..i])
    {
      assert phrases[..i + 1][..i] == phrases[..i];
      LowerSetAppend(phrases[..i], phrases[i]);
      assert phrases[..i + 1] == phrases[..i] + [phrases[i]];
      var lower := Lower(phrases[i]);
      if lower !in seen {
        unique := unique + [phrases[i]];
        seen := seen + {lower};
      }
    }
    assert phrases[..|phrases|] == phrases;
    KeepFirstNoDuplicates(phrases);
    KeepFirstCoverage(phrases);
  }

  /** Why `process_data` shows a warning instead of a result. */
  datatype Warning = NoInput | NoValidPhrases

  /** The counts and phrases `process_data` displays and stores for export. */
  datatype Report = Report(originalCount: nat, uniqueCount: nat, duplicatesRemoved: nat, unique: seq<string>)

  /** `process_data`: blank input and input with no phrase left after cleaning are
      warnings; otherwise the phrases are de-duplicated case-insensitively and counted. */
  method ProcessData(inputText: string, removeColon: bool) returns (r: Result<Report, Warning>)
    ensures r == Failure(NoInput) <==> AllSpace(inputText)
    ensures r == Failure(NoValidPhrases) <==> !AllSpace(inputText) && Phrases(inputText, removeColon) == []
    ensures r.Success? ==>
              var phrases := Phrases(inputText, removeColon);
              && KeepsFirstOccurrences(phrases, r.value.unique)
              && NoCaseDuplicates(r.value.unique)
              && LowerSet(r.value.unique) == LowerSet(phrases)
              && r.value.originalCount == |phrases|
              && r.value.uniqueCount == |r.value.unique| == |LowerSet(phrases)|
              && r.value.duplicatesRemoved == |phrases| - |r.value.unique|
  {
    var text := Trim(inputText);
    if text == [] {
      return Failure(NoInput);
    }
    var phrases := Phrases(inputText, removeColon);
    if phrases == [] {
      return Failure(NoValidPhrases);
    }
    var unique := RemoveDuplicates(phrases);
    KeepFirstCoverage(phrases);
    KeepFirstSelectsFirstOccurrences(phrases);
    r := Success(Report(|phrases|, |unique|, |phrases| - |unique|, unique));
  }

  /** The example in the tool's instructions: with colon removal on,
      "phrase1: 123, phrase2: 456" gives "phrase1" and "phrase2". */
  lemma InstructionsExample(input: string)
    requires input == "phrase1: 123, phrase2: 456"
    ensures Phrases(input, true) == ["phrase1", "phrase2"]
  {
    var first, second := "phrase1: 123", "phrase2: 456";
    ExampleShape(input, first, " " + second);
    ExampleTrimmed(input);
    ExampleSplit(input, first, " " + second);
    ExampleClean(first, second);
    assert SplitPhrases(Trim(input)) == [first, second];
    ExampleCut(first, second);
    assert Phrases(input, true) == RemoveColonParts([first, second]);
  }

  lemma ExampleShape(input: string, first: string, second: string)
    requires first == "phrase1: 123" && second == " phrase2: 456"
    requires input == "phrase1: 123, phrase2: 456"
    ensures input == first + ([','] + second)
  {
  }

  lemma ExampleSplit(input: string, first: string, second: string)
    requires first == "phrase1: 123" && second == " phrase2: 456"
    requires input == first + ([','] + second)
    ensures SplitRuns(input, PhraseSeparators) == [first, second]
  {
    ExampleTokens(first, second);
    assert Fields(Tokens(first, [Segment([','], second)])) == [first, second];
  }

  lemma ExampleTrimmed(input: string)
    requires input == "phrase1: 123, phrase2: 456"
    ensures Trim(input) == input
  {
    assert IsTrimmed(input);
    TrimOfTrimmed(input);
  }

  lemma ExampleTokens(first: string, second: string)
    requires first == "phrase1: 123" && second == " phrase2: 456"
    ensures Tokenize(first + ([','] + second), PhraseSeparators) == Tokens(first, [Segment([','], second)])
  {
    ExampleSecondTokens(second);
    TokenizeRunStart(',', second, PhraseSeparators);
    assert NoneOf(first, PhraseSeparators);
    TokenizeFieldPrefix(first, [','] + second, PhraseSeparators);
    assert first + [] == first;
  }

  lemma ExampleSecondTokens(second: string)
    requires second == " phrase2: 456"
    ensures Tokenize(second, PhraseSeparators) == Tokens(second, [])
  {
    assert NoneOf(second, PhraseSeparators);
    TokenizeFieldPrefix(second, [], PhraseSeparators);
    assert second + [] == second;
  }

  lemma ExampleClean(first: string, second: string)
    requires first == "phrase1: 123" && second == "phrase2: 456"
    ensures StrippedNonBlank([first, " " + second]) == [first, second]
  {
    assert (" " + second)[1..] == second;
    assert IsTrimmed(first) && IsTrimmed(second);
    TrimOfTrimmed(first);
    TrimOfTrimmed(second);
    assert [first, " " + second][1..] == [" " + second];
  }

  lemma ExampleCut(first: string, second: string)
    requires first == "phrase1: 123" && second == "phrase2: 456"
    ensures RemoveColonParts([first, second]) == ["phrase1", "phrase2"]
  {
    var h1, h2 := "phrase1", "phrase2";
    assert first == h1 + ":" + " 123";
    assert second == h2 + ":" + " 456";
    assert IsTrimmed(h1) && IsTrimmed(h2);
    TrimOfTrimmed(h1);
    TrimOfTrimmed(h2);
    CutAtColonKeepsHead(h1, " 123");
    CutAtColonKeepsHead(h2, " 456");
    ExampleCutParts(first, second, h1, h2);
  }

  lemma ExampleCutParts(first: string, second: string, h1: string, h2: string)
    requires h1 != [] && h2 != []
    requires CutAtColon(first) == h1 && CutAtColon(second) == h2
    ensures RemoveColonParts([first, second]) == [h1, h2]
  {
    RemoveColonPartsOne(second);
    RemoveColonPartsPair(first, second);
  }

  lemma RemoveColonPartsOne(p: string)
    ensures RemoveColonParts([p]) == if CutAtColon(p) == [] then [] else [CutAtColon(p)]
  {
    assert [p][1..] == [];
  }

  lemma RemoveColonPartsPair(p: string, q: string)
    ensures RemoveColonParts([p, q]) == (if CutAtColon(p) == [] then [] else [CutAtColon(p)]) + RemoveColonParts([q])
  {
    assert [p, q][1..] == [q];
  }
}
