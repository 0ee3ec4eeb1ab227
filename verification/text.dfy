/** The operations of Python's `str` and `re` that the tools rely on, over ASCII text:
    stripping, lower-casing, prefix and suffix tests, splitting, replacement and ordering. */
module Text {

  /** `str.isspace()` on an ASCII character: space, tab, line feed, vertical tab, form feed,
      carriage return, and the four information separators U+001C..U+001F. */
  predicate IsSpace(c: char) {
    c == ' ' || ('\t' <= c <= '\r') || ('\U{1C}' <= c <= '\U{1F}')
  }

  predicate AllSpace(s: string) {
    forall i :: 0 <= i < |s| ==> IsSpace(s[i])
  }

  /** A string with no whitespace at either end, i.e. one that `strip()` leaves alone. */
  predicate IsTrimmed(s: string) {
    s == [] || (!IsSpace(s[0]) && !IsSpace(s[|s| - 1]))
  }

  function TrimStart(s: string): (r: string)
    ensures |r| <= |s| && r == s[|s| - |r|..]
    ensures forall i :: 0 <= i < |s| - |r| ==> IsSpace(s[i])
    ensures r == [] || !IsSpace(r[0])
  {
    if |s| > 0 && IsSpace(s[0]) then TrimStart(s[1..]) else s
  }

  function TrimEnd(s: string): (r: string)
    ensures |r| <= |s| && r == s[..|r|]
    ensures forall i :: |r| <= i < |s| ==> IsSpace(s[i])
    ensures r == [] || !IsSpace(r[|r| - 1])
  {
    if |s| > 0 && IsSpace(s[|s| - 1]) then TrimEnd(s[..|s| - 1]) else s
  }

  /** Python's `s.strip()`: whitespace removed from both ends. */
  function Trim(s: string): (r: string)
    ensures IsTrimmed(r)
    ensures r == [] <==> AllSpace(s)
    ensures forall c :: c in r ==> c in s
  {
    var t := TrimStart(s);
    var r := TrimEnd(t);
    assert r != [] ==> r[0] == t[0];
    r
  }

  /** Stripping a string that has no surrounding whitespace changes nothing. */
  lemma TrimOfTrimmed(s: string)
    requires IsTrimmed(s)
    ensures Trim(s) == s
  {
  }

  function LowerChar(c: char): char {
    if 'A' <= c <= 'Z' then (c as int + 32) as char else c
  }

  /** Python's `s.lower()` on ASCII text. */
  function Lower(s: string): string {
    seq(|s|, i requires 0 <= i < |s| => LowerChar(s[i]))
  }

  predicate StartsWith(s: string, prefix: string) {
    |prefix| <= |s| && s[..|prefix|] == prefix
  }

  predicate EndsWith(s: string, suffix: string) {
    |suffix| <= |s| && s[|s| - |suffix|..] == suffix
  }

  /** `[p.strip() for p in pieces if p.strip()]`: each piece stripped, with the pieces
      that strip to nothing dropped. */
  function StrippedNonBlank(pieces: seq<string>): (r: seq<string>)
    ensures |r| <= |pieces|
  {
    if |pieces| == 0 then []
    else
      var p := Trim(pieces[0]);
      (if p == [] then [] else [p]) + StrippedNonBlank(pieces[1..])
  }

  /** Each word with its surrounding whitespace stripped, as it is typed. */
  function StripEach(words: seq<string>): (r: seq<string>)
    ensures |r| == |words|
    ensures forall k :: 0 <= k < |words| ==> r[k] == Trim(words[k])
  {
    seq(|words|, k requires 0 <= k < |words| => Trim(words[k]))
  }

  /** Every piece that does not strip to nothing is kept, stripped. */
  lemma {:induction false} StrippedNonBlankKeeps(pieces: seq<string>)
    ensures forall j :: 0 <= j < |pieces| && Trim(pieces[j]) != [] ==> Trim(pieces[j]) in StrippedNonBlank(pieces)
    decreases |pieces|
  {
    if |pieces| > 0 {
      StrippedNonBlankKeeps(pieces[1..]);
      forall j | 1 <= j < |pieces| && Trim(pieces[j]) != []
        ensures Trim(pieces[j]) in StrippedNonBlank(pieces)
      {
        assert pieces[j] == pieces[1..][j - 1];
      }
    }
  }

  /** Every kept piece is non-empty and stripped, and pieces free of some characters stay
      free of them once stripped and filtered. */
  lemma StrippedNonBlankClean(pieces: seq<string>, chars: set<char>)
    requires forall j :: 0 <= j < |pieces| ==> NoneOf(pieces[j], chars)
    ensures forall k :: 0 <= k < |StrippedNonBlank(pieces)| ==>
              var p := StrippedNonBlank(pieces)[k]; p != [] && IsTrimmed(p) && NoneOf(p, chars)
  {
    forall k | 0 <= k < |StrippedNonBlank(pieces)|
      ensures var p := StrippedNonBlank(pieces)[k]; p != [] && IsTrimmed(p) && NoneOf(p, chars)
    {
      StrippedNonBlankAt(pieces, chars, k);
    }
  }

  /** The first piece is kept, stripped, in front of the rest, or dropped when blank. */
  lemma StrippedNonBlankCons(pieces: seq<string>)
    requires |pieces| > 0
    ensures var p, rest := Trim(pieces[0]), StrippedNonBlank(pieces[1..]);
            StrippedNonBlank(pieces) == if p == [] then rest else [p] + rest
  {
    var rest := StrippedNonBlank(pieces[1..]);
    assert [] + rest == rest;
  }

  /** A blank first piece is dropped. */
  lemma StrippedNonBlankSkip(pieces: seq<string>)
    requires |pieces| > 0 && Trim(pieces[0]) == []
    ensures StrippedNonBlank(pieces) == StrippedNonBlank(pieces[1..])
  {
    var rest := StrippedNonBlank(pieces[1..]);
    assert [] + rest == rest;
  }

  /** After a kept first piece, entry `k` is entry `k - 1` of the rest. */
  lemma StrippedNonBlankAfterFirst(pieces: seq<string>, k: nat)
    requires |pieces| > 0 && Trim(pieces[0]) != [] && 0 < k < |StrippedNonBlank(pieces)|
    ensures k - 1 < |StrippedNonBlank(pieces[1..])|
    ensures StrippedNonBlank(pieces)[k] == StrippedNonBlank(pieces[1..])[k - 1]
  {
    var p, rest := Trim(pieces[0]), StrippedNonBlank(pieces[1..]);
    assert StrippedNonBlank(pieces) == [p] + rest;
  }

  /** What holds of every piece holds of every piece after the first. */
  lemma NoneOfEachTail(pieces: seq<string>, chars: set<char>)
    requires |pieces| > 0 && forall j :: 0 <= j < |pieces| ==> NoneOf(pieces[j], chars)
    ensures forall j :: 0 <= j < |pieces[1..]| ==> NoneOf(pieces[1..][j], chars)
  {
    forall j | 0 <= j < |pieces[1..]|
      ensures NoneOf(pieces[1..][j], chars)
    {
      assert pieces[1..][j] == pieces[j + 1];
    }
  }

  lemma {:induction false} StrippedNonBlankAt(pieces: seq<string>, chars: set<char>, k: nat)
    requires forall j :: 0 <= j < |pieces| ==> NoneOf(pieces[j], chars)
    requires k < |StrippedNonBlank(pieces)|
    ensures var p := StrippedNonBlank(pieces)[k]; p != [] && IsTrimmed(p) && NoneOf(p, chars)
    decreases |pieces|
  {
    var tail := pieces[1..];
    var p := Trim(pieces[0]);
    if p != [] && k == 0 {
      StrippedNonBlankCons(pieces);
      NoneOfTrim(pieces[0], chars);
    } else {
      var i := k;
      if p == [] {
        StrippedNonBlankSkip(pieces);
      } else {
        StrippedNonBlankAfterFirst(pieces, k);
        i := k - 1;
      }
      NoneOfEachTail(pieces, chars);
      StrippedNonBlankAt(tail, chars, i);
    }
  }

  /** Any pieces at all: every kept piece is non-empty and stripped. */
  lemma StrippedNonBlankNonEmpty(pieces: seq<string>)
    ensures forall k :: 0 <= k < |StrippedNonBlank(pieces)| ==>
              StrippedNonBlank(pieces)[k] != [] && IsTrimmed(StrippedNonBlank(pieces)[k])
  {
    StrippedNonBlankClean(pieces, {});
  }

  /** A string free of some characters stays free of them once stripped. */
  lemma NoneOfTrim(s: string, chars: set<char>)
    requires NoneOf(s, chars)
    ensures NoneOf(Trim(s), chars)
  {
    var r := Trim(s);
    forall i | 0 <= i < |r|
      ensures r[i] !in chars
    {
      assert r[i] in r;
    }
  }

  /** Stripping and filtering leaves a list of non-empty stripped strings alone. */
  lemma {:induction false} StrippedNonBlankIdentity(pieces: seq<string>)
    requires forall k :: 0 <= k < |pieces| ==> pieces[k] != [] && IsTrimmed(pieces[k])
    ensures StrippedNonBlank(pieces) == pieces
    decreases |pieces|
  {
    if |pieces| > 0 {
      var p, rest := pieces[0], pieces[1..];
      assert Trim(p) == p by {
        TrimOfTrimmed(p);
      }
      assert StrippedNonBlank(rest) == rest by {
        assert forall k :: 0 <= k < |rest| ==> rest[k] == pieces[k + 1];
        StrippedNonBlankIdentity(rest);
      }
      assert StrippedNonBlank(pieces) == [p] + StrippedNonBlank(rest);
      assert pieces == [p] + rest;
    }
  }

  /** The positions of the pieces that are not blank, in increasing order: the positions a
      filter such as `[p for p in pieces if p.strip()]` takes its entries from
      (`NonBlankPositionsExact` states it). */
  function NonBlankPositions(pieces: seq<string>): (idx: seq<nat>)
    ensures forall j :: 0 <= j < |idx| ==> idx[j] < |pieces|
    decreases |pieces|
  {
    if |pieces| == 0 then []
    else
      var shifted := ShiftUp(NonBlankPositions(pieces[1..]));
      if AllSpace(pieces[0]) then shifted else [0] + shifted
  }

  /** The positions are increasing, and a position is listed exactly when its piece is not
      blank. */
  lemma {:induction false} NonBlankPositionsExact(pieces: seq<string>)
    ensures forall i, j :: 0 <= i < j < |NonBlankPositions(pieces)| ==> NonBlankPositions(pieces)[i] < NonBlankPositions(pieces)[j]
    ensures forall i :: 0 <= i < |pieces| ==> (i in NonBlankPositions(pieces) <==> !AllSpace(pieces[i]))
    decreases |pieces|
  {
    if |pieces| > 0 {
      var tail := pieces[1..];
      var later := NonBlankPositions(tail);
      var shifted := ShiftUp(later);
      NonBlankPositionsExact(tail);
      forall i | 1 <= i < |pieces|
        ensures i in shifted <==> !AllSpace(pieces[i])
      {
        ShiftUpMembers(later, i);
        assert pieces[i] == tail[i - 1];
      }
      ShiftUpMembers(later, 0);
      forall i, j | 0 <= i < j < |shifted|
        ensures shifted[i] < shifted[j]
      {
        assert later[i] < later[j];
      }
    }
  }

  /** Every position moved one place on. */
  function ShiftUp(idx: seq<nat>): (r: seq<nat>)
    ensures |r| == |idx|
    ensures forall j :: 0 <= j < |idx| ==> r[j] == idx[j] + 1
  {
    seq(|idx|, j requires 0 <= j < |idx| => idx[j] + 1)
  }

  /** A position is in the moved list exactly when the one before it is in the original. */
  lemma ShiftUpMembers(idx: seq<nat>, i: nat)
    ensures i in ShiftUp(idx) <==> i > 0 && i - 1 in idx
  {
    var r := ShiftUp(idx);
    if i in r {
      var j :| 0 <= j < |r| && r[j] == i;
      assert idx[j] == i - 1;
    }
    if i > 0 && i - 1 in idx {
      var j :| 0 <= j < |idx| && idx[j] == i - 1;
      assert r[j] == i;
    }
  }

  /** Filtering a concatenation filters each part. */
  lemma {:induction false} StrippedNonBlankAppend(a: seq<string>, b: seq<string>)
    ensures StrippedNonBlank(a + b) == StrippedNonBlank(a) + StrippedNonBlank(b)
    decreases |a|
  {
    if |a| > 0 {
      var p := Trim(a[0]);
      StrippedNonBlankConsAppend(a, b);
      StrippedNonBlankAppend(a[1..], b);
      StrippedNonBlankCons(a);
      if p != [] {
        AppendAssoc([p], StrippedNonBlank(a[1..]), StrippedNonBlank(b));
      }
    } else {
      assert a + b == b;
    }
  }

  /** The first piece of a concatenation is the first piece of its first part. */
  lemma StrippedNonBlankConsAppend(a: seq<string>, b: seq<string>)
    requires |a| > 0
    ensures var p := Trim(a[0]);
            StrippedNonBlank(a + b) == (if p == [] then [] else [p]) + StrippedNonBlank(a[1..] + b)
  {
    assert (a + b)[0] == a[0] && (a + b)[1..] == a[1..] + b;
    StrippedNonBlankCons(a + b);
  }

  /** A single piece is kept, stripped, unless it strips to nothing. */
  lemma StrippedNonBlankOne(p: string)
    ensures StrippedNonBlank([p]) == if Trim(p) == [] then [] else [Trim(p)]
  {
    assert [p][1..] == [];
    assert StrippedNonBlank([p]) == (if Trim(p) == [] then [] else [Trim(p)]) + [];
  }

  /** As many pieces are kept as there are non-blank positions. */
  lemma {:induction false} StrippedNonBlankCount(pieces: seq<string>)
    ensures |StrippedNonBlank(pieces)| == |NonBlankPositions(pieces)|
    decreases |pieces|
  {
    if |pieces| > 0 {
      StrippedNonBlankCons(pieces);
      StrippedNonBlankCount(pieces[1..]);
    }
  }

  /** The positions of pieces after the first, seen from the whole list: moved one place
      on, behind position 0 when the first piece is not blank. */
  lemma NonBlankPositionsCons(pieces: seq<string>)
    requires |pieces| > 0
    ensures NonBlankPositions(pieces) ==
              (if AllSpace(pieces[0]) then [] else [0]) + ShiftUp(NonBlankPositions(pieces[1..]))
  {
    var shifted := ShiftUp(NonBlankPositions(pieces[1..]));
    assert [] + shifted == shifted;
  }

  /** A non-blank first piece is the first position. */
  lemma NonBlankPositionsFirst(pieces: seq<string>)
    requires |pieces| > 0 && !AllSpace(pieces[0])
    ensures |NonBlankPositions(pieces)| > 0 && NonBlankPositions(pieces)[0] == 0
  {
    NonBlankPositionsCons(pieces);
  }

  /** Position `i` among the later pieces is one place on among all of them, and one
      entry further along when the first piece is not blank. */
  lemma NonBlankPositionsLater(pieces: seq<string>, i: nat)
    requires |pieces| > 0 && i < |NonBlankPositions(pieces[1..])|
    ensures var j := if AllSpace(pieces[0]) then i else i + 1;
            j < |NonBlankPositions(pieces)| && NonBlankPositions(pieces)[j] == NonBlankPositions(pieces[1..])[i] + 1
  {
    var shifted := ShiftUp(NonBlankPositions(pieces[1..]));
    if AllSpace(pieces[0]) {
      assert NonBlankPositions(pieces) == shifted;
    } else {
      assert NonBlankPositions(pieces) == [0] + shifted;
      assert ([0] + shifted)[i + 1] == shifted[i];
    }
  }

  /** A non-blank first piece is kept first, stripped. */
  lemma StrippedNonBlankFirst(pieces: seq<string>)
    requires |pieces| > 0 && !AllSpace(pieces[0])
    ensures |StrippedNonBlank(pieces)| > 0 && StrippedNonBlank(pieces)[0] == Trim(pieces[0])
  {
    StrippedNonBlankCons(pieces);
  }

  /** Past a kept first piece, or past a dropped one, entry `j` comes from the later
      pieces. */
  lemma StrippedNonBlankLater(pieces: seq<string>, j: nat)
    requires |pieces| > 0 && j < |StrippedNonBlank(pieces)| && (AllSpace(pieces[0]) || j > 0)
    ensures var i := if AllSpace(pieces[0]) then j else j - 1;
            i < |StrippedNonBlank(pieces[1..])| && StrippedNonBlank(pieces)[j] == StrippedNonBlank(pieces[1..])[i]
  {
    if Trim(pieces[0]) == [] {
      StrippedNonBlankSkip(pieces);
    } else {
      StrippedNonBlankAfterFirst(pieces, j);
    }
  }

  /** Kept entry `j` is the stripped piece at the `j`-th non-blank position. */
  lemma {:induction false} StrippedNonBlankEntry(pieces: seq<string>, j: nat)
    requires j < |StrippedNonBlank(pieces)|
    ensures j < |NonBlankPositions(pieces)|
    ensures StrippedNonBlank(pieces)[j] == Trim(pieces[NonBlankPositions(pieces)[j]])
    decreases |pieces|, 1
  {
    if !AllSpace(pieces[0]) && j == 0 {
      StrippedNonBlankFirst(pieces);
      NonBlankPositionsFirst(pieces);
    } else {
      StrippedNonBlankEntryLater(pieces, j);
    }
  }

  /** The same for an entry that comes from a piece after the first. */
  lemma {:induction false} StrippedNonBlankEntryLater(pieces: seq<string>, j: nat)
    requires j < |StrippedNonBlank(pieces)| && (AllSpace(pieces[0]) || j > 0)
    ensures j < |NonBlankPositions(pieces)|
    ensures StrippedNonBlank(pieces)[j] == Trim(pieces[NonBlankPositions(pieces)[j]])
    decreases |pieces|, 0
  {
    var tail := pieces[1..];
    var i := if AllSpace(pieces[0]) then j else j - 1;
    StrippedNonBlankLater(pieces, j);
    StrippedNonBlankEntry(tail, i);
    NonBlankPositionsLater(pieces, i);
    var m := NonBlankPositions(tail)[i];
    assert pieces[m + 1] == tail[m];
  }

  /** `r` is, in order, the stripped pieces at the non-blank positions of `pieces` and
      nothing else: entry `j` is piece `NonBlankPositions(pieces)[j]`, stripped. */
  predicate StrippedInOrder(r: seq<string>, pieces: seq<string>) {
    var idx := NonBlankPositions(pieces);
    |r| == |idx| && forall j :: 0 <= j < |r| ==> r[j] == Trim(pieces[idx[j]])
  }

  /** Stripping and filtering keeps the non-blank pieces in their order. */
  lemma StrippedNonBlankInOrder(pieces: seq<string>)
    ensures StrippedInOrder(StrippedNonBlank(pieces), pieces)
  {
    StrippedNonBlankCount(pieces);
    forall j | 0 <= j < |StrippedNonBlank(pieces)|
      ensures StrippedNonBlank(pieces)[j] == Trim(pieces[NonBlankPositions(pieces)[j]])
    {
      StrippedNonBlankEntry(pieces, j);
    }
  }

  /** Nothing is kept exactly when every piece is blank. */
  lemma StrippedNonBlankEmpty(pieces: seq<string>)
    ensures StrippedNonBlank(pieces) == [] <==> forall i :: 0 <= i < |pieces| ==> AllSpace(pieces[i])
  {
    var idx := NonBlankPositions(pieces);
    StrippedNonBlankInOrder(pieces);
    NonBlankPositionsExact(pieces);
    if idx != [] {
      assert idx[0] in idx;
    }
  }

  /** Python's `needle in s` for two strings. */
  predicate Contains(s: string, needle: string)
    decreases |s|
  {
    StartsWith(s, needle) || (|s| > 0 && Contains(s[1..], needle))
  }

  /** Python's `s.replace(pattern, '')`: every non-overlapping occurrence of `pattern`,
      found scanning left to right, is deleted. */
  function RemoveAll(s: string, pattern: string): (r: string)
    requires pattern != []
    ensures |r| <= |s|
    ensures !Contains(s, pattern) ==> r == s
    decreases |s|
  {
    if |s| < |pattern| then s
    else if s[..|pattern|] == pattern then RemoveAll(s[|pattern|..], pattern)
    else [s[0]] + RemoveAll(s[1..], pattern)
  }

  /** Python's `<` on strings: lexicographic by code point, a proper prefix first. */
  predicate LexLess(a: string, b: string)
    decreases |a|
  {
    if |a| == 0 then |b| > 0
    else if |b| == 0 then false
    else if a[0] != b[0] then a[0] < b[0]
    else LexLess(a[1..], b[1..])
  }

  lemma {:induction false} LexLessIrreflexive(a: string)
    ensures !LexLess(a, a)
    decreases |a|
  {
    if |a| > 0 {
      LexLessIrreflexive(a[1..]);
    }
  }

  lemma {:induction false} LexLessAsymmetric(a: string, b: string)
    requires LexLess(a, b)
    ensures !LexLess(b, a)
    decreases |a|
  {
    if |a| > 0 && |b| > 0 && a[0] == b[0] {
      LexLessAsymmetric(a[1..], b[1..]);
    }
  }

  lemma {:induction false} LexLessTransitive(a: string, b: string, c: string)
    requires LexLess(a, b) && LexLess(b, c)
    ensures LexLess(a, c)
    decreases |a|
  {
    if |a| > 0 && a[0] == b[0] && b[0] == c[0] {
      LexLessTransitive(a[1..], b[1..], c[1..]);
    }
  }

  lemma {:induction false} LexLessTotal(a: string, b: string)
    requires a != b
    ensures LexLess(a, b) || LexLess(b, a)
    decreases |a|
  {
    if |a| > 0 && |b| > 0 && a[0] == b[0] {
      assert a == [a[0]] + a[1..] && b == [b[0]] + b[1..];
      LexLessTotal(a[1..], b[1..]);
    }
  }

  /** "At least" (not less than) is transitive. */
  lemma NotLessTransitive(a: string, b: string, c: string)
    requires !LexLess(a, b) && !LexLess(b, c)
    ensures !LexLess(a, c)
  {
    if a != b && b != c {
      LexLessTotal(a, b);
      LexLessTotal(b, c);
      LexLessTransitive(c, b, a);
      LexLessAsymmetric(c, a);
    }
  }

  /** The position of the first occurrence of `c` in `s` (Python's `s.index(c)`). */
  function IndexOf<T(==)>(s: seq<T>, c: T): (i: nat)
    requires c in s
    ensures i < |s| && s[i] == c && c !in s[..i]
  {
    if s[0] == c then 0
    else
      var j := IndexOf(s[1..], c);
      assert s[..j + 1] == [s[0]] + s[1..][..j];
      j + 1
  }

  /** Python's `sep.join(parts)` for a one-character separator. */
  function JoinWith(parts: seq<string>, sep: char): string {
    if |parts| == 0 then ""
    else if |parts| == 1 then parts[0]
    else parts[0] + [sep] + JoinWith(parts[1..], sep)
  }

  /** Python's `s.split(sep)` for a one-character separator: every occurrence of `sep`
      ends one field, so `k` occurrences give `k + 1` fields, some possibly empty. */
  function SplitOn(s: string, sep: char): (r: seq<string>)
    ensures |r| >= 1
    ensures forall k :: 0 <= k < |r| ==> sep !in r[k]
    ensures JoinWith(r, sep) == s
    decreases |s|
  {
    if sep in s then
      var i := IndexOf(s, sep);
      var rest := SplitOn(s[i + 1..], sep);
      assert s == s[..i] + [sep] + s[i + 1..];
      [s[..i]] + rest
    else [s]
  }

  /** Any position holding `c` with no `c` before it is the first occurrence. */
  lemma IndexOfUnique<T>(s: seq<T>, c: T, i: nat)
    requires i < |s| && s[i] == c && c !in s[..i]
    ensures IndexOf(s, c) == i
  {
    var j := IndexOf(s, c);
  }

  /** Splitting a join on the same separator gives the parts back, provided no part
      contains the separator. */
  lemma {:induction false} SplitOnJoin(parts: seq<string>, sep: char)
    requires |parts| >= 1
    requires forall k :: 0 <= k < |parts| ==> sep !in parts[k]
    ensures SplitOn(JoinWith(parts, sep), sep) == parts
    decreases |parts|
  {
    if |parts| > 1 {
      var s := JoinWith(parts, sep);
      var head := parts[0];
      var tail := JoinWith(parts[1..], sep);
      assert s[..|head|] == head && s[|head| + 1..] == tail && IndexOf(s, sep) == |head| by {
        assert s == head + [sep] + tail;
        assert s[..|head|] == head;
        IndexOfUnique(s, sep, |head|);
      }
      assert SplitOn(s, sep) == [head] + SplitOn(tail, sep);
      SplitOnJoin(parts[1..], sep);
      assert parts == [head] + parts[1..];
    }
  }

  /** A character absent from every part is absent from their join on another character. */
  lemma {:induction false} JoinWithAvoids(parts: seq<string>, sep: char, c: char)
    requires c != sep
    requires forall k :: 0 <= k < |parts| ==> c !in parts[k]
    ensures c !in JoinWith(parts, sep)
    decreases |parts|
  {
    if |parts| > 1 {
      JoinWithAvoids(parts[1..], sep, c);
    }
  }

  /** A character absent from a join is absent from every part. */
  lemma {:induction false} JoinWithPartsAvoid(parts: seq<string>, sep: char, c: char)
    requires c !in JoinWith(parts, sep)
    ensures forall k :: 0 <= k < |parts| ==> c !in parts[k]
    decreases |parts|
  {
    if |parts| > 1 {
      assert JoinWith(parts, sep) == parts[0] + [sep] + JoinWith(parts[1..], sep);
      JoinWithPartsAvoid(parts[1..], sep, c);
      assert forall k :: 1 <= k < |parts| ==> parts[k] == parts[1..][k - 1];
    }
  }

  /** A join of non-empty parts begins with the first part's first character and ends with
      the last part's last character. */
  lemma {:induction false} JoinWithEnds(parts: seq<string>, sep: char)
    requires |parts| >= 1
    requires forall k :: 0 <= k < |parts| ==> parts[k] != []
    ensures var s := JoinWith(parts, sep);
            |s| > 0 && s[0] == parts[0][0] && s[|s| - 1] == parts[|parts| - 1][|parts[|parts| - 1]| - 1]
    decreases |parts|
  {
    if |parts| > 1 {
      JoinWithEnds(parts[1..], sep);
    }
  }

  /** The separator occurs in a join of two or more parts. */
  lemma JoinWithHasSeparator(parts: seq<string>, sep: char)
    requires |parts| >= 2
    ensures sep in JoinWith(parts, sep)
  {
    var s := JoinWith(parts, sep);
    assert s[|parts[0]|] == sep;
  }

  predicate NoneOf(s: string, chars: set<char>) {
    forall i :: 0 <= i < |s| ==> s[i] !in chars
  }

  predicate AllOf(s: string, chars: set<char>) {
    forall i :: 0 <= i < |s| ==> s[i] in chars
  }

  /** A maximal run of separator characters together with the field that follows it. */
  datatype Segment = Segment(run: string, field: string)

  /** The result of Python's `re.split('([' + seps + ']+)', s)`, grouped: the first field,
      then each separator run paired with the field after it. */
  datatype Tokens = Tokens(head: string, segments: seq<Segment>)

  function JoinSegments(segments: seq<Segment>): string {
    if |segments| == 0 then "" else segments[0].run + segments[0].field + JoinSegments(segments[1..])
  }

  /** Splits `s` at every maximal run of characters from `seps`: no field holds a
      separator, every run is a non-empty stretch of separators, and every field strictly
      between two runs is non-empty, so the runs are maximal. */
  function Tokenize(s: string, seps: set<char>): (t: Tokens)
    ensures NoneOf(t.head, seps)
    ensures forall k :: 0 <= k < |t.segments| ==>
              t.segments[k].run != [] && AllOf(t.segments[k].run, seps) && NoneOf(t.segments[k].field, seps)
    ensures forall k :: 0 <= k < |t.segments| - 1 ==> t.segments[k].field != []
    ensures t.head == [] ==> s == [] || s[0] in seps
    decreases |s|
  {
    if |s| == 0 then Tokens([], [])
    else
      var c := s[0];
      var t := Tokenize(s[1..], seps);
      if c !in seps then
        Tokens([c] + t.head, t.segments)
      else if t.head == [] && |t.segments| > 0 then
        var first := Segment([c] + t.segments[0].run, t.segments[0].field);
        Tokens([], [first] + t.segments[1..])
      else
        Tokens([], [Segment([c], t.head)] + t.segments)
  }

  /** Joining the pieces of a tokenization back together restores the string. */
  lemma {:induction false} TokenizeRestores(s: string, seps: set<char>)
    ensures var t := Tokenize(s, seps); t.head + JoinSegments(t.segments) == s
    decreases |s|
  {
    if |s| > 0 {
      var c := s[0];
      var t := Tokenize(s[1..], seps);
      TokenizeRestores(s[1..], seps);
      assert s == [c] + s[1..];
      if c !in seps {
        assert [c] + (t.head + JoinSegments(t.segments)) == ([c] + t.head) + JoinSegments(t.segments);
      } else if t.head == [] && |t.segments| > 0 {
        JoinSegmentsWiden(c, t.segments);
      } else {
        JoinSegmentsOpen(c, t.head, t.segments);
      }
    }
  }

  /** A separator added to the front of the first run joins in front of everything. */
  lemma JoinSegmentsWiden(c: char, segments: seq<Segment>)
    requires |segments| > 0
    ensures JoinSegments([Segment([c] + segments[0].run, segments[0].field)] + segments[1..]) == [c] + JoinSegments(segments)
  {
    var run, field, rest := segments[0].run, segments[0].field, JoinSegments(segments[1..]);
    var widened := [Segment([c] + run, field)] + segments[1..];
    assert widened[1..] == segments[1..];
    assert JoinSegments(widened) == ([c] + run) + field + rest;
    assert JoinSegments(segments) == run + field + rest;
    AppendAssoc([c], run, field);
    AppendAssoc([c], run + field, rest);
  }

  lemma AppendAssoc<T>(a: seq<T>, b: seq<T>, c: seq<T>)
    ensures (a + b) + c == a + (b + c)
  {
  }

  /** A new one-character run in front of a field joins in front of that field. */
  lemma JoinSegmentsOpen(c: char, field: string, segments: seq<Segment>)
    ensures JoinSegments([Segment([c], field)] + segments) == [c] + field + JoinSegments(segments)
  {
    assert ([Segment([c], field)] + segments)[1..] == segments;
  }

  /** A leading stretch without separators joins the first field of the rest. */
  lemma {:induction false} TokenizeFieldPrefix(x: string, rest: string, seps: set<char>)
    requires NoneOf(x, seps)
    ensures var t := Tokenize(rest, seps); Tokenize(x + rest, seps) == Tokens(x + t.head, t.segments)
    decreases |x|
  {
    if x == [] {
      assert x + rest == rest;
    } else {
      assert (x + rest)[1..] == x[1..] + rest;
      TokenizeFieldPrefix(x[1..], rest, seps);
      assert x == [x[0]] + x[1..];
    }
  }

  /** A separator in front of a string that does not start with one opens a new run. */
  lemma TokenizeRunStart(c: char, rest: string, seps: set<char>)
    requires c in seps
    requires rest == [] || rest[0] !in seps
    ensures var t := Tokenize(rest, seps);
            Tokenize([c] + rest, seps) == Tokens([], [Segment([c], t.head)] + t.segments)
  {
    assert ([c] + rest)[1..] == rest;
  }

  /** The fields of a tokenization, in order. */
  function Fields(t: Tokens): (r: seq<string>)
    ensures |r| == |t.segments| + 1 && r[0] == t.head
    ensures forall k :: 0 <= k < |t.segments| ==> r[k + 1] == t.segments[k].field
  {
    [t.head] + seq(|t.segments|, k requires 0 <= k < |t.segments| => t.segments[k].field)
  }

  /** Python's `re.split('[' + seps + ']+', s)`: a whole run of separator characters
      separates two fields, so only the first and the last field can be empty. */
  function SplitRuns(s: string, seps: set<char>): (r: seq<string>)
    ensures |r| >= 1
    ensures forall k :: 0 <= k < |r| ==> NoneOf(r[k], seps)
    ensures forall k :: 0 < k < |r| - 1 ==> r[k] != []
    ensures r[0] == [] ==> s == [] || s[0] in seps
  {
    var t := Tokenize(s, seps);
    var r := Fields(t);
    assert forall k :: 0 < k < |r| ==> r[k] == t.segments[k - 1].field;
    r
  }
}
