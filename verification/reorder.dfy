/** The row selection of excel_sku_reorder_gui.py: reading a SKU list from a file or from
    the manual-entry dialog, choosing the default key column, and reordering the rows of
    a sheet so that they follow the SKU list. */
module SkuReorder {
  import opened Text
  import opened Wrappers

  /** One spreadsheet row: its cells, one per column, already converted to text. */
  datatype Row = Row(cells: seq<string>)

  /** A sheet: the column headers and the rows below them. */
  datatype Sheet = Sheet(columns: seq<string>, rows: seq<Row>)

  /** Every row has one cell per column, as in a data frame. */
  predicate Rectangular(sheet: Sheet) {
    forall row :: row in sheet.rows ==> |row.cells| == |sheet.columns|
  }

  /** Every row has a cell at position `k`. */
  predicate HasCell(rows: seq<Row>, k: nat) {
    forall row :: row in rows ==> k < |row.cells|
  }

  // ---------------------------------------------------------------------------
  // SKU lists
  // ---------------------------------------------------------------------------

  /** Python's universal-newline reading: `\r\n` and a lone `\r` both become `\n`. */
  function NormalizeNewlines(s: string): (r: string)
    ensures '\r' !in r
    ensures '\r' !in s ==> r == s
    decreases |s|
  {
    if |s| == 0 then []
    else if s[0] == '\r' then
      if |s| > 1 && s[1] == '\n' then "\n" + NormalizeNewlines(s[2..]) else "\n" + NormalizeNewlines(s[1..])
    else
      assert s == [s[0]] + s[1..];
      [s[0]] + NormalizeNewlines(s[1..])
  }

  /** A SKU as the tool keeps it: non-empty, stripped, and on one line. */
  predicate IsSku(s: string) {
    s != [] && IsTrimmed(s) && '\n' !in s && '\r' !in s
  }

  /** The lines of a text file as `readlines` gives them, without their line ends; a
      final line end leaves an empty last line, which strips to nothing. */
  function FileLines(text: string): (lines: seq<string>)
    ensures forall k :: 0 <= k < |lines| ==> '\n' !in lines[k] && '\r' !in lines[k]
  {
    var lines := SplitOn(NormalizeNewlines(text), '\n');
    JoinWithPartsAvoid(lines, '\n', '\r');
    lines
  }

  /** `read_sku_list` and `load_sku_file`: the stripped, non-blank lines of the file, in
      file order; a file that cannot be read (`None`) gives the empty list. */
  function ReadSkuList(contents: Option<string>): (skus: seq<string>)
    ensures forall k :: 0 <= k < |skus| ==> IsSku(skus[k])
    ensures contents.None? ==> skus == []
    ensures contents.Some? ==> StrippedInOrder(skus, FileLines(contents.value))
  {
    match contents
    case None => []
    case Some(text) =>
      var lines := FileLines(text);
      var skus := StrippedNonBlank(lines);
      assert forall k :: 0 <= k < |skus| ==> IsSku(skus[k]) by {
        StrippedNonBlankNonEmpty(lines);
        StrippedNonBlankAvoids(lines, '\n');
        StrippedNonBlankAvoids(lines, '\r');
      }
      StrippedNonBlankInOrder(lines);
      skus
  }

  /** `load_sku_file`: a file that reads successfully replaces the current list with the
      list `read_sku_list` gives for the same contents; one that fails to read keeps it. */
  function LoadSkuFile(current: seq<string>, contents: Option<string>): (r: seq<string>)
    ensures contents.None? ==> r == current
    ensures contents.Some? ==> r == ReadSkuList(contents)
    ensures forall k :: 0 <= k < |r| ==> IsSku(r[k]) || (contents.None? && r[k] == current[k])
  {
    match contents
    case None => current
    case Some(_) => ReadSkuList(contents)
  }

  /** Stripping and filtering never introduces a character. */
  lemma {:induction false} StrippedNonBlankAvoids(pieces: seq<string>, c: char)
    requires forall k :: 0 <= k < |pieces| ==> c !in pieces[k]
    ensures forall k :: 0 <= k < |StrippedNonBlank(pieces)| ==> c !in StrippedNonBlank(pieces)[k]
    decreases |pieces|
  {
    if |pieces| > 0 {
      StrippedNonBlankAvoids(pieces[1..], c);
    }
  }

  /** A list written one SKU per line reads back as the same list. */
  lemma ReadSkuListRoundTrip(skus: seq<string>)
    requires |skus| >= 1
    requires forall k :: 0 <= k < |skus| ==> IsSku(skus[k])
    ensures ReadSkuList(Some(JoinWith(skus, '\n'))) == skus
  {
    JoinWithAvoids(skus, '\n', '\r');
    SplitOnJoin(skus, '\n');
    StrippedNonBlankIdentity(skus);
  }

  /** Why the manual-entry dialog refuses its input. */
  datatype EntryError = NothingEntered | NoValidSkus

  /** The SKUs one line of the dialog contributes: a line holding a comma gives its
      stripped, non-empty comma-separated pieces; any other non-empty line is one SKU. */
  function LineSkus(line: string): (r: seq<string>)
    ensures forall k :: 0 <= k < |r| ==> r[k] != [] && IsTrimmed(r[k]) && ',' !in r[k]
  {
    var l := Trim(line);
    if ',' in l then
      var pieces := SplitOn(l, ',');
      StrippedNonBlankAvoids(pieces, ',');
      StrippedNonBlankNonEmpty(pieces);
      StrippedNonBlank(pieces)
    else if l != [] then [l]
    else []
  }

  function LinesSkus(lines: seq<string>): (r: seq<string>)
    ensures forall k :: 0 <= k < |r| ==> r[k] != [] && IsTrimmed(r[k]) && ',' !in r[k]
  {
    if |lines| == 0 then [] else LineSkus(lines[0]) + LinesSkus(lines[1..])
  }

  /** The comma-separated pieces of each line, stripped first, one line after another. */
  function CommaPieces(lines: seq<string>): (r: seq<string>)
    ensures |r| >= |lines|
  {
    if |lines| == 0 then [] else SplitOn(Trim(lines[0]), ',') + CommaPieces(lines[1..])
  }

  /** Everything typed into the dialog, cut into lines and then at commas. */
  function EntryPieces(text: string): seq<string> {
    CommaPieces(SplitOn(Trim(text), '\n'))
  }

  /** A line contributes its non-blank comma pieces, stripped, whether or not it holds a
      comma: without one, the whole stripped line is the single piece. */
  lemma LineSkusAsPieces(line: string)
    ensures LineSkus(line) == StrippedNonBlank(SplitOn(Trim(line), ','))
  {
    var l := Trim(line);
    if ',' !in l {
      assert SplitOn(l, ',') == [l];
      assert StrippedNonBlank([l]) == if l == [] then [] else [l] by {
        TrimOfTrimmed(l);
        StrippedNonBlankOne(l);
      }
    }
  }

  lemma {:induction false} LinesSkusAsPieces(lines: seq<string>)
    ensures LinesSkus(lines) == StrippedNonBlank(CommaPieces(lines))
    decreases |lines|
  {
    if |lines| > 0 {
      var first := SplitOn(Trim(lines[0]), ',');
      LineSkusAsPieces(lines[0]);
      LinesSkusAsPieces(lines[1..]);
      StrippedNonBlankAppend(first, CommaPieces(lines[1..]));
    }
  }

  /** `SKUInputDialog.ok_clicked`: blank input is refused, the stripped text is split into
      lines, and input that yields no SKU at all is refused too. */
  function ParseManualSkus(text: string): (r: Result<seq<string>, EntryError>)
    ensures r == Failure(NothingEntered) <==> AllSpace(text)
    ensures r == Failure(NoValidSkus) <==>
              !AllSpace(text) && forall i :: 0 <= i < |EntryPieces(text)| ==> AllSpace(EntryPieces(text)[i])
    ensures r.Success? ==> |r.value| > 0
    ensures r.Success? ==> forall k :: 0 <= k < |r.value| ==> r.value[k] != [] && IsTrimmed(r.value[k]) && ',' !in r.value[k]
    ensures r.Success? ==> StrippedInOrder(r.value, EntryPieces(text))
  {
    var t := Trim(text);
    if t == [] then Failure(NothingEntered)
    else
      var skus := LinesSkus(SplitOn(t, '\n'));
      assert skus == StrippedNonBlank(EntryPieces(text)) by {
        LinesSkusAsPieces(SplitOn(t, '\n'));
      }
      StrippedNonBlankEmpty(EntryPieces(text));
      StrippedNonBlankInOrder(EntryPieces(text));
      if skus == [] then Failure(NoValidSkus) else Success(skus)
  }

  /** Lines that are already SKUs without commas are taken one per line. */
  lemma {:induction false} LinesSkusOfSkus(skus: seq<string>)
    requires forall k :: 0 <= k < |skus| ==> IsSku(skus[k]) && ',' !in skus[k]
    ensures LinesSkus(skus) == skus
    decreases |skus|
  {
    if |skus| > 0 {
      TrimOfTrimmed(skus[0]);
      LinesSkusOfSkus(skus[1..]);
      assert skus == [skus[0]] + skus[1..];
    }
  }

  /** A comma-free list entered one SKU per line is accepted as the same list, the list
      that reading it from a file gives. */
  lemma ManualEntryOnePerLine(skus: seq<string>)
    requires |skus| >= 1
    requires forall k :: 0 <= k < |skus| ==> IsSku(skus[k]) && ',' !in skus[k]
    ensures ParseManualSkus(JoinWith(skus, '\n')) == Success(skus)
    ensures ReadSkuList(Some(JoinWith(skus, '\n'))) == skus
  {
    var text := JoinWith(skus, '\n');
    JoinWithEnds(skus, '\n');
    TrimOfTrimmed(text);
    SplitOnJoin(skus, '\n');
    LinesSkusOfSkus(skus);
    ReadSkuListRoundTrip(skus);
  }

  /** Two or more SKUs entered on one line separated by commas are accepted as that list. */
  lemma ManualEntryCommaSeparated(skus: seq<string>)
    requires |skus| >= 2
    requires forall k :: 0 <= k < |skus| ==> IsSku(skus[k]) && ',' !in skus[k]
    ensures ParseManualSkus(JoinWith(skus, ',')) == Success(skus)
  {
    var text := JoinWith(skus, ',');
    JoinWithEnds(skus, ',');
    TrimOfTrimmed(text);
    JoinWithAvoids(skus, ',', '\n');
    JoinWithHasSeparator(skus, ',');
    assert SplitOn(text, '\n') == [text];
    SplitOnJoin(skus, ',');
    StrippedNonBlankIdentity(skus);
    assert LineSkus(text) == skus;
    assert [text][1..] == [];
    assert LinesSkus([text]) == skus;
    assert Trim(text) == text != [];
  }

  // ---------------------------------------------------------------------------
  // Default key column
  // ---------------------------------------------------------------------------

  /** The key column selected before any file is analysed. */
  const InitialColumn := "SKU"

  /** `update_column_radio_buttons`: `SKU` when present, else `New SKU`, else the first
      column; with no columns the previous selection is left as it was. */
  function DefaultColumn(previous: string, columns: seq<string>): (r: string)
    ensures |columns| == 0 ==> r == previous
    ensures |columns| > 0 ==> r in columns
    ensures "SKU" in columns ==> r == "SKU"
    ensures "SKU" !in columns && "New SKU" in columns ==> r == "New SKU"
    ensures "SKU" !in columns && "New SKU" !in columns && |columns| > 0 ==> r == columns[0]
  {
    if "SKU" in columns then "SKU"
    else if "New SKU" in columns then "New SKU"
    else if |columns| > 0 then columns[0]
    else previous
  }

  // ---------------------------------------------------------------------------
  // Reordering
  // ---------------------------------------------------------------------------

  /** Why `reorder_excel_by_sku` returns False: the key column is missing, the search for
      similar keys raised on a pattern the regular-expression compiler rejects, or no listed
      SKU matched a row. */
  datatype ReorderError = ColumnNotFound | InvalidPattern | NoMatchingSkus

  /** The characters with a meaning in a Python regular expression. */
  predicate IsRegexSpecial(c: char) {
    c == '.' || c == '^' || c == '$' || c == '*' || c == '+' || c == '?' || c == '{' || c == '}'
    || c == '[' || c == ']' || c == '\\' || c == '|' || c == '(' || c == ')'
  }

  /** A pattern that is plain text, with no regular-expression syntax in it. */
  predicate IsLiteralPattern(p: string) {
    forall i :: 0 <= i < |p| ==> !IsRegexSpecial(p[i])
  }

  /** The pattern the search for similar keys uses for a SKU that matched no row: its
      first ten characters, or the whole SKU when it is shorter. */
  function SearchPattern(sku: string): (p: string)
    ensures |p| <= 10 && StartsWith(sku, p)
    ensures |sku| <= 10 ==> p == sku
  {
    if |sku| >= 10 then sku[..10] else sku
  }

  /** No row has this key. */
  predicate Unmatched(rows: seq<Row>, k: nat, sku: string)
    requires HasCell(rows, k)
  {
    forall row :: row in rows ==> row.cells[k] != sku
  }

  /** Some listed SKU matches no row and its search pattern does not compile (`compiles`
      stands for Python's `re.compile` succeeding), so the search for similar keys raises
      and the reorder is abandoned. */
  predicate SearchBreaks(rows: seq<Row>, k: nat, order: seq<string>, compiles: string -> bool)
    requires HasCell(rows, k)
  {
    exists i :: 0 <= i < |order| && Unmatched(rows, k, order[i]) && !compiles(SearchPattern(order[i]))
  }

  /** `MatchingRows` is empty exactly when no row has the key. */
  lemma MatchingRowsEmpty(rows: seq<Row>, k: nat, sku: string)
    requires HasCell(rows, k)
    ensures MatchingRows(rows, k, sku) == [] <==> Unmatched(rows, k, sku)
  {
    if row :| row in rows && row.cells[k] == sku {
      MatchingRowsCount(rows, k, sku, row);
      assert row in multiset(MatchingRows(rows, k, sku));
    }
  }

  /** A list of plain-text SKUs never breaks the search, given a compiler that accepts
      plain text. */
  lemma LiteralSkusNeverBreak(rows: seq<Row>, k: nat, order: seq<string>, compiles: string -> bool)
    requires HasCell(rows, k)
    requires forall p :: IsLiteralPattern(p) ==> compiles(p)
    requires forall i :: 0 <= i < |order| ==> IsLiteralPattern(order[i])
    ensures !SearchBreaks(rows, k, order, compiles)
  {
    forall i | 0 <= i < |order|
      ensures compiles(SearchPattern(order[i]))
    {
      var p := SearchPattern(order[i]);
      assert forall j :: 0 <= j < |p| ==> p[j] == order[i][j];
    }
  }

  /** The search only runs for SKUs that match nothing: a list whose every SKU matches some
      row never breaks it, whatever the compiler accepts. */
  lemma MatchedSkusNeverBreak(rows: seq<Row>, k: nat, order: seq<string>, compiles: string -> bool)
    requires HasCell(rows, k)
    requires forall i :: 0 <= i < |order| ==> exists row :: row in rows && row.cells[k] == order[i]
    ensures !SearchBreaks(rows, k, order, compiles)
  {
  }

  /** Cutting to ten characters can itself break a pattern: `AB-100 (SSS)` is searched for
      as `AB-100 (SS`, whose group is never closed. */
  lemma TruncatedGroupBreaks(compiles: string -> bool)
    requires !compiles("AB-100 (SS")
    ensures SearchPattern("AB-100 (SSS)") == "AB-100 (SS"
    ensures SearchBreaks([Row(["X1"])], 0, ["X1", "AB-100 (SSS)"], compiles)
  {
    var rows := [Row(["X1"])];
    assert Unmatched(rows, 0, "AB-100 (SSS)");
    assert ["X1", "AB-100 (SSS)"][1] == "AB-100 (SSS)";
  }

  /** The row with its key cell stripped, as `df[col].astype(str).str.strip()` leaves it. */
  function StripKey(row: Row, k: nat): (r: Row)
    requires k < |row.cells|
    ensures |r.cells| == |row.cells| && r.cells[k] == Trim(row.cells[k])
    ensures forall j :: 0 <= j < |row.cells| && j != k ==> r.cells[j] == row.cells[j]
  {
    Row(row.cells[k := Trim(row.cells[k])])
  }

  function StripKeys(rows: seq<Row>, k: nat): (r: seq<Row>)
    requires HasCell(rows, k)
    ensures |r| == |rows|
    ensures forall i :: 0 <= i < |rows| ==> r[i] == StripKey(rows[i], k)
    ensures HasCell(r, k)
  {
    if |rows| == 0 then []
    else
      var rest := StripKeys(rows[1..], k);
      assert forall i :: 1 <= i < |rows| ==> rows[i] == rows[1..][i - 1];
      [StripKey(rows[0], k)] + rest
  }

  /** `a` is `b` with some entries left out, order kept. */
  predicate IsSubsequence<T(==)>(a: seq<T>, b: seq<T>)
    decreases |b|
  {
    if |a| == 0 then true
    else if |b| == 0 then false
    else if a[0] == b[0] then IsSubsequence(a[1..], b[1..])
    else IsSubsequence(a, b[1..])
  }

  /** `df[df[col] == sku]`: the rows whose key equals `sku`, in their original order. */
  function MatchingRows(rows: seq<Row>, k: nat, sku: string): (r: seq<Row>)
    requires HasCell(rows, k)
    ensures forall row :: row in r ==> row in rows && row.cells[k] == sku
    ensures IsSubsequence(r, rows)
  {
    if |rows| == 0 then []
    else
      var rest := MatchingRows(rows[1..], k, sku);
      assert rows == [rows[0]] + rows[1..];
      assert forall row :: row in rows[1..] ==> row in rows;
      if rows[0].cells[k] == sku then
        assert ([rows[0]] + rest)[1..] == rest;
        [rows[0]] + rest
      else rest
  }

  /** A row with the wanted key keeps all its copies; any other row has none. */
  lemma {:induction false} MatchingRowsCount(rows: seq<Row>, k: nat, sku: string, row: Row)
    requires HasCell(rows, k)
    ensures multiset(MatchingRows(rows, k, sku))[row] ==
              if row in rows && row.cells[k] == sku then multiset(rows)[row] else 0
    decreases |rows|
  {
    if |rows| > 0 {
      var head, tail := rows[0], rows[1..];
      MatchingRowsCount(tail, k, sku, row);
      assert multiset(rows) == multiset([head]) + multiset(tail) && (row in rows <==> row == head || row in tail) by {
        assert rows == [head] + tail;
      }
      var m := multiset(MatchingRows(tail, k, sku));
      if head.cells[k] == sku {
        assert multiset(MatchingRows(rows, k, sku)) == multiset([head]) + m by {
          assert MatchingRows(rows, k, sku) == [head] + MatchingRows(tail, k, sku);
        }
      } else {
        assert multiset(MatchingRows(rows, k, sku)) == m;
      }
    }
  }

  /** How many times `s` occurs in `list`. */
  function Occurrences(list: seq<string>, s: string): nat {
    if |list| == 0 then 0
    else Occurrences(list[..|list| - 1], s) + (if list[|list| - 1] == s then 1 else 0)
  }

  lemma {:induction false} OccurrencesPositive(list: seq<string>, s: string)
    ensures Occurrences(list, s) > 0 <==> s in list
    decreases |list|
  {
    if |list| > 0 {
      var init := list[..|list| - 1];
      OccurrencesPositive(init, s);
      assert list == init + [list[|list| - 1]];
    }
  }

  /** `pd.concat` of the matching rows of each listed SKU in turn. */
  function Reordered(rows: seq<Row>, k: nat, skus: seq<string>): (r: seq<Row>)
    requires HasCell(rows, k)
  {
    if |skus| == 0 then []
    else Reordered(rows, k, skus[..|skus| - 1]) + MatchingRows(rows, k, skus[|skus| - 1])
  }

  /** Taking one more SKU of the list appends that SKU's rows. */
  lemma ReorderedStep(rows: seq<Row>, k: nat, skus: seq<string>, i: nat)
    requires HasCell(rows, k) && i < |skus|
    ensures Reordered(rows, k, skus[..i + 1]) == Reordered(rows, k, skus[..i]) + MatchingRows(rows, k, skus[i])
  {
    assert skus[..i + 1][..i] == skus[..i];
  }

  /** Each row appears in the result once for every time its key is listed: listed keys
      keep all their rows (duplicate rows included), repeated SKUs repeat their rows, and
      rows whose key is not listed are dropped. */
  lemma {:induction false} ReorderedMultiplicity(rows: seq<Row>, k: nat, skus: seq<string>, row: Row)
    requires HasCell(rows, k)
    ensures multiset(Reordered(rows, k, skus))[row] ==
              if row in rows then multiset(rows)[row] * Occurrences(skus, row.cells[k]) else 0
    decreases |skus|
  {
    var total := multiset(Reordered(rows, k, skus))[row];
    if |skus| == 0 {
      assert total == 0;
      if row in rows {
        assert Occurrences(skus, row.cells[k]) == 0;
      }
    } else {
      var init := skus[..|skus| - 1];
      var last := skus[|skus| - 1];
      if row in rows {
        var m := multiset(rows)[row];
        var n := Occurrences(init, row.cells[k]);
        var hit := row.cells[k] == last;
        assert total == m * n + (if hit then m else 0) by {
          ReorderedMultiplicity(rows, k, init, row);
          MatchingRowsCount(rows, k, last, row);
          ReorderedCountSplit(rows, k, skus, row);
        }
        assert Occurrences(skus, row.cells[k]) == n + (if hit then 1 else 0);
        CountStep(total, m, n, hit);
      } else {
        assert total == 0 by {
          ReorderedMultiplicity(rows, k, init, row);
          MatchingRowsCount(rows, k, last, row);
          ReorderedCountSplit(rows, k, skus, row);
        }
      }
    }
  }

  /** The count of a row in the result splits into the count before the last SKU and the
      count that SKU adds. */
  lemma ReorderedCountSplit(rows: seq<Row>, k: nat, skus: seq<string>, row: Row)
    requires HasCell(rows, k) && |skus| > 0
    ensures multiset(Reordered(rows, k, skus))[row] ==
              multiset(Reordered(rows, k, skus[..|skus| - 1]))[row] + multiset(MatchingRows(rows, k, skus[|skus| - 1]))[row]
  {
    assert Reordered(rows, k, skus) == Reordered(rows, k, skus[..|skus| - 1]) + MatchingRows(rows, k, skus[|skus| - 1]);
  }

  /** One more SKU adds `m` copies exactly when it is the row's key. */
  lemma CountStep(total: nat, m: nat, n: nat, hit: bool)
    requires total == m * n + (if hit then m else 0)
    ensures total == m * (n + (if hit then 1 else 0))
  {
    if hit {
      MulSucc(m, n);
    }
  }

  lemma MulSucc(m: nat, n: nat)
    ensures m * n + m == m * (n + 1)
  {
  }

  lemma MulPositive(m: nat, n: nat)
    requires m > 0 && n > 0
    ensures m * n > 0
  {
  }

  /** Every row of the result is a row of the sheet whose key is listed. */
  lemma {:induction false} ReorderedRowsListed(rows: seq<Row>, k: nat, skus: seq<string>)
    requires HasCell(rows, k)
    ensures forall row :: row in Reordered(rows, k, skus) ==> row in rows && row.cells[k] in skus
    decreases |skus|
  {
    if |skus| > 0 {
      var init := skus[..|skus| - 1];
      ReorderedRowsListed(rows, k, init);
      assert forall s :: s in init ==> s in skus;
    }
  }

  /** The result is empty exactly when no row's key is listed. */
  lemma ReorderedEmpty(rows: seq<Row>, k: nat, skus: seq<string>)
    requires HasCell(rows, k)
    ensures Reordered(rows, k, skus) == [] <==> forall row :: row in rows ==> row.cells[k] !in skus
  {
    var r := Reordered(rows, k, skus);
    ReorderedRowsListed(rows, k, skus);
    if r != [] {
      assert r[0] in r;
    }
    if row :| row in rows && row.cells[k] in skus {
      ReorderedMultiplicity(rows, k, skus, row);
      OccurrencesPositive(skus, row.cells[k]);
      MulPositive(multiset(rows)[row], Occurrences(skus, row.cells[k]));
      assert row in multiset(r);
    }
  }

  /** The loop of `reorder_excel_by_sku`: appends each SKU's matching rows in turn and
      notes whether any SKU matched; a SKU that matches nothing is searched for as a
      pattern, and a pattern that does not compile stops the loop (`broken`). */
  method CollectMatching(rows: seq<Row>, k: nat, order: seq<string>, compiles: string -> bool)
    returns (reordered: seq<Row>, found: bool, broken: bool)
    requires HasCell(rows, k)
    ensures broken <==> SearchBreaks(rows, k, order, compiles)
    ensures !broken ==> reordered == Reordered(rows, k, order)
    ensures !broken ==> (found <==> exists row :: row in rows && row.cells[k] in order)
  {
    reordered := [];
    found := false;
    broken := false;
    for i := 0 to |order|
      invariant reordered == Reordered(rows, k, order[..i])
      invariant found <==> reordered != []
      invariant forall j :: 0 <= j < i ==> !(Unmatched(rows, k, order[j]) && !compiles(SearchPattern(order[j])))
    {
      var matching := MatchingRows(rows, k, order[i]);
      ReorderedStep(rows, k, order, i);
      MatchingRowsEmpty(rows, k, order[i]);
      if matching != [] {
        reordered := reordered + matching;
        found := true;
      } else {
        if !compiles(SearchPattern(order[i])) {
          broken := true;
          return;
        }
        assert reordered + matching == reordered;
      }
    }
    assert order[..|order|] == order;
    ReorderedEmpty(rows, k, order);
  }

  /** The rows of `reorder_excel_by_sku`'s loop, once the keys and the SKUs are stripped:
      for each SKU in turn, every row with that key. A search pattern that does not compile
      is an error, and so is a list that matches no row at all. */
  method ReorderRows(rows: seq<Row>, k: nat, order: seq<string>, compiles: string -> bool)
    returns (r: Result<seq<Row>, ReorderError>)
    requires HasCell(rows, k)
    ensures r.Success? || r == Failure(InvalidPattern) || r == Failure(NoMatchingSkus)
    ensures r == Failure(InvalidPattern) <==> SearchBreaks(rows, k, order, compiles)
    ensures r == Failure(NoMatchingSkus) <==>
              !SearchBreaks(rows, k, order, compiles) && forall row :: row in rows ==> row.cells[k] !in order
    ensures r.Success? ==> r.value == Reordered(rows, k, order)
    ensures r.Success? ==> forall row :: row in r.value ==> row in rows && row.cells[k] in order
    ensures r.Success? ==> forall row :: row in rows ==>
              multiset(r.value)[row] == multiset(rows)[row] * Occurrences(order, row.cells[k])
  {
    var reordered, found, broken := CollectMatching(rows, k, order, compiles);
    if broken {
      return Failure(InvalidPattern);
    }
    ReorderedEmpty(rows, k, order);
    if !found {
      return Failure(NoMatchingSkus);
    }
    ReorderedRowsListed(rows, k, order);
    forall row | row in rows
      ensures multiset(reordered)[row] == multiset(rows)[row] * Occurrences(order, row.cells[k])
    {
      ReorderedMultiplicity(rows, k, order, row);
    }
    r := Success(reordered);
  }

  /** `reorder_excel_by_sku`: with the key column present, the keys and the listed SKUs
      are stripped, and the result is, for each listed SKU in turn, all rows with that key.
      A missing column, an unmatched SKU whose search pattern does not compile, or a list
      that matches no row gives an error (the source's False). `compiles` stands for
      Python's `re.compile` succeeding on a pattern. */
  method ReorderBySku(sheet: Sheet, skuOrder: seq<string>, column: string, compiles: string -> bool)
    returns (r: Result<Sheet, ReorderError>)
    requires Rectangular(sheet)
    ensures column !in sheet.columns <==> r == Failure(ColumnNotFound)
    ensures column in sheet.columns ==>
              var k := IndexOf(sheet.columns, column);
              var rows := StripKeys(sheet.rows, k);
              var order := StripEach(skuOrder);
              && (r == Failure(InvalidPattern) <==> SearchBreaks(rows, k, order, compiles))
              && (r == Failure(NoMatchingSkus) <==>
                    !SearchBreaks(rows, k, order, compiles) && forall row :: row in rows ==> row.cells[k] !in order)
              && (r.Success? ==>
                    && r.value.columns == sheet.columns
                    && r.value.rows == Reordered(rows, k, order)
                    && (forall row :: row in r.value.rows ==> row in rows && row.cells[k] in order)
                    && (forall row :: row in rows ==>
                          multiset(r.value.rows)[row] == multiset(rows)[row] * Occurrences(order, row.cells[k])))
  {
    if column !in sheet.columns {
      return Failure(ColumnNotFound);
    }
    var k := IndexOf(sheet.columns, column);
    assert HasCell(sheet.rows, k);
    var rows := StripKeys(sheet.rows, k);
    var reordered := ReorderRows(rows, k, StripEach(skuOrder), compiles);
    match reordered {
      case Failure(e) => r := Failure(e);
      case Success(out) => r := Success(Sheet(sheet.columns, out));
    }
  }
}
