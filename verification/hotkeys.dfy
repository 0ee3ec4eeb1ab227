/** The state machines behind HotKeys.py: capturing a typed arithmetic expression after
    `=`, pasting a comma-separated word list one entry per hotkey press, and collapsing
    runs of spaces in the clipboard. Keyboard, clipboard and window effects are returned
    as values instead of performed. */
module HotKeys {
  import opened Text

  // ---------------------------------------------------------------------------
  // Math capture
  // ---------------------------------------------------------------------------

  /** A key event as the keyboard hook delivers it: pressed or released, and the key name. */
  datatype KeyEvent = KeyEvent(down: bool, name: string)

  /** Whether an expression is being captured, and the expression typed since `=`. */
  datatype MathState = MathState(capturing: bool, expr: string)

  const Idle := MathState(false, "")

  /** The characters a captured expression is built from. */
  predicate IsExprChar(c: char) {
    IsAsciiDigit(c) || c == '+' || c == '-' || c == '*' || c == '/' || c == '(' || c == ')' || c == '.' || c == ' '
  }

  /** The reachable states: an expression exists only while capturing, and it consists of
      digits, operators, parentheses, points and spaces only. */
  predicate Valid(st: MathState) {
    (!st.capturing ==> st.expr == []) && forall i :: 0 <= i < |st.expr| ==> IsExprChar(st.expr[i])
  }

  predicate IsAsciiDigit(c: char) {
    '0' <= c <= '9'
  }

  /** `str.isdigit()` restricted to ASCII: non-empty and all digits. */
  predicate IsDigits(s: string) {
    |s| > 0 && forall i :: 0 <= i < |s| ==> IsAsciiDigit(s[i])
  }

  const OperatorKeys: seq<string> := ["+", "-", "*", "/", "(", ")", "."]
  const ModifierKeys: seq<string> := ["shift", "ctrl", "alt"]

  /** Every key name that does something other than end the capture while capturing. */
  const HandledKeys: seq<string> := ["enter", "esc", "tab", "backspace"] + OperatorKeys + ["decimal", "space"] + ModifierKeys

  /** No named key reads as a digit key. */
  lemma HandledKeysNotDigits()
    ensures forall n :: n in HandledKeys ==> !IsDigits(n)
  {
    forall n | n in HandledKeys
      ensures !IsDigits(n)
    {
      assert !IsAsciiDigit(n[0]);
    }
  }

  /** The state after a key event, and whether the hook also sends one backspace (to erase
      the `=` once the expression has been backspaced away). */
  datatype KeyOutcome = KeyOutcome(state: MathState, eraseEquals: bool)

  /** `on_key_event`. */
  function OnKeyEvent(enabled: bool, st: MathState, ev: KeyEvent): (r: KeyOutcome)
    ensures !enabled || !ev.down ==> r == KeyOutcome(st, false)
    ensures r.eraseEquals <==> enabled && ev.down && st.capturing && ev.name == "backspace" && st.expr == []
    ensures Valid(st) ==> Valid(r.state)
    ensures enabled && ev.down && !st.capturing ==> r.state == if ev.name == "=" then MathState(true, "") else st
    ensures enabled && ev.down && st.capturing && ev.name in ["enter", "esc", "tab"] ==> r.state == Idle
    // Backspace drops the last character, or ends an empty capture.
    ensures enabled && ev.down && st.capturing && ev.name == "backspace" ==>
              r.state == if st.expr == [] then Idle else MathState(true, st.expr[..|st.expr| - 1])
    // Digits, operators, the keypad point and the space bar extend the expression.
    ensures enabled && ev.down && st.capturing && IsDigits(ev.name) ==> r.state == MathState(true, st.expr + ev.name)
    ensures enabled && ev.down && st.capturing && ev.name in OperatorKeys ==> r.state == MathState(true, st.expr + ev.name)
    ensures enabled && ev.down && st.capturing && ev.name == "decimal" ==> r.state == MathState(true, st.expr + ".")
    ensures enabled && ev.down && st.capturing && ev.name == "space" ==> r.state == MathState(true, st.expr + " ")
    // Modifier keys are ignored; every other key abandons the capture.
    ensures enabled && ev.down && st.capturing && ev.name in ModifierKeys ==> r == KeyOutcome(st, false)
    ensures enabled && ev.down && st.capturing && !IsDigits(ev.name) && ev.name !in HandledKeys ==> r.state == Idle
  {
    HandledKeysNotDigits();
    var name := ev.name;
    if !enabled || !ev.down then KeyOutcome(st, false)
    else if name == "=" && !st.capturing then KeyOutcome(MathState(true, ""), false)
    else if !st.capturing then KeyOutcome(st, false)
    else if name in ["enter", "esc", "tab"] then KeyOutcome(Idle, false)
    else if name == "backspace" then
      if st.expr != [] then KeyOutcome(MathState(true, st.expr[..|st.expr| - 1]), false)
      else KeyOutcome(MathState(false, st.expr), true)
    else if IsDigits(name) then KeyOutcome(MathState(true, st.expr + name), false)
    else if name in OperatorKeys then KeyOutcome(MathState(true, st.expr + name), false)
    else if name == "decimal" then KeyOutcome(MathState(true, st.expr + "."), false)
    else if name == "space" then KeyOutcome(MathState(true, st.expr + " "), false)
    else if name in ModifierKeys then KeyOutcome(st, false)
    else KeyOutcome(Idle, false)
  }

  /** The state after a sequence of key events. */
  function Run(enabled: bool, st: MathState, events: seq<KeyEvent>): MathState
    decreases |events|
  {
    if |events| == 0 then st else Run(enabled, OnKeyEvent(enabled, st, events[0]).state, events[1..])
  }

  /** Any sequence of key events keeps the state reachable. */
  lemma {:induction false} RunKeepsValid(enabled: bool, st: MathState, events: seq<KeyEvent>)
    requires Valid(st)
    ensures Valid(Run(enabled, st, events))
    decreases |events|
  {
    if |events| > 0 {
      RunKeepsValid(enabled, OnKeyEvent(enabled, st, events[0]).state, events[1..]);
    }
  }

  /** One event, then the rest. */
  lemma RunCons(enabled: bool, st: MathState, e: KeyEvent, rest: seq<KeyEvent>)
    ensures Run(enabled, st, [e] + rest) == Run(enabled, OnKeyEvent(enabled, st, e).state, rest)
  {
    assert ([e] + rest)[1..] == rest;
  }

  /** Running `a` and then `b` is running `b` from where `a` left off. */
  lemma {:induction false} RunAppend(enabled: bool, st: MathState, a: seq<KeyEvent>, b: seq<KeyEvent>)
    ensures Run(enabled, st, a + b) == Run(enabled, Run(enabled, st, a), b)
    decreases |a|
  {
    if |a| > 0 {
      assert (a + b)[0] == a[0];
      assert (a + b)[1..] == a[1..] + b;
      RunAppend(enabled, OnKeyEvent(enabled, st, a[0]).state, a[1..], b);
    } else {
      assert a + b == b;
    }
  }

  /** Modifier keys change nothing, whether or not an expression is being captured. */
  lemma {:induction false} ModifiersTransparent(enabled: bool, st: MathState, events: seq<KeyEvent>)
    requires forall i :: 0 <= i < |events| ==> events[i].name in ModifierKeys
    ensures Run(enabled, st, events) == st
    decreases |events|
  {
    if |events| > 0 {
      assert events[0].name != "=";
      assert OnKeyEvent(enabled, st, events[0]).state == st;
      ModifiersTransparent(enabled, st, events[1..]);
    }
  }

  /** `n` presses of the backspace key. */
  function Backspaces(n: nat): (events: seq<KeyEvent>)
    ensures |events| == n
  {
    if n == 0 then [] else [KeyEvent(true, "backspace")] + Backspaces(n - 1)
  }

  /** While capturing, `n` backspaces drop the last `n` characters of the expression. */
  lemma {:induction false} BackspacesErase(s: string, n: nat)
    requires n <= |s|
    ensures Run(true, MathState(true, s), Backspaces(n)) == MathState(true, s[..|s| - n])
    decreases n
  {
    if n > 0 {
      var next := MathState(true, s[..|s| - 1]);
      var key := KeyEvent(true, "backspace");
      assert OnKeyEvent(true, MathState(true, s), key).state == next;
      RunCons(true, MathState(true, s), key, Backspaces(n - 1));
      BackspacesErase(s[..|s| - 1], n - 1);
      assert s[..|s| - 1][..|s| - 1 - (n - 1)] == s[..|s| - n];
    }
  }

  /** Typing `=` and an expression, then one backspace per character, leaves an empty capture;
      one more backspace ends it and erases the `=` as well. */
  lemma TypedThenErased(s: string)
    requires forall i :: 0 <= i < |s| ==> IsExprChar(s[i])
    ensures Run(true, Idle, [KeyEvent(true, "=")] + KeysFor(s) + Backspaces(|s|)) == MathState(true, "")
    ensures OnKeyEvent(true, MathState(true, ""), KeyEvent(true, "backspace")) == KeyOutcome(Idle, true)
  {
    var typed := [KeyEvent(true, "=")] + KeysFor(s);
    assert Run(true, Idle, typed) == MathState(true, s) by {
      TypingCapturesExpression(s);
    }
    assert Run(true, MathState(true, s), Backspaces(|s|)) == MathState(true, "") by {
      BackspacesErase(s, |s|);
    }
    RunAppend(true, Idle, typed, Backspaces(|s|));
  }

  /** The key that types `c`: the space bar is named `space`, the others by their character. */
  function KeyFor(c: char): string {
    if c == ' ' then "space" else [c]
  }

  function KeysFor(s: string): (events: seq<KeyEvent>)
    ensures |events| == |s|
  {
    if |s| == 0 then [] else [KeyEvent(true, KeyFor(s[0]))] + KeysFor(s[1..])
  }

  /** While capturing, typing an expression character appends exactly that character. */
  lemma TypeOneChar(st: MathState, c: char)
    requires st.capturing && IsExprChar(c)
    ensures OnKeyEvent(true, st, KeyEvent(true, KeyFor(c))).state == MathState(true, st.expr + [c])
  {
    if c == ' ' {
      assert KeyFor(c) == "space";
      assert "space"[0] == 's';
      assert !IsDigits("space");
    } else if IsAsciiDigit(c) {
      assert IsDigits([c]);
    } else {
      assert [c][0] == c;
      assert !IsDigits([c]);
      assert [c] in OperatorKeys;
    }
  }

  /** While capturing, typing the keys of an expression appends it. */
  lemma {:induction false} TypeChars(st: MathState, s: string)
    requires st.capturing
    requires forall i :: 0 <= i < |s| ==> IsExprChar(s[i])
    ensures Run(true, st, KeysFor(s)) == MathState(true, st.expr + s)
    decreases |s|
  {
    if |s| > 0 {
      var key := KeyEvent(true, KeyFor(s[0]));
      var next := MathState(true, st.expr + [s[0]]);
      assert OnKeyEvent(true, st, key).state == next by {
        TypeOneChar(st, s[0]);
      }
      assert Run(true, next, KeysFor(s[1..])) == MathState(true, st.expr + s) by {
        TypeChars(next, s[1..]);
        assert next.expr + s[1..] == st.expr + s;
      }
      RunCons(true, st, key, KeysFor(s[1..]));
    }
  }

  /** Typing `=` and then an expression, starting idle, captures exactly that expression. */
  lemma TypingCapturesExpression(s: string)
    requires forall i :: 0 <= i < |s| ==> IsExprChar(s[i])
    ensures Run(true, Idle, [KeyEvent(true, "=")] + KeysFor(s)) == MathState(true, s)
  {
    var start := MathState(true, "");
    assert OnKeyEvent(true, Idle, KeyEvent(true, "=")).state == start;
    RunCons(true, Idle, KeyEvent(true, "="), KeysFor(s));
    assert Run(true, start, KeysFor(s)) == MathState(true, s) by {
      TypeChars(start, s);
      assert start.expr + s == s;
    }
  }

  /** While the feature is off, no key event changes anything. */
  lemma {:induction false} RunDisabled(st: MathState, events: seq<KeyEvent>)
    ensures Run(false, st, events) == st
    decreases |events|
  {
    if |events| > 0 {
      RunDisabled(st, events[1..]);
    }
  }

  // The character-class pattern the expression must match before it is evaluated: one or
  // more characters, each a digit, one of + - * / ( ) . or whitespace.
  predicate MatchesMathPattern(s: string) {
    |s| > 0 && forall i :: 0 <= i < |s| ==> IsAsciiDigit(s[i]) || s[i] in "+-*/()." || IsSpace(s[i])
  }

  /** What `calculate_math` does: nothing when the expression is blank; otherwise it either
      rejects the expression or hands it to the evaluator, which on success erases the
      expression and its `=` with `backspaces` key presses and types the value. */
  datatype CalcOutcome = NoExpression | InvalidCharacters | Evaluate(expression: string, backspaces: nat)

  datatype CalcStep = CalcStep(state: MathState, outcome: CalcOutcome)

  /** `calculate_math`, with the evaluation itself left to the caller. */
  function CalculateMath(st: MathState): (r: CalcStep)
    ensures r.outcome == NoExpression <==> AllSpace(st.expr)
    ensures r.outcome == NoExpression ==> r.state == st
    ensures r.outcome != NoExpression ==> r.state == Idle
    ensures r.outcome.Evaluate? ==> r.outcome.expression == st.expr && r.outcome.backspaces == |st.expr| + 1
    ensures r.outcome.Evaluate? <==> !AllSpace(st.expr) && MatchesMathPattern(st.expr)
    ensures r.outcome == InvalidCharacters <==> !AllSpace(st.expr) && !MatchesMathPattern(st.expr)
    ensures r.outcome == InvalidCharacters ==> exists i :: 0 <= i < |st.expr| && !IsAsciiDigit(st.expr[i]) && st.expr[i] !in "+-*/()." && !IsSpace(st.expr[i])
  {
    if AllSpace(st.expr) then CalcStep(st, NoExpression)
    else if MatchesMathPattern(st.expr) then CalcStep(Idle, Evaluate(st.expr, |st.expr| + 1))
    else CalcStep(Idle, InvalidCharacters)
  }

  /** An expression captured from the keyboard always passes the character check: whenever
      there is something to calculate, it is evaluated. */
  lemma CapturedExpressionEvaluates(st: MathState)
    requires Valid(st)
    ensures CalculateMath(st).outcome == NoExpression || CalculateMath(st).outcome == Evaluate(st.expr, |st.expr| + 1)
    ensures st.capturing ==> CalculateMath(st).outcome == Evaluate(st.expr, |st.expr| + 1) || AllSpace(st.expr)
  {
  }

  /** Calculating leaves a reachable state. */
  lemma CalculateKeepsValid(st: MathState)
    requires Valid(st)
    ensures Valid(CalculateMath(st).state)
  {
  }

  // ---------------------------------------------------------------------------
  // Sequential paste
  // ---------------------------------------------------------------------------

  /** The word list, the position of the next word to paste, and the auto-enter switch. */
  datatype SeqState = SeqState(words: seq<string>, index: nat, autoEnter: bool)

  /** The index points at a word, or is 0 when there are none. */
  predicate SeqValid(st: SeqState) {
    if |st.words| == 0 then st.index == 0 else st.index < |st.words|
  }

  /** What the paste hotkey types. */
  datatype Action = Write(text: string) | PressEnter

  /** `[w for w in pieces if w.strip()]`: blank pieces dropped, the others kept unstripped. */
  function NonBlank(pieces: seq<string>): (r: seq<string>)
    ensures |r| <= |pieces|
    ensures forall k :: 0 <= k < |r| ==> r[k] in pieces && !AllSpace(r[k])
    ensures forall j :: 0 <= j < |pieces| && !AllSpace(pieces[j]) ==> pieces[j] in r
  {
    if |pieces| == 0 then []
    else
      var rest := NonBlank(pieces[1..]);
      assert forall j :: 1 <= j < |pieces| ==> pieces[j] == pieces[1..][j - 1];
      if AllSpace(pieces[0]) then rest else [pieces[0]] + rest
  }

  /** As many pieces are kept as there are non-blank positions. */
  lemma {:induction false} NonBlankCount(pieces: seq<string>)
    ensures |NonBlank(pieces)| == |NonBlankPositions(pieces)|
    decreases |pieces|
  {
    if |pieces| > 0 {
      NonBlankCount(pieces[1..]);
    }
  }

  /** Past a kept first piece, or past a dropped one, entry `j` comes from the later
      pieces. */
  lemma NonBlankLater(pieces: seq<string>, j: nat)
    requires |pieces| > 0 && j < |NonBlank(pieces)| && (AllSpace(pieces[0]) || j > 0)
    ensures var i := if AllSpace(pieces[0]) then j else j - 1;
            i < |NonBlank(pieces[1..])| && NonBlank(pieces)[j] == NonBlank(pieces[1..])[i]
  {
    if !AllSpace(pieces[0]) {
      assert NonBlank(pieces) == [pieces[0]] + NonBlank(pieces[1..]);
    }
  }

  /** Kept entry `j` is the piece at the `j`-th non-blank position. */
  lemma {:induction false} NonBlankEntry(pieces: seq<string>, j: nat)
    requires j < |NonBlank(pieces)|
    ensures j < |NonBlankPositions(pieces)|
    ensures NonBlank(pieces)[j] == pieces[NonBlankPositions(pieces)[j]]
    decreases |pieces|, 1
  {
    if !AllSpace(pieces[0]) && j == 0 {
      assert NonBlank(pieces)[0] == pieces[0];
      NonBlankPositionsFirst(pieces);
    } else {
      NonBlankEntryLater(pieces, j);
    }
  }

  /** The same for an entry that comes from a piece after the first. */
  lemma {:induction false} NonBlankEntryLater(pieces: seq<string>, j: nat)
    requires j < |NonBlank(pieces)| && (AllSpace(pieces[0]) || j > 0)
    ensures j < |NonBlankPositions(pieces)|
    ensures NonBlank(pieces)[j] == pieces[NonBlankPositions(pieces)[j]]
    decreases |pieces|, 0
  {
    var tail := pieces[1..];
    var i := if AllSpace(pieces[0]) then j else j - 1;
    NonBlankLater(pieces, j);
    NonBlankEntry(tail, i);
    NonBlankPositionsLater(pieces, i);
    var m := NonBlankPositions(tail)[i];
    assert pieces[m + 1] == tail[m];
  }

  /** `r` is, in order and unchanged, the pieces at the non-blank positions of `pieces`
      and nothing else. */
  predicate KeptInOrder(r: seq<string>, pieces: seq<string>) {
    var idx := NonBlankPositions(pieces);
    |r| == |idx| && forall j :: 0 <= j < |r| ==> r[j] == pieces[idx[j]]
  }

  /** Filtering keeps the non-blank pieces in their order. */
  lemma NonBlankInOrder(pieces: seq<string>)
    ensures KeptInOrder(NonBlank(pieces), pieces)
  {
    NonBlankCount(pieces);
    forall j | 0 <= j < |NonBlank(pieces)|
      ensures NonBlank(pieces)[j] == pieces[NonBlankPositions(pieces)[j]]
    {
      NonBlankEntry(pieces, j);
    }
  }

  /** `load_list`: the non-blank comma-separated entries, with the position reset. */
  function LoadList(st: SeqState, raw: string): (r: SeqState)
    ensures SeqValid(r) && r.index == 0 && r.autoEnter == st.autoEnter
    ensures forall k :: 0 <= k < |r.words| ==> ',' !in r.words[k] && !AllSpace(r.words[k])
    ensures !AllSpace(raw) && ',' !in raw ==> r.words == [raw]
    ensures forall k :: 0 <= k < |r.words| ==> r.words[k] in SplitOn(raw, ',')
    ensures forall p :: p in SplitOn(raw, ',') && !AllSpace(p) ==> p in r.words
    ensures KeptInOrder(r.words, SplitOn(raw, ','))
  {
    var pieces := SplitOn(raw, ',');
    assert ',' !in raw ==> pieces == [raw] by {
      if ',' !in raw {
        assert pieces == SplitOn(raw, ',');
      }
    }
    NonBlankInOrder(pieces);
    SeqState(NonBlank(pieces), 0, st.autoEnter)
  }

  /** With no blank piece, nothing is dropped. */
  lemma {:induction false} NonBlankKeepsAll(pieces: seq<string>)
    requires forall k :: 0 <= k < |pieces| ==> !AllSpace(pieces[k])
    ensures NonBlank(pieces) == pieces
    decreases |pieces|
  {
    if |pieces| > 0 {
      NonBlankKeepsAll(pieces[1..]);
      assert pieces == [pieces[0]] + pieces[1..];
    }
  }

  /** Non-blank, comma-free words entered joined by commas load back as the same list, in
      the same order. */
  lemma LoadListRoundTrip(st: SeqState, words: seq<string>)
    requires forall k :: 0 <= k < |words| ==> ',' !in words[k] && !AllSpace(words[k])
    ensures LoadList(st, JoinWith(words, ',')).words == words
  {
    if |words| == 0 {
      assert SplitOn("", ',') == [""];
    } else {
      SplitOnJoin(words, ',');
      NonBlankKeepsAll(words);
    }
  }

  /** `clear_seq_list`. */
  function ClearList(st: SeqState): (r: SeqState)
    ensures SeqValid(r) && r.words == [] && r.autoEnter == st.autoEnter
  {
    SeqState([], 0, st.autoEnter)
  }
  /** Every text typed, with Enter between consecutive texts. */
  function TypeAll(texts: seq<string>): (actions: seq<Action>)
    ensures |texts| > 0 ==> |actions| == 2 * |texts| - 1
    decreases |texts|
  {
    if |texts| == 0 then []
    else if |texts| == 1 then [Write(texts[0])]
    else [Write(texts[0]), PressEnter] + TypeAll(texts[1..])
  }

  /** The actions of an auto-enter paste alternate: text `k` at position `2k`, and an Enter
      after every text but the last. */
  lemma TypeAllLayout(texts: seq<string>)
    ensures forall k :: 0 <= k < |texts| ==> 2 * k < |TypeAll(texts)| && TypeAll(texts)[2 * k] == Write(texts[k])
    ensures forall k :: 0 <= k < |texts| - 1 ==> TypeAll(texts)[2 * k + 1] == PressEnter
  {
    forall k | 0 <= k < |texts|
      ensures 2 * k < |TypeAll(texts)| && TypeAll(texts)[2 * k] == Write(texts[k])
      ensures k < |texts| - 1 ==> TypeAll(texts)[2 * k + 1] == PressEnter
    {
      TypeAllAt(texts, k);
    }
  }

  /** Text `k` is at position `2k`, followed by an Enter unless it is the last. */
  lemma {:induction false} TypeAllAt(texts: seq<string>, k: nat)
    requires k < |texts|
    ensures 2 * k < |TypeAll(texts)| && TypeAll(texts)[2 * k] == Write(texts[k])
    ensures k < |texts| - 1 ==> TypeAll(texts)[2 * k + 1] == PressEnter
    decreases k
  {
    if k > 0 {
      var rest := TypeAll(texts[1..]);
      assert TypeAll(texts) == [Write(texts[0]), PressEnter] + rest;
      TypeAllAt(texts[1..], k - 1);
      assert texts[1..][k - 1] == texts[k];
    }
  }

  /** `sequential_paste`: nothing without words; in auto-enter mode every word with Enter
      between them and the position reset; otherwise the word at the position, which then
      advances and wraps around. */
  function SequentialPaste(st: SeqState): (r: (SeqState, seq<Action>))
    requires SeqValid(st)
    ensures SeqValid(r.0) && r.0.words == st.words && r.0.autoEnter == st.autoEnter
    ensures |st.words| == 0 ==> r == (st, [])
    ensures |st.words| > 0 && st.autoEnter ==> r.0.index == 0 && r.1 == TypeAll(StripEach(st.words))
    ensures |st.words| > 0 && !st.autoEnter ==>
              r.1 == [Write(Trim(st.words[st.index]))] &&
              r.0.index == if st.index + 1 == |st.words| then 0 else st.index + 1
  {
    if |st.words| == 0 then (st, [])
    else if st.autoEnter then (st.(index := 0), TypeAll(StripEach(st.words)))
    else
      var next := st.index + 1;
      (st.(index := if next >= |st.words| then 0 else next), [Write(Trim(st.words[st.index]))])
  }

  /** The state and the typed actions after `n` presses of the paste hotkey. */
  function PasteTimes(st: SeqState, n: nat): (r: (SeqState, seq<Action>))
    requires SeqValid(st)
    ensures SeqValid(r.0)
  {
    if n == 0 then (st, [])
    else
      var previous := PasteTimes(st, n - 1);
      var step := SequentialPaste(previous.0);
      (step.0, previous.1 + step.1)
  }

  /** Each text written, one action per text. */
  function WriteEach(texts: seq<string>): (r: seq<Action>)
    ensures |r| == |texts|
  {
    if |texts| == 0 then [] else [Write(texts[0])] + WriteEach(texts[1..])
  }

  /** Writing the first `n` texts is writing the first `n - 1` and then text `n - 1`. */
  lemma {:induction false} WriteEachSnoc(texts: seq<string>, n: nat)
    requires 0 < n <= |texts|
    ensures WriteEach(texts[..n]) == WriteEach(texts[..n - 1]) + [Write(texts[n - 1])]
    decreases n
  {
    var t := texts[1..];
    assert texts[..n][1..] == t[..n - 1];
    if n > 1 {
      assert texts[..n - 1][1..] == t[..n - 2];
      WriteEachSnoc(t, n - 1);
      assert t[n - 2] == texts[n - 1];
    }
  }

  /** Without auto-enter, one press types the stripped word at the position and moves on. */
  lemma PasteOne(st: SeqState)
    requires SeqValid(st) && !st.autoEnter && |st.words| > 0
    ensures SequentialPaste(st).0 == st.(index := if st.index + 1 == |st.words| then 0 else st.index + 1)
    ensures SequentialPaste(st).1 == [Write(StripEach(st.words)[st.index])]
  {
  }

  /** Without auto-enter, the first `n <= |words|` presses from the start type the first `n`
      words in order. */
  lemma {:induction false} PasteTimesPrefix(st: SeqState, n: nat)
    requires SeqValid(st) && st.index == 0 && !st.autoEnter && 0 < n <= |st.words|
    ensures PasteTimes(st, n).1 == WriteEach(StripEach(st.words)[..n])
    ensures PasteTimes(st, n).0 == st.(index := if n == |st.words| then 0 else n)
    decreases n
  {
    if n > 1 {
      var texts := StripEach(st.words);
      var previous := PasteTimes(st, n - 1);
      PasteTimesPrefix(st, n - 1);
      PasteOne(previous.0);
      WriteEachSnoc(texts, n);
    } else {
      assert WriteEach(StripEach(st.words)[..1]) == [Write(Trim(st.words[0]))];
    }
  }

  /** Without auto-enter, one press per word from the start types the whole list in order
      and returns to the first word. */
  lemma PasteFullCycle(st: SeqState)
    requires SeqValid(st) && st.index == 0 && !st.autoEnter && |st.words| > 0
    ensures PasteTimes(st, |st.words|) == (st, WriteEach(StripEach(st.words)))
  {
    PasteTimesPrefix(st, |st.words|);
    assert StripEach(st.words)[..|st.words|] == StripEach(st.words);
  }

  /** The actions with the Enter presses left out. */
  function Writes(actions: seq<Action>): (r: seq<Action>)
    ensures PressEnter !in r
  {
    if |actions| == 0 then [] else (if actions[0] == PressEnter then [] else [actions[0]]) + Writes(actions[1..])
  }

  /** Leaving out the Enter presses of an auto-enter paste leaves each text written once,
      in order. */
  lemma {:induction false} WritesTypeAll(texts: seq<string>)
    ensures Writes(TypeAll(texts)) == WriteEach(texts)
    decreases |texts|
  {
    if |texts| > 1 {
      var rest := TypeAll(texts[1..]);
      var r := [Write(texts[0]), PressEnter] + rest;
      WritesTypeAll(texts[1..]);
      assert r[1..] == [PressEnter] + rest;
      assert r[1..][1..] == rest;
      assert WriteEach(texts) == [Write(texts[0])] + WriteEach(texts[1..]);
    } else if |texts| == 1 {
      assert WriteEach(texts) == [Write(texts[0])];
    }
  }

  /** One auto-enter paste types, apart from its Enter presses, exactly what a full cycle of
      single pastes types, and both leave the position at the first word. */
  lemma AutoEnterMatchesCycle(st: SeqState)
    requires SeqValid(st) && st.index == 0 && |st.words| > 0
    ensures var auto := SequentialPaste(st.(autoEnter := true));
            var cycle := PasteTimes(st.(autoEnter := false), |st.words|);
            Writes(auto.1) == cycle.1 && auto.0.index == cycle.0.index == 0
  {
    PasteFullCycle(st.(autoEnter := false));
    WritesTypeAll(StripEach(st.words));
  }

  // ---------------------------------------------------------------------------
  // Clipboard space fix
  // ---------------------------------------------------------------------------

  /** The text contains two consecutive spaces (`re.search(r'  +', ...)`). */
  predicate HasDoubleSpace(s: string) {
    exists i :: 0 <= i < |s| - 1 && s[i] == ' ' && s[i + 1] == ' '
  }

  /** The text with every space removed. */
  function WithoutSpaces(s: string): (r: string)
    ensures ' ' !in r
  {
    if |s| == 0 then [] else (if s[0] == ' ' then [] else [s[0]]) + WithoutSpaces(s[1..])
  }

  /** `re.sub(r' +', ' ', s)`: every run of spaces replaced by one space. */
  function CollapseSpaces(s: string): (r: string)
    ensures !HasDoubleSpace(r)
    ensures |r| <= |s|
    ensures WithoutSpaces(r) == WithoutSpaces(s)
    ensures |s| > 0 ==> |r| > 0 && r[0] == s[0]
    decreases |s|
  {
    if |s| <= 1 then s
    else if s[0] == ' ' && s[1] == ' ' then CollapseSpaces(s[1..])
    else
      var rest := CollapseSpaces(s[1..]);
      var r := [s[0]] + rest;
      assert r[1..] == rest;
      assert forall i :: 1 <= i < |r| - 1 ==> r[i] == rest[i - 1] && r[i + 1] == rest[i];
      r
  }

  /** Text with no double space is left as it is. */
  lemma {:induction false} CollapseSpacesIdentity(s: string)
    requires !HasDoubleSpace(s)
    ensures CollapseSpaces(s) == s
    decreases |s|
  {
    if |s| > 1 {
      assert !HasDoubleSpace(s[1..]) by {
        forall i | 0 <= i < |s[1..]| - 1
          ensures !(s[1..][i] == ' ' && s[1..][i + 1] == ' ')
        {
          assert s[1..][i] == s[i + 1] && s[1..][i + 1] == s[i + 2];
        }
      }
      CollapseSpacesIdentity(s[1..]);
      assert s == [s[0]] + s[1..];
    }
  }

  /** Collapsing twice is collapsing once. */
  lemma CollapseSpacesIdempotent(s: string)
    ensures CollapseSpaces(CollapseSpaces(s)) == CollapseSpaces(s)
  {
    CollapseSpacesIdentity(CollapseSpaces(s));
  }

  /** The collapsed text changes exactly when the text has a double space, so the source's
      two tests (a double space exists, and the fix differs) agree. */
  lemma CollapseSpacesChanges(s: string)
    ensures CollapseSpaces(s) != s <==> HasDoubleSpace(s)
  {
    if HasDoubleSpace(s) {
      assert CollapseSpaces(s) != s;
    } else {
      CollapseSpacesIdentity(s);
    }
  }

  /** A reference definition of the same replacement: the text cut into maximal space runs
      and the fields between them, with each run written back as one space. */
  function JoinRunsAsSpace(t: Tokens): string {
    t.head + JoinSegmentsAsSpace(t.segments)
  }

  function JoinSegmentsAsSpace(segments: seq<Segment>): string {
    if |segments| == 0 then "" else " " + segments[0].field + JoinSegmentsAsSpace(segments[1..])
  }

  /** Dropping each space that another space follows is the same as replacing each
      maximal run of spaces by one space. */
  lemma {:induction false} CollapseSpacesByRuns(s: string)
    ensures CollapseSpaces(s) == JoinRunsAsSpace(Tokenize(s, {' '}))
    decreases |s|
  {
    if |s| > 0 {
      var c := s[0];
      var rest := s[1..];
      var t := Tokenize(rest, {' '});
      assert s == [c] + rest;
      assert CollapseSpaces(rest) == JoinRunsAsSpace(t) by {
        CollapseSpacesByRuns(rest);
      }
      if c == ' ' && rest != [] && rest[0] == ' ' {
        assert CollapseSpaces(s) == CollapseSpaces(rest);
        assert JoinRunsAsSpace(Tokenize(s, {' '})) == JoinRunsAsSpace(t) by {
          var first := Segment([c] + t.segments[0].run, t.segments[0].field);
          assert Tokenize(s, {' '}) == Tokens([], [first] + t.segments[1..]);
          assert ([first] + t.segments[1..])[1..] == t.segments[1..];
        }
      } else {
        assert CollapseSpaces(s) == [c] + CollapseSpaces(rest) by {
          if |s| == 1 {
            assert rest == [];
          }
        }
        if c == ' ' {
          RunsAsSpaceOpen(rest);
        } else {
          RunsAsSpaceField(c, rest);
        }
      }
    }
  }

  /** A space in front of a text that does not start with one becomes a run of its own. */
  lemma RunsAsSpaceOpen(rest: string)
    requires rest == [] || rest[0] != ' '
    ensures JoinRunsAsSpace(Tokenize([' '] + rest, {' '})) == [' '] + JoinRunsAsSpace(Tokenize(rest, {' '}))
  {
    var t := Tokenize(rest, {' '});
    TokenizeRunStart(' ', rest, {' '});
    assert ([Segment([' '], t.head)] + t.segments)[1..] == t.segments;
  }

  /** A character other than a space in front of a text joins its first field. */
  lemma RunsAsSpaceField(c: char, rest: string)
    requires c != ' '
    ensures JoinRunsAsSpace(Tokenize([c] + rest, {' '})) == [c] + JoinRunsAsSpace(Tokenize(rest, {' '}))
  {
    var t := Tokenize(rest, {' '});
    TokenizeFieldPrefix([c], rest, {' '});
    AppendAssoc([c], t.head, JoinSegmentsAsSpace(t.segments));
  }

  /** One poll of `monitor_clipboard`: the clipboard after the poll and the content it
      remembers as last seen. */
  datatype Poll = Poll(clipboard: string, last: string)

  /** A changed clipboard with a double space is rewritten with its spaces collapsed; the
      content after the poll is remembered. Nothing happens when the clipboard is unchanged. */
  function MonitorStep(last: string, current: string): (r: Poll)
    ensures current == last ==> r == Poll(current, last)
    ensures current != last ==> r.last == r.clipboard && r.clipboard == CollapseSpaces(current)
    ensures WithoutSpaces(r.clipboard) == WithoutSpaces(current)
  {
    if current == last then Poll(current, last)
    else if HasDoubleSpace(current) then
      var fixed := CollapseSpaces(current);
      var after := if fixed != current then fixed else current;
      Poll(after, after)
    else
      CollapseSpacesIdentity(current);
      Poll(current, current)
  }

  /** A second poll after a fix finds nothing to do. */
  lemma MonitorSettles(last: string, current: string)
    ensures var p := MonitorStep(last, current); MonitorStep(p.last, p.clipboard) == p
  {
  }
}
