/**
 * The in-window keyboard shortcuts: a key-down with Ctrl (or Cmd) is
 * classified into a tab-cycling, go-to-tab or restart request, and the
 * default action is suppressed exactly when a request is sent.
 */
module Shortcuts {
  import opened Wrappers
  import opened Strings
  import Tabs

  // ---------------------------------------------------------------------------
  // parseInt(key, 10)
  // ---------------------------------------------------------------------------

  function DigitValue(c: char): (d: nat)
    requires IsDigit(c)
    ensures d < 10 && DigitChar(d) == c
  {
    c as int - '0' as int
  }

  /** The length of the run of decimal digits `s` starts with. */
  function DigitRun(s: string): (n: nat)
    ensures n <= |s|
    ensures forall i :: 0 <= i < n ==> IsDigit(s[i])
    ensures n < |s| ==> !IsDigit(s[n])
  {
    if |s| == 0 || !IsDigit(s[0]) then 0 else 1 + DigitRun(s[1..])
  }

  /** The number an all-digit string denotes, most significant digit first. */
  function DigitsValue(s: string): nat
    requires forall i :: 0 <= i < |s| ==> IsDigit(s[i])
  {
    if |s| == 0 then 0 else DigitsValue(s[..|s| - 1]) * 10 + DigitValue(s[|s| - 1])
  }

  /**
   * `parseInt(s, 10)` on the integers: leading white space, an optional
   * sign, then the longest run of digits; no digit at all is NaN (`None`).
   * Whatever follows the digits is ignored.
   */
  function ParseInt(s: string): (r: Option<int>)
    ensures r.None? <==> DigitRun(Unsigned(TrimStart(s))) == 0
  {
    var t := TrimStart(s);
    var body := Unsigned(t);
    var n := DigitRun(body);
    var magnitude: int := if n == 0 then 0 else DigitsValue(body[..n]);
    if n == 0 then None
    else if |t| > 0 && t[0] == '-' then Some(-magnitude)
    else Some(magnitude)
  }

  /** The text after an optional leading sign. */
  function Unsigned(t: string): (r: string)
    ensures r == t || (|t| > 0 && (t[0] == '-' || t[0] == '+') && r == t[1..])
  {
    if |t| > 0 && (t[0] == '-' || t[0] == '+') then t[1..] else t
  }

  /** Reading back the decimal text of `n` gives `n`. */
  lemma {:induction false} DigitsValueOfNatToString(n: nat)
    ensures DigitsValue(NatToString(n)) == n
    decreases n
  {
    var s := NatToString(n);
    if n >= 10 {
      assert s[..|s| - 1] == NatToString(n / 10);
      DigitsValueOfNatToString(n / 10);
      assert DigitValue(s[|s| - 1]) == n % 10 by {
        assert DigitChar(DigitValue(s[|s| - 1])) == DigitChar(n % 10);
      }
    } else {
      assert s[..0] == [];
      assert DigitValue(s[0]) == n by {
        assert DigitChar(DigitValue(s[0])) == DigitChar(n);
      }
    }
  }

  /** `parseInt` reads a natural number back from its decimal text, whatever non-digit text follows. */
  lemma ParseIntRoundTrip(n: nat, rest: string)
    requires |rest| == 0 || !IsDigit(rest[0])
    ensures ParseInt(NatToString(n) + rest) == Some(n)
  {
    var s := NatToString(n) + rest;
    assert !IsSpace(s[0]) && s[0] != '-' && s[0] != '+' by {
      assert IsDigit(s[0]);
    }
    assert TrimStart(s) == s;
    assert Unsigned(s) == s;
    var k := |NatToString(n)|;
    DigitRunPrefix(NatToString(n), rest);
    assert s[..k] == NatToString(n);
    DigitsValueOfNatToString(n);
  }

  /** The digit run of all-digit text followed by a non-digit is that text. */
  lemma {:induction false} DigitRunPrefix(digits: string, rest: string)
    requires forall i :: 0 <= i < |digits| ==> IsDigit(digits[i])
    requires |rest| == 0 || !IsDigit(rest[0])
    ensures DigitRun(digits + rest) == |digits|
    decreases |digits|
  {
    if |digits| > 0 {
      assert (digits + rest)[1..] == digits[1..] + rest;
      DigitRunPrefix(digits[1..], rest);
    } else {
      assert digits + rest == rest;
    }
  }

  /** A key name that starts with a letter is not a number. */
  lemma LetterKeyIsNaN(key: string)
    requires |key| > 0 && ('A' <= key[0] <= 'Z' || 'a' <= key[0] <= 'z')
    ensures ParseInt(key) == None
  {
    assert !IsSpace(key[0]);
    assert TrimStart(key) == key;
  }

  // ---------------------------------------------------------------------------
  // before-input-event
  // ---------------------------------------------------------------------------

  datatype KeyInput = KeyInput(keyDown: bool, control: bool, meta: bool, shift: bool, key: string)

  /** The request sent to the renderer; `GoToTab` carries the zero-based tab index. */
  datatype Action = PrevTab | NextTab | GoToTab(index: int) | RestartTerminal

  /** What the handler does with one input event. */
  datatype Reaction = Reaction(action: Option<Action>, preventDefault: bool)

  function Ignore(): Reaction
  {
    Reaction(None, false)
  }

  /** The modifier test: Ctrl on Windows and Linux, Cmd on macOS. */
  predicate Commanded(input: KeyInput)
  {
    input.keyDown && (input.control || input.meta)
  }

  /**
   * The handler's decision.  A request is sent, and the default action
   * suppressed, only for a key-down with Ctrl or Cmd on Tab, a digit from 1
   * to 9 or Shift+R; every other key sends nothing.  A go-to-tab request
   * always names one of the first nine tabs and is the parsed key minus one.
   */
  function Classify(input: KeyInput): (r: Reaction)
    ensures r.preventDefault <==> r.action.Some?
    ensures r.action.Some? ==> Commanded(input)
    ensures r.action.Some? && r.action.value.GoToTab? ==>
      0 <= r.action.value.index <= 8 && ParseInt(input.key) == Some(r.action.value.index + 1)
    ensures r.action == Some(RestartTerminal) ==> input.shift
    ensures r.action.Some? ==>
      input.key == "Tab" || TabNumber(input.key).Some? || (input.key == "R" && input.shift)
    ensures Commanded(input) && input.key != "Tab" && TabNumber(input.key).Some? ==>
      r.action == Some(GoToTab(TabNumber(input.key).value))
  {
    if !input.keyDown then Ignore()
    else if !(input.control || input.meta) then Ignore()
    else if input.key == "Tab" then
      Reaction(Some(if input.shift then PrevTab else NextTab), true)
    else
      var tab := TabNumber(input.key);
      if tab.Some? then Reaction(Some(GoToTab(tab.value)), true)
      else if input.key == "R" && input.shift then Reaction(Some(RestartTerminal), true)
      else Ignore()
  }

  /** The zero-based tab a key names: its number from 1 to 9, less one. */
  function TabNumber(key: string): (r: Option<int>)
    ensures r.Some? <==> ParseInt(key).Some? && 1 <= ParseInt(key).value <= 9
    ensures r.Some? ==> 0 <= r.value <= 8 && ParseInt(key) == Some(r.value + 1)
  {
    var num := ParseInt(key);
    if num.Some? && 1 <= num.value <= 9 then Some(num.value - 1) else None
  }

  /** Ctrl+Tab cycles forward and Ctrl+Shift+Tab backward, with Ctrl or Cmd alike. */
  lemma TabCycles(control: bool, meta: bool, shift: bool)
    requires control || meta
    ensures Classify(KeyInput(true, control, meta, shift, "Tab")).action ==
      Some(if shift then PrevTab else NextTab)
  {
  }

  /** Ctrl+1 … Ctrl+9 go to the first … ninth tab, whatever Shift says. */
  lemma DigitSelectsTab(d: nat, control: bool, meta: bool, shift: bool)
    requires 1 <= d <= 9 && (control || meta)
    ensures Classify(KeyInput(true, control, meta, shift, [DigitChar(d)])).action == Some(GoToTab(d - 1))
  {
    var key := [DigitChar(d)];
    SingleDigitParses(d);
    assert key != "Tab" by { assert |key| == 1; }
  }

  /** A one-digit key name parses to its digit. */
  lemma SingleDigitParses(d: nat)
    requires d < 10
    ensures ParseInt([DigitChar(d)]) == Some(d)
  {
    ParseIntRoundTrip(d, []);
    assert NatToString(d) == [DigitChar(d)];
    assert NatToString(d) + [] == [DigitChar(d)];
  }

  /** Ctrl+0 and a digit key without Ctrl or Cmd send nothing. */
  lemma OtherDigitsIgnored(d: nat, input: KeyInput)
    requires d < 10 && input.key == [DigitChar(d)]
    requires d == 0 || !Commanded(input)
    ensures Classify(input) == Ignore()
  {
    SingleDigitParses(d);
    assert input.key != "Tab" && input.key != "R" by { assert |input.key| == 1 && IsDigit(input.key[0]); }
  }

  /** Ctrl+Shift+R restarts; Ctrl+R without Shift sends nothing. */
  lemma RestartNeedsShift(control: bool, meta: bool, shift: bool)
    requires control || meta
    ensures Classify(KeyInput(true, control, meta, shift, "R")).action ==
      (if shift then Some(RestartTerminal) else None)
  {
    LetterKeyIsNaN("R");
  }

  /**
   * The tab a go-to-tab request selects: the one at the requested index
   * when the workspace has that many tabs, otherwise none.
   */
  lemma GoToTabTarget(input: KeyInput, count: nat)
    requires Classify(input).action.Some? && Classify(input).action.value.GoToTab?
    ensures var i := Classify(input).action.value.index;
      0 <= i && Tabs.GoToTab(count, i) == (if i < count then Some(i as nat) else None)
  {
  }
}
