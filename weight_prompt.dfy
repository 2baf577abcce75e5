/**
 * The keystroke handling of the edge-weight prompt (`popupGetWeight`): how the
 * keys typed into the input box build its text, when the prompt finishes, and
 * how the finished text becomes the weight handed back to the editor.
 * Drawing the box and polling the keyboard are not modelled: the keys the
 * user types are given as a sequence of key codes.
 */
module WeightPrompt {
  import opened Digits

  const ENTER := 13
  const ESCAPE := 27
  const BACKSPACE := 8
  /** The input box accepts at most this many digits. */
  const MAX_DIGITS := 6
  /** The value the prompt returns when it is cancelled. */
  const CANCELLED := -1

  /** What popupGetWeight can hand back: CANCELLED or a weight in 1..999999. */
  predicate IsAnswer(w: int) {
    w == CANCELLED || 1 <= w <= 999999
  }

  /** The prompt's local state: the typed text and the two loop flags. */
  datatype Entry = Entry(text: string, done: bool, canceled: bool)

  const Blank := Entry("", false, false)

  /** What the loop can reach: digits only, at most six of them, and never
      finished by Enter on an empty box. */
  predicate WellFormed(e: Entry) {
    && AllDigits(e.text)
    && |e.text| <= MAX_DIGITS
    && (e.canceled ==> e.done)
    && (e.done && !e.canceled ==> |e.text| > 0)
  }

  predicate IsDigitKey(c: int) {
    '0' as int <= c <= '9' as int
  }

  /** One keystroke while the prompt is open (main.cpp:396-400). */
  function Press(e: Entry, c: int): (r: Entry)
    requires !e.done
    ensures WellFormed(e) ==> WellFormed(r)
    ensures WellFormed(e) ==> (c == ESCAPE <==> r.canceled)
    ensures r.done <==> c == ESCAPE || (c == ENTER && |e.text| > 0)
    ensures !r.done ==> (IsDigitKey(c) && |e.text| < MAX_DIGITS <==> |r.text| == |e.text| + 1)
  {
    if c == ENTER then (if |e.text| > 0 then e.(done := true) else e)
    else if c == ESCAPE then e.(canceled := true, done := true)
    else if c == BACKSPACE then (if |e.text| > 0 then e.(text := e.text[..|e.text| - 1]) else e)
    else if IsDigitKey(c) && |e.text| < MAX_DIGITS then e.(text := e.text + [c as char])
    else e
  }

  /** The prompt after the keys are consumed one by one, stopping once it is done;
      keys after that are left unread. */
  function Feed(e: Entry, keys: seq<int>): (r: Entry)
    ensures e.done ==> r == e
    ensures ESCAPE !in keys ==> r.canceled == e.canceled
    decreases |keys|
  {
    if e.done || keys == [] then e else Feed(Press(e, keys[0]), keys[1..])
  }

  /** The weight returned for a finished prompt (main.cpp:405-407): -1 when
      cancelled, otherwise the typed number, with 0 replaced by 1. */
  function Result(e: Entry): (w: int)
    requires WellFormed(e) && e.done
    ensures e.canceled <==> w == CANCELLED
    ensures !e.canceled ==> 1 <= w < Pow10(MAX_DIGITS)
    ensures !e.canceled && DigitsValue(e.text) > 0 ==> w == DigitsValue(e.text)
    ensures !e.canceled && DigitsValue(e.text) <= 0 ==> w == 1
  {
    if e.canceled then CANCELLED
    else
      var v := DigitsValue(e.text);
      assert Pow10(|e.text|) <= Pow10(MAX_DIGITS) by { Pow10Monotone(|e.text|, MAX_DIGITS); }
      if v <= 0 then 1 else v
  }

  lemma {:induction false} Pow10Monotone(i: nat, j: nat)
    requires i <= j
    ensures Pow10(i) <= Pow10(j)
  {
    if i < j {
      Pow10Monotone(i, j - 1);
    }
  }

  /** Every state the prompt reaches from a blank box is well formed. */
  lemma {:induction false} FeedWellFormed(e: Entry, keys: seq<int>)
    requires WellFormed(e)
    ensures WellFormed(Feed(e, keys))
    decreases |keys|
  {
    if !e.done && keys != [] {
      FeedWellFormed(Press(e, keys[0]), keys[1..]);
    }
  }

  /** Whatever is typed, a finished prompt answers -1 or a weight in 1..999999. */
  lemma AnswerRange(keys: seq<int>)
    ensures var e := Feed(Blank, keys);
      WellFormed(e) && (e.done ==> IsAnswer(Result(e)))
  {
    FeedWellFormed(Blank, keys);
  }

  /** Escape cancels the prompt whatever was typed before it. */
  lemma EscapeCancels(e: Entry, rest: seq<int>)
    requires WellFormed(e) && !e.done
    ensures var r := Feed(e, [ESCAPE] + rest); r.done && WellFormed(r) && Result(r) == CANCELLED
  {
    assert ([ESCAPE] + rest)[1..] == rest;
    assert Press(e, ESCAPE).done;
  }

  /** The key codes of a string, one per character. */
  function KeysOf(s: string): (keys: seq<int>)
    ensures |keys| == |s|
  {
    if s == [] then [] else [s[0] as int] + KeysOf(s[1..])
  }

  /** Typing one digit into an open box that has room for it appends it. */
  lemma TypeDigit(t: string, c: char, rest: seq<int>)
    requires AllDigits(t) && IsDigit(c) && |t| < MAX_DIGITS
    ensures Feed(Entry(t, false, false), [c as int] + rest) == Feed(Entry(t + [c], false, false), rest)
  {
    assert ([c as int] + rest)[1..] == rest;
  }

  /** Typing digits into an open box that has room for them appends them. */
  lemma {:induction false} TypeDigits(t: string, s: string, rest: seq<int>)
    requires AllDigits(t) && AllDigits(s) && |t| + |s| <= MAX_DIGITS
    ensures Feed(Entry(t, false, false), KeysOf(s) + rest) == Feed(Entry(t + s, false, false), rest)
    decreases |s|
  {
    if s == [] {
      assert KeysOf(s) + rest == rest;
      assert t + s == t;
    } else {
      var t' := t + [s[0]];
      assert KeysOf(s) + rest == [s[0] as int] + (KeysOf(s[1..]) + rest);
      TypeDigit(t, s[0], KeysOf(s[1..]) + rest);
      TypeDigits(t', s[1..], rest);
      assert t' + s[1..] == t + s;
    }
  }

  /** Typing the numeral of a weight between 1 and 999999 and pressing Enter
      returns that weight. */
  lemma TypedWeightIsReturned(w: int)
    requires 1 <= w < Pow10(MAX_DIGITS)
    ensures var e := Feed(Blank, KeysOf(IntToStr(w)) + [ENTER]);
      WellFormed(e) && e.done && Result(e) == w
  {
    var s := IntToStr(w);
    NatToStrLength(w, MAX_DIGITS);
    IntToStrRoundTrip(w);
    TypeDigits("", s, [ENTER]);
    assert "" + s == s;
    assert Feed(Entry(s, false, false), [ENTER]) == Entry(s, true, false);
  }

  /**
   * The key-reading loop of the prompt: consumes keys until the prompt is done
   * and reports whether it finished and, if so, the weight it returns.
   */
  method ReadWeight(keys: seq<int>) returns (finished: bool, weight: int)
    ensures finished == Feed(Blank, keys).done
    ensures finished ==> WellFormed(Feed(Blank, keys)) && weight == Result(Feed(Blank, keys))
  {
    var text: string := "";
    var done, canceled := false, false;
    var i := 0;
    while !done && i < |keys|
      invariant 0 <= i <= |keys|
      invariant WellFormed(Entry(text, done, canceled))
      invariant Feed(Entry(text, done, canceled), keys[i..]) == Feed(Blank, keys)
    {
      var c := keys[i];
      assert keys[i..][1..] == keys[i + 1..];
      if c == ENTER {
        if |text| > 0 { done := true; }
      } else if c == ESCAPE {
        canceled := true;
        done := true;
      } else if c == BACKSPACE {
        if |text| > 0 { text := text[..|text| - 1]; }
      } else if IsDigitKey(c) && |text| < MAX_DIGITS {
        text := text + [c as char];
      }
      i := i + 1;
    }
    finished := done;
    weight := 0;
    if done {
      if canceled {
        weight := CANCELLED;
      } else {
        weight := 1;
        var v := DigitsValue(text);
        weight := v;
        if weight <= 0 { weight := 1; }
      }
    }
  }
}
