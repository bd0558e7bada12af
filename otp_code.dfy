/** The input rules of `OtpCodeInput`, the one-time-code field: how typed or
    pasted text is cleaned, what Backspace does, how the value is laid out
    into boxes and which box is highlighted. `onChangeCode` is modelled as the
    value a handler emits (`Some(code)`) or the absence of a call (`None`). */
module OtpCode {

  datatype Option<T> = None | Some(value: T)

  /** The `length` prop when the caller leaves it out. */
  const DefaultLength: int := 6

  /** The key name `handleKeyPress` reacts to. */
  const BackspaceKey: string := "Backspace"

  /** The `length = 6` default of the component's parameter list. */
  function ResolveLength(prop: Option<int>): (n: int)
    ensures prop.None? ==> n == 6
    ensures prop.Some? ==> n == prop.value
  {
    match prop
    case None => DefaultLength
    case Some(n) => n
  }

  function Min(a: int, b: int): int { if a <= b then a else b }

  function Max(a: int, b: int): int { if a <= b then b else a }

  /** A character that `\D` does not match: an ASCII decimal digit. */
  predicate IsDigit(c: char) { '0' <= c <= '9' }

  predicate AllDigits(s: string) {
    forall i :: 0 <= i < |s| ==> IsDigit(s[i])
  }

  /** A code the field can hold once cleaned: digits only, at most `length` of them. */
  predicate ValidCode(code: string, length: int) {
    AllDigits(code) && |code| <= length
  }

  /** `sub` is what is left of `s` after deleting some of its elements. */
  predicate IsSubsequence<T(==)>(sub: seq<T>, s: seq<T>)
    decreases |s|
  {
    if sub == [] then true
    else if s == [] then false
    else if sub[0] == s[0] then IsSubsequence(sub[1..], s[1..])
    else IsSubsequence(sub, s[1..])
  }

  /** Where `x.slice(0, end)` stops on something of `len` elements: a negative
      `end` counts back from the end, and the position is clamped to [0, len]. */
  function SliceEnd(len: nat, end: int): (k: nat)
    ensures k <= len
    ensures 0 <= end <= len ==> k == end
    ensures end > len ==> k == len
    ensures end < 0 && len + end >= 0 ==> len - k == -end
    ensures len + end < 0 ==> k == 0
  {
    if end >= 0 then Min(end, len) else Max(len + end, 0)
  }

  // ---------------------------------------------------------------------
  // handleChangeText: text.replace(/\D/g, '').slice(0, length)
  // ---------------------------------------------------------------------

  /** `text.replace(/\D/g, '')`: every non-digit removed. */
  function StripNonDigits(s: string): (r: string)
    ensures |r| <= |s|
    ensures AllDigits(r)
  {
    if s == [] then []
    else if IsDigit(s[0]) then [s[0]] + StripNonDigits(s[1..])
    else StripNonDigits(s[1..])
  }

  /** The digits that survive keep their relative order. */
  lemma {:induction false} StripNonDigitsKeepsOrder(s: string)
    ensures IsSubsequence(StripNonDigits(s), s)
  {
    if s != [] {
      StripNonDigitsKeepsOrder(s[1..]);
      var rest := StripNonDigits(s[1..]);
      if IsDigit(s[0]) {
        assert StripNonDigits(s) == [s[0]] + rest;
        assert ([s[0]] + rest)[1..] == rest;
      } else if rest != [] {
        assert IsDigit(rest[0]);
      }
    }
  }

  /** Every digit of the input survives, as often as it occurs; nothing else does. */
  lemma {:induction false} StripNonDigitsCounts(s: string, c: char)
    ensures multiset(StripNonDigits(s))[c] == if IsDigit(c) then multiset(s)[c] else 0
  {
    if s != [] {
      StripNonDigitsCounts(s[1..], c);
      assert s == [s[0]] + s[1..];
      assert multiset(s) == multiset([s[0]]) + multiset(s[1..]);
      if IsDigit(s[0]) {
        assert multiset(StripNonDigits(s)) == multiset([s[0]]) + multiset(StripNonDigits(s[1..]));
      }
    }
  }

  /** Cleaning works piece by piece: cleaning a concatenation concatenates the cleaned parts. */
  lemma {:induction false} StripNonDigitsConcat(a: string, b: string)
    ensures StripNonDigits(a + b) == StripNonDigits(a) + StripNonDigits(b)
  {
    if a == [] {
      assert a + b == b;
    } else {
      assert (a + b)[0] == a[0];
      assert (a + b)[1..] == a[1..] + b;
      StripNonDigitsConcat(a[1..], b);
    }
  }

  /** A string of digits only is left as it is. */
  lemma {:induction false} StripNonDigitsFixesDigits(s: string)
    requires AllDigits(s)
    ensures StripNonDigits(s) == s
  {
    if s != [] {
      assert AllDigits(s[1..]) by {
        forall i | 0 <= i < |s[1..]| ensures IsDigit(s[1..][i]) {
          assert s[1..][i] == s[i + 1];
        }
      }
      StripNonDigitsFixesDigits(s[1..]);
      assert IsDigit(s[0]);
      assert s == [s[0]] + s[1..];
    }
  }

  /** The cleaning step of `handleChangeText`. */
  function Sanitize(text: string, length: int): (code: string)
    ensures AllDigits(code)
    ensures length >= 0 ==> ValidCode(code, length)
  {
    var d := StripNonDigits(text);
    assert AllDigits(d[..SliceEnd(|d|, length)]) by {
      forall i | 0 <= i < SliceEnd(|d|, length) ensures IsDigit(d[..SliceEnd(|d|, length)][i]) {
        assert d[..SliceEnd(|d|, length)][i] == d[i];
      }
    }
    d[..SliceEnd(|d|, length)]
  }

  /** For a non-negative `length`, the cleaned code is the first `length`
      digits of the text (all of them if there are fewer). */
  lemma SanitizeTakesLeadingDigits(text: string, length: int)
    requires length >= 0
    ensures Sanitize(text, length) <= StripNonDigits(text)
    ensures |Sanitize(text, length)| == Min(length, |StripNonDigits(text)|)
  {
  }

  /** A code that is already valid comes back unchanged. */
  lemma SanitizeFixesValidCode(code: string, length: int)
    requires ValidCode(code, length)
    ensures Sanitize(code, length) == code
  {
    StripNonDigitsFixesDigits(code);
  }

  /** Cleaning twice is cleaning once. */
  lemma SanitizeIdempotent(text: string, length: int)
    requires length >= 0
    ensures Sanitize(Sanitize(text, length), length) == Sanitize(text, length)
  {
    SanitizeFixesValidCode(Sanitize(text, length), length);
  }

  /** Cleaning drops one non-digit placed between two runs of digits. */
  lemma StripNonDigitsSkipsOne(head: string, c: char, tail: string)
    requires AllDigits(head) && AllDigits(tail) && !IsDigit(c)
    ensures StripNonDigits(head + [c] + tail) == head + tail
  {
    var left := head + [c];
    assert StripNonDigits([c]) == [] by {
      assert [c][1..] == [];
    }
    StripNonDigitsConcat(head, [c]);
    StripNonDigitsFixesDigits(head);
    assert StripNonDigits(left) == head;
    StripNonDigitsConcat(left, tail);
    StripNonDigitsFixesDigits(tail);
  }

  /** An example: with the default length, "12a3456789" becomes "123456". */
  lemma SanitizeExample(text: string)
    requires text == "12a3456789"
    ensures Sanitize(text, ResolveLength(None)) == "123456"
  {
    var head, tail := text[..2], text[3..];
    assert text == head + [text[2]] + tail;
    assert AllDigits(head) && AllDigits(tail);
    StripNonDigitsSkipsOne(head, text[2], tail);
    assert (head + tail)[..6] == "123456";
  }

  /** With a negative `length` the slice counts from the end, so each cleaning
      drops more digits and cleaning is not idempotent. */
  lemma SanitizeNegativeLengthDropsFromEnd(text: string)
    requires text == "12"
    ensures Sanitize(text, -1) == "1"
    ensures Sanitize(Sanitize(text, -1), -1) == ""
  {
    assert AllDigits(text);
    StripNonDigitsFixesDigits(text);
    assert AllDigits(text[..1]);
    StripNonDigitsFixesDigits(text[..1]);
  }

  /** `handleChangeText`: nothing while disabled, otherwise the cleaned text. */
  function HandleChangeText(isDisabled: bool, length: int, text: string): (emitted: Option<string>)
    ensures emitted.None? <==> isDisabled
    ensures emitted.Some? ==> AllDigits(emitted.value)
    ensures emitted.Some? && length >= 0 ==> ValidCode(emitted.value, length)
  {
    if isDisabled then None else Some(Sanitize(text, length))
  }

  /** Typing one more digit into a code that has room for it appends that digit. */
  lemma TypingDigitAppends(value: string, d: char, length: int)
    requires ValidCode(value, length) && |value| < length
    requires IsDigit(d)
    ensures HandleChangeText(false, length, value + [d]) == Some(value + [d])
  {
    var typed := value + [d];
    assert AllDigits(typed) by {
      forall i | 0 <= i < |typed| ensures IsDigit(typed[i]) {
        if i < |value| { assert typed[i] == value[i]; }
      }
    }
    SanitizeFixesValidCode(typed, length);
  }

  /** Typing a non-digit into a valid code leaves it as it was. */
  lemma TypingNonDigitIsIgnored(value: string, c: char, length: int)
    requires ValidCode(value, length)
    requires !IsDigit(c)
    ensures HandleChangeText(false, length, value + [c]) == Some(value)
  {
    StripNonDigitsFixesDigits(value);
    StripNonDigitsConcat(value, [c]);
    assert [c][1..] == [];
  }

  // ---------------------------------------------------------------------
  // handleKeyPress: Backspace drops the last character
  // ---------------------------------------------------------------------

  /** `handleKeyPress`: Backspace on a non-empty value emits it without its
      last character; any other key, an empty value or a disabled field emits nothing. */
  function HandleKeyPress(isDisabled: bool, value: string, key: string): (emitted: Option<string>)
    ensures emitted.Some? <==> !isDisabled && key == BackspaceKey && |value| > 0
    ensures emitted.Some? ==> emitted.value + [value[|value| - 1]] == value
  {
    if isDisabled then None
    else if key == BackspaceKey && |value| > 0 then Some(value[..|value| - 1])
    else None
  }

  /** Backspace keeps a valid code valid. */
  lemma BackspaceKeepsValidCode(isDisabled: bool, value: string, key: string, length: int)
    requires ValidCode(value, length)
    ensures HandleKeyPress(isDisabled, value, key).Some? ==>
              ValidCode(HandleKeyPress(isDisabled, value, key).value, length)
  {
    if HandleKeyPress(isDisabled, value, key).Some? {
      var code := HandleKeyPress(isDisabled, value, key).value;
      forall i | 0 <= i < |code| ensures IsDigit(code[i]) {
        assert code[i] == value[i];
      }
    }
  }

  /** Backspace followed by retyping the deleted digit restores the code. */
  lemma BackspaceThenRetype(value: string, length: int)
    requires ValidCode(value, length) && value != []
    ensures HandleKeyPress(false, value, BackspaceKey).Some?
    ensures HandleChangeText(false, length,
              HandleKeyPress(false, value, BackspaceKey).value + [value[|value| - 1]]) == Some(value)
  {
    var shorter := HandleKeyPress(false, value, BackspaceKey).value;
    BackspaceKeepsValidCode(false, value, BackspaceKey, length);
    TypingDigitAppends(shorter, value[|value| - 1], length);
  }

  // ---------------------------------------------------------------------
  // digits and activeIndex: the boxes
  // ---------------------------------------------------------------------

  /** How many boxes `digits` has: `length` for a non-negative `length`;
      otherwise the slice counts from the end and nothing is padded. */
  function SlotCount(valueLength: nat, length: int): nat {
    if length >= 0 then length else SliceEnd(valueLength, length)
  }

  /** The boxes: box i shows `value[i]` when there is one, and is empty otherwise. */
  function Slots(value: string, length: int): (slots: seq<string>)
    ensures |slots| == SlotCount(|value|, length)
  {
    seq(SlotCount(|value|, length), i requires 0 <= i < SlotCount(|value|, length) =>
      if i < |value| then [value[i]] else "")
  }

  /** The `digits` memo: split the value into characters, cut it to
      `length`, then push empty boxes until there are `length` of them. */
  method Digits(value: string, length: int) returns (chars: seq<string>)
    ensures length >= 0 ==> |chars| == length
    ensures length < 0 ==> |chars| == Max(|value| + length, 0)
    ensures forall i :: 0 <= i < |chars| && i < |value| ==> chars[i] == [value[i]]
    ensures forall i :: |value| <= i < |chars| ==> chars[i] == ""
    ensures chars == Slots(value, length)
  {
    var split := seq(|value|, i requires 0 <= i < |value| => [value[i]]);
    chars := split[..SliceEnd(|split|, length)];
    while |chars| < length
      invariant SliceEnd(|value|, length) <= |chars| <= SlotCount(|value|, length)
      invariant forall i :: 0 <= i < |chars| ==> chars[i] == if i < |value| then [value[i]] else ""
      decreases length - |chars|
    {
      chars := chars + [""];
    }
  }

  /** `activeIndex`: the box to highlight. */
  function ActiveIndex(value: string, length: int): (k: int)
    ensures length >= 1 ==> 0 <= k < length
    ensures |value| < length ==> k == |value|
    ensures |value| >= length ==> k == length - 1
  {
    Min(|value|, length - 1)
  }

  /** A box is drawn highlighted when it is the active one and the field is enabled. */
  predicate IsActiveSlot(idx: int, value: string, length: int, isDisabled: bool)
    ensures IsActiveSlot(idx, value, length, isDisabled) && length >= 1 ==>
              0 <= idx < |Slots(value, length)|
  {
    idx == ActiveIndex(value, length) && !isDisabled
  }

  /** The boxes that are drawn highlighted. */
  function HighlightedBoxes(value: string, length: int, isDisabled: bool): set<int> {
    set idx | 0 <= idx < |Slots(value, length)| && IsActiveSlot(idx, value, length, isDisabled)
  }

  /** An enabled field with at least one box highlights exactly the box at
      `ActiveIndex`; a disabled field, or one without boxes, highlights none. */
  lemma HighlightedBoxesFollowActiveIndex(value: string, length: int, isDisabled: bool)
    ensures HighlightedBoxes(value, length, isDisabled) ==
              if isDisabled || length < 1 then {} else {ActiveIndex(value, length)}
  {
    var boxes := HighlightedBoxes(value, length, isDisabled);
    if !isDisabled && length >= 1 {
      var k := ActiveIndex(value, length);
      assert |Slots(value, length)| == length;
      assert IsActiveSlot(k, value, length, isDisabled);
      assert k in boxes;
    }
  }

  /** With at least one box, the active box exists, every box before it is
      filled, and it is the first empty box while the code is short and the
      last box once the code is full. */
  lemma ActiveSlotIsNextToFill(value: string, length: int)
    requires length >= 1
    ensures 0 <= ActiveIndex(value, length) < |Slots(value, length)|
    ensures |value| < length ==> Slots(value, length)[ActiveIndex(value, length)] == ""
    ensures forall i :: 0 <= i < ActiveIndex(value, length) ==> Slots(value, length)[i] != ""
    ensures |value| >= length ==> Slots(value, length)[length - 1] == [value[length - 1]]
  {
  }
}
