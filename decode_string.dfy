/**
 * Decode string: an encoded string `k[encoded]` stands for `encoded`
 * repeated `k` times, nested and mixed with plain letters. The decoder works
 * on a stack of strings: every character is pushed, and a `]` pops the text
 * back to the matching `[`, then the count's digits below it, and pushes the
 * repeated text.
 *
 * A valid input is described by the tree it encodes (`Item`); the decoder is
 * proved to give that tree's meaning (`Decode`) from its text (`Encode`).
 */
module DecodeString {
  /** A piece of a valid input: a letter, or a count written in digits with a bracketed body. */
  datatype Item = Letter(c: char) | Group(count: string, body: seq<Item>)

  predicate IsDigit(c: char)
  {
    '0' <= c <= '9'
  }

  predicate IsLower(c: char)
  {
    'a' <= c <= 'z'
  }

  /**
   * A stack entry on which JavaScript's `Number` gives a number rather than
   * `NaN`. For the entries a stack of digits, lower-case letters, brackets
   * and decoded text can hold, that is a string of decimal digits, the empty
   * string included (it reads as 0).
   */
  predicate IsNumeric(x: string)
  {
    forall j :: 0 <= j < |x| ==> IsDigit(x[j])
  }

  /** `Number(num)` of a string of decimal digits. */
  function Number(num: string): nat
  {
    if num == [] then 0
    else
      var d := (num[|num| - 1] as int) - ('0' as int);
      10 * Number(num[..|num| - 1]) + (if 0 <= d <= 9 then d else 0)
  }

  /** `text.repeat(n)`. */
  function Repeat(text: string, n: nat): (r: string)
    ensures |r| == n * |text|
  {
    if n == 0 then "" else text + Repeat(text, n - 1)
  }

  /** `stack.join("")`. */
  function Join(xs: seq<string>): string
  {
    if xs == [] then "" else xs[0] + Join(xs[1..])
  }

  /** A valid input: lower-case letters, and counts that are positive numbers in digits around non-empty bodies. */
  predicate WellFormedItem(it: Item)
    decreases it, 1
  {
    match it
    case Letter(c) => IsLower(c)
    case Group(count, body) =>
      count != [] && IsNumeric(count) && Number(count) >= 1 && body != [] && WellFormed(body)
  }

  predicate WellFormed(items: seq<Item>)
    decreases items, 0
  {
    items == [] || (WellFormedItem(items[0]) && WellFormed(items[1..]))
  }

  /** The text of an item: `k[body]` for a group. */
  function EncodeItem(it: Item): string
    decreases it, 1
  {
    match it
    case Letter(c) => [c]
    case Group(count, body) => count + "[" + Encode(body) + "]"
  }

  function Encode(items: seq<Item>): string
    decreases items, 0
  {
    if items == [] then "" else EncodeItem(items[0]) + Encode(items[1..])
  }

  /** The meaning of an item: a letter stands for itself, a group for its body's meaning repeated `count` times. */
  function DecodeItem(it: Item): string
    decreases it, 1
  {
    match it
    case Letter(c) => [c]
    case Group(count, body) => Repeat(Decode(body), Number(count))
  }

  function Decode(items: seq<Item>): string
    decreases items, 0
  {
    if items == [] then "" else DecodeItem(items[0]) + Decode(items[1..])
  }

  // ---------------------------------------------------------------------------
  // The stack machine, one character at a time

  /** The position of the first entry above the topmost `[`, where the popping for a `]` stops. */
  function TextStart(st: seq<string>): (t: nat)
    ensures t <= |st|
  {
    if st == [] || st[|st| - 1] == "[" then |st| else TextStart(st[..|st| - 1])
  }

  /** The position of the lowest of the numeric entries on top of the stack. */
  function DigitStart(st: seq<string>): (t: nat)
    ensures t <= |st|
  {
    if st == [] || !IsNumeric(st[|st| - 1]) then |st| else DigitStart(st[..|st| - 1])
  }

  /**
   * What a `]` does: the entries above the topmost `[` are joined into the
   * text, the `[` is popped, the numeric entries below it are joined into the
   * count, and the text repeated that often is pushed in place of all of them.
   */
  function Close(st: seq<string>): seq<string>
  {
    var t := TextStart(st);
    var add := Join(st[t..]);
    var below := if t == 0 then [] else st[..t - 1];
    var d := DigitStart(below);
    below[..d] + [Repeat(add, Number(Join(below[d..])))]
  }

  function Step(st: seq<string>, c: char): seq<string>
  {
    if c == ']' then Close(st) else st + [[c]]
  }

  /** The stack after reading `s` from the stack `st`. */
  function Run(st: seq<string>, s: string): seq<string>
    decreases |s|
  {
    if s == [] then st else Run(Step(st, s[0]), s[1..])
  }

  // ---------------------------------------------------------------------------
  // The decoder

  /** The first inner loop of a `]`: pops the entries above the topmost `[`, joining them into `add`. */
  method PopText(stack: seq<string>) returns (rest: seq<string>, add: string)
    ensures rest == stack[..TextStart(stack)] && add == Join(stack[TextStart(stack)..])
  {
    rest, add := stack, "";
    while |rest| > 0 && rest[|rest| - 1] != "["
      invariant rest == stack[..|rest|]
      invariant TextStart(rest) == TextStart(stack)
      invariant add == Join(stack[|rest|..])
    {
      JoinFront(stack, |rest| - 1);
      add := rest[|rest| - 1] + add;
      rest := rest[..|rest| - 1];
    }
  }

  /** The second inner loop: pops the numeric entries on top, joining them into the count `num`. */
  method PopCount(stack: seq<string>) returns (rest: seq<string>, num: string)
    ensures rest == stack[..DigitStart(stack)] && num == Join(stack[DigitStart(stack)..])
  {
    rest, num := stack, "";
    while |rest| > 0 && IsNumeric(rest[|rest| - 1])
      invariant rest == stack[..|rest|]
      invariant DigitStart(rest) == DigitStart(stack)
      invariant num == Join(stack[|rest|..])
    {
      JoinFront(stack, |rest| - 1);
      num := rest[|rest| - 1] + num;
      rest := rest[..|rest| - 1];
    }
  }

  /** The `]` branch: text, `[`, count, then the repeated text pushed. */
  method CloseBracket(stack: seq<string>) returns (stack': seq<string>)
    ensures stack' == Close(stack)
  {
    var below, add := PopText(stack);
    ghost var t := TextStart(stack);
    if |below| > 0 {
      below := below[..|below| - 1];
      assert below == stack[..t - 1];
    }
    var rest, num := PopCount(below);
    var addnum := Repeat(add, Number(num));
    stack' := rest + [addnum];
  }

  /**
   * `decodeString(s)` on a valid input `s`, the text of the items `items`:
   * the result is their meaning.
   */
  method Decoder(s: string, ghost items: seq<Item>) returns (r: string)
    requires WellFormed(items) && s == Encode(items)
    ensures r == Decode(items)
  {
    var stack: seq<string> := [];
    for i := 0 to |s|
      invariant stack == Run([], s[..i])
    {
      var current := s[i];
      RunSnoc([], s[..i], current);
      assert s[..i + 1] == s[..i] + [current];
      if current == ']' {
        stack := CloseBracket(stack);
      } else {
        stack := stack + [[current]];
      }
    }
    assert s[..|s|] == s;
    ItemsRun([], items);
    assert stack == Outputs(items);
    JoinOutputs(items);
    r := Join(stack);
  }

  /** Joining from entry `k` on is entry `k` followed by the rest. */
  lemma JoinFront(xs: seq<string>, k: nat)
    requires k < |xs|
    ensures Join(xs[k..]) == xs[k] + Join(xs[k + 1..])
  {
    assert xs[k..][1..] == xs[k + 1..];
  }

  // ---------------------------------------------------------------------------
  // Why the decoder is right

  lemma {:induction false} RunAppend(st: seq<string>, a: string, b: string)
    ensures Run(st, a + b) == Run(Run(st, a), b)
    decreases |a|
  {
    if a != [] {
      assert (a + b)[0] == a[0] && (a + b)[1..] == a[1..] + b;
      RunAppend(Step(st, a[0]), a[1..], b);
    } else {
      assert a + b == b;
    }
  }

  lemma RunSnoc(st: seq<string>, s: string, c: char)
    ensures Run(st, s + [c]) == Step(Run(st, s), c)
  {
    RunAppend(st, s, [c]);
  }

  /** One entry per character. */
  function Singletons(k: string): (r: seq<string>)
    ensures |r| == |k|
  {
    if k == [] then [] else Singletons(k[..|k| - 1]) + [[k[|k| - 1]]]
  }

  /** The entries each item leaves on the stack: a letter, or a group's decoded text. */
  function Outputs(items: seq<Item>): (r: seq<string>)
    ensures |r| == |items|
  {
    if items == [] then [] else [DecodeItem(items[0])] + Outputs(items[1..])
  }

  /** Characters with no `]` among them are pushed one entry each. */
  lemma {:induction false} RunPush(st: seq<string>, k: string)
    requires forall j :: 0 <= j < |k| ==> k[j] != ']'
    ensures Run(st, k) == st + Singletons(k)
    decreases |k|
  {
    if k != [] {
      var init := k[..|k| - 1];
      assert k == init + [k[|k| - 1]];
      RunAppend(st, init, [k[|k| - 1]]);
      RunPush(st, init);
    }
  }

  lemma {:induction false} JoinAppend(a: seq<string>, b: seq<string>)
    ensures Join(a + b) == Join(a) + Join(b)
    decreases |a|
  {
    if a != [] {
      assert (a + b)[0] == a[0] && (a + b)[1..] == a[1..] + b;
      JoinAppend(a[1..], b);
    } else {
      assert a + b == b;
    }
  }

  lemma {:induction false} JoinSingletons(k: string)
    ensures Join(Singletons(k)) == k
    decreases |k|
  {
    if k != [] {
      var init := k[..|k| - 1];
      JoinSingletons(init);
      JoinAppend(Singletons(init), [[k[|k| - 1]]]);
      assert k == init + [k[|k| - 1]];
    }
  }

  lemma {:induction false} JoinOutputs(items: seq<Item>)
    ensures Join(Outputs(items)) == Decode(items)
    decreases |items|
  {
    if items != [] {
      JoinOutputs(items[1..]);
    }
  }

  predicate AllLower(x: string)
  {
    forall j :: 0 <= j < |x| ==> IsLower(x[j])
  }

  lemma {:induction false} RepeatLower(text: string, n: nat)
    requires AllLower(text)
    ensures AllLower(Repeat(text, n))
  {
    if n > 0 {
      RepeatLower(text, n - 1);
    }
  }

  /** A valid input decodes to lower-case letters only: no digits or brackets are left. */
  lemma {:induction false} DecodeItemLower(it: Item)
    requires WellFormedItem(it)
    ensures AllLower(DecodeItem(it)) && DecodeItem(it) != []
    decreases it, 1
  {
    match it
    case Letter(c) =>
    case Group(count, body) =>
      DecodeLower(body);
      RepeatLower(Decode(body), Number(count));
  }

  lemma {:induction false} DecodeLower(items: seq<Item>)
    requires WellFormed(items)
    ensures AllLower(Decode(items))
    ensures items != [] ==> Decode(items) != []
    decreases items, 0
  {
    if items != [] {
      DecodeItemLower(items[0]);
      DecodeLower(items[1..]);
    }
  }

  /** The stack's top does not read as a number, so a count pushed on it stays separate. */
  predicate Floor(st: seq<string>)
  {
    st == [] || !IsNumeric(st[|st| - 1])
  }

  /** No entry of `b` is a `[`: the popping for a `]` goes through all of them. */
  lemma {:induction false} TextAbove(x: seq<string>, b: seq<string>)
    requires forall j :: 0 <= j < |b| ==> b[j] != "["
    ensures TextStart(x + ["["] + b) == |x| + 1
    decreases |b|
  {
    if b != [] {
      var init := b[..|b| - 1];
      assert (x + ["["] + b)[..|x| + 1 + |init|] == x + ["["] + init;
      TextAbove(x, init);
    }
  }

  /** The digits of a count pushed on a floor are exactly the numeric entries on top. */
  lemma {:induction false} DigitsAbove(a: seq<string>, k: string)
    requires Floor(a) && IsNumeric(k)
    ensures DigitStart(a + Singletons(k)) == |a|
    decreases |k|
  {
    if k != [] {
      var init := k[..|k| - 1];
      assert IsNumeric([k[|k| - 1]]);
      assert (a + Singletons(k))[..|a| + |init|] == a + Singletons(init);
      DigitsAbove(a, init);
    } else {
      assert a + Singletons(k) == a;
    }
  }

  /** `Close` spelled out for a stack whose text starts at `t` and whose count starts at `d`. */
  lemma CloseAt(st: seq<string>, t: nat, d: nat)
    requires 1 <= t <= |st| && t == TextStart(st) && d == DigitStart(st[..t - 1])
    ensures Close(st) == st[..d] + [Repeat(Join(st[t..]), Number(Join(st[d..t - 1])))]
  {
    assert st[..t - 1][..d] == st[..d];
    assert st[..t - 1][d..] == st[d..t - 1];
  }

  /** The `]` of a group closes it: the count and the body's entries become the body's text repeated. */
  lemma CloseGroup(st: seq<string>, count: string, body: seq<Item>)
    requires Floor(st) && IsNumeric(count) && WellFormed(body)
    ensures Close(st + Singletons(count) + ["["] + Outputs(body)) == st + [Repeat(Decode(body), Number(count))]
  {
    var outs := Outputs(body);
    var digits := Singletons(count);
    OutputsLower(body);
    TextAbove(st + digits, outs);
    DigitsAbove(st, count);
    Pieces(st, digits, outs);
    CloseAt(st + digits + ["["] + outs, |st| + |digits| + 1, |st|);
    JoinOutputs(body);
    JoinSingletons(count);
  }

  /** The parts of a stack holding a count and a `[` above `st`. */
  lemma Pieces(st: seq<string>, digits: seq<string>, outs: seq<string>)
    ensures var whole := st + digits + ["["] + outs;
            && whole[..|st| + |digits|] == st + digits
            && whole[|st| + |digits| + 1..] == outs
            && whole[|st|..|st| + |digits|] == digits
            && whole[..|st|] == st
  {
    var whole := st + digits + ["["] + outs;
    assert whole[..|st| + |digits|] == st + digits;
    assert whole[|st| + |digits| + 1..] == outs;
    assert whole[|st|..|st| + |digits|] == digits;
  }

  /** Every entry a valid item leaves is non-empty lower-case text, so not a `[`. */
  lemma {:induction false} OutputsLower(items: seq<Item>)
    requires WellFormed(items)
    ensures forall j :: 0 <= j < |items| ==> Outputs(items)[j] != "[" && AllLower(Outputs(items)[j]) && Outputs(items)[j] != []
    decreases |items|
  {
    if items != [] {
      DecodeItemLower(items[0]);
      OutputsLower(items[1..]);
      forall j | 0 <= j < |items|
        ensures Outputs(items)[j] != "[" && AllLower(Outputs(items)[j]) && Outputs(items)[j] != []
      {
        if j == 0 {
          var o := Outputs(items)[0];
          assert o == DecodeItem(items[0]);
          assert o[0] != '[' && "["[0] == '[';
        } else {
          assert Outputs(items)[j] == Outputs(items[1..])[j - 1];
        }
      }
    }
  }

  /** Reading a valid item's text pushes exactly its output. */
  lemma {:induction false} ItemRun(st: seq<string>, it: Item)
    requires Floor(st) && WellFormedItem(it)
    ensures Run(st, EncodeItem(it)) == st + [DecodeItem(it)]
    decreases it, 1
  {
    match it
    case Letter(c) =>
      assert Step(st, c) == st + [[c]];
    case Group(count, body) =>
      var st1 := st + Singletons(count);
      var st2 := st1 + ["["];
      assert forall j :: 0 <= j < |count| ==> count[j] != ']';
      RunPush(st, count);
      RunAppend(st, count, "[");
      RunAppend(st, count + "[", Encode(body));
      RunAppend(st, count + "[" + Encode(body), "]");
      assert Run(st1, "[") == st2;
      ItemsRun(st2, body);
      assert Run(st2 + Outputs(body), "]") == Close(st2 + Outputs(body));
      CloseGroup(st, count, body);
  }

  /** Reading valid items' text from a floor pushes their outputs. */
  lemma {:induction false} ItemsRun(st: seq<string>, items: seq<Item>)
    requires Floor(st) && WellFormed(items)
    ensures Run(st, Encode(items)) == st + Outputs(items)
    decreases items, 0
  {
    if items != [] {
      ItemRun(st, items[0]);
      RunAppend(st, EncodeItem(items[0]), Encode(items[1..]));
      var st' := st + [DecodeItem(items[0])];
      FloorAfter(st, items[0]);
      ItemsRun(st', items[1..]);
      var rest := Outputs(items[1..]);
      assert Outputs(items) == [DecodeItem(items[0])] + rest;
      assert st' + rest == st + ([DecodeItem(items[0])] + rest);
    } else {
      assert st + Outputs(items) == st;
    }
  }

  /** A valid item's output is a floor: it does not read as a number. */
  lemma FloorAfter(st: seq<string>, it: Item)
    requires WellFormedItem(it)
    ensures Floor(st + [DecodeItem(it)])
  {
    DecodeItemLower(it);
    var top := DecodeItem(it);
    assert IsLower(top[0]) && !IsDigit(top[0]);
  }

  // ---------------------------------------------------------------------------
  // Properties of valid inputs

  /** Plain letters, one item each. */
  function Letters(text: string): (items: seq<Item>)
    ensures |items| == |text|
  {
    if text == [] then [] else [Letter(text[0])] + Letters(text[1..])
  }

  /** Plain letters are a valid input when every one is lower-case. */
  lemma {:induction false} LettersValid(text: string)
    requires AllLower(text)
    ensures WellFormed(Letters(text))
    decreases |text|
  {
    if text != [] {
      LettersValid(text[1..]);
      assert Letters(text)[1..] == Letters(text[1..]);
    }
  }

  /** Plain letters are their own text. */
  lemma {:induction false} LettersText(text: string)
    ensures Encode(Letters(text)) == text
    decreases |text|
  {
    if text != [] {
      LettersText(text[1..]);
      assert Letters(text)[1..] == Letters(text[1..]);
      assert text == [text[0]] + text[1..];
    }
  }

  /** Plain letters stand for themselves. */
  lemma {:induction false} LettersMeaning(text: string)
    ensures Decode(Letters(text)) == text
    decreases |text|
  {
    if text != [] {
      LettersMeaning(text[1..]);
      assert Letters(text)[1..] == Letters(text[1..]);
      assert text == [text[0]] + text[1..];
    }
  }

  /** Text without brackets is its own encoding and decodes to itself. */
  lemma PlainText(text: string)
    requires AllLower(text)
    ensures WellFormed(Letters(text)) && Encode(Letters(text)) == text && Decode(Letters(text)) == text
  {
    LettersValid(text);
    LettersText(text);
    LettersMeaning(text);
  }

  /** The text of items side by side is their texts side by side. */
  lemma {:induction false} EncodeConcat(a: seq<Item>, b: seq<Item>)
    ensures Encode(a + b) == Encode(a) + Encode(b)
    decreases |a|
  {
    if a == [] {
      assert a + b == b;
    } else {
      assert (a + b)[0] == a[0] && (a + b)[1..] == a[1..] + b;
      EncodeConcat(a[1..], b);
    }
  }

  /** The meaning of items side by side is their meanings side by side. */
  lemma {:induction false} DecodeConcat(a: seq<Item>, b: seq<Item>)
    ensures Decode(a + b) == Decode(a) + Decode(b)
    decreases |a|
  {
    if a == [] {
      assert a + b == b;
    } else {
      assert (a + b)[0] == a[0] && (a + b)[1..] == a[1..] + b;
      DecodeConcat(a[1..], b);
    }
  }

  /** Valid inputs side by side are a valid input. */
  lemma {:induction false} ValidConcat(a: seq<Item>, b: seq<Item>)
    requires WellFormed(a) && WellFormed(b)
    ensures WellFormed(a + b)
    decreases |a|
  {
    if a == [] {
      assert a + b == b;
    } else {
      assert (a + b)[0] == a[0] && (a + b)[1..] == a[1..] + b;
      ValidConcat(a[1..], b);
    }
  }

  /** Items side by side are encoded and decoded side by side: text around a group keeps its place. */
  lemma Concat(a: seq<Item>, b: seq<Item>)
    ensures Encode(a + b) == Encode(a) + Encode(b)
    ensures Decode(a + b) == Decode(a) + Decode(b)
    ensures WellFormed(a) && WellFormed(b) ==> WellFormed(a + b)
  {
    EncodeConcat(a, b);
    DecodeConcat(a, b);
    if WellFormed(a) && WellFormed(b) {
      ValidConcat(a, b);
    }
  }

  /** A single valid item is a valid input. */
  lemma Single(it: Item)
    requires WellFormedItem(it)
    ensures WellFormed([it]) && Encode([it]) == EncodeItem(it) && Decode([it]) == DecodeItem(it)
  {
    assert [it][1..] == [];
  }

  /** The items of "3[a2[c]]": three times an `a` followed by two `c`s. */
  function Nested(): seq<Item>
  {
    [Group("3", [Letter('a'), Group("2", [Letter('c')])])]
  }

  lemma NestedText()
    ensures WellFormed(Nested()) && Encode(Nested()) == "3[a2[c]]" && Decode(Nested()) == "accaccacc"
  {
    var inner := [Letter('a'), Group("2", [Letter('c')])];
    Single(Letter('c'));
    Single(inner[1]);
    assert inner[1..] == [inner[1]];
    assert WellFormed(inner) && Encode(inner) == "a2[c]" && Decode(inner) == "acc";
    Single(Group("3", inner));
  }

  /** The source's nested case: "3[a2[c]]" decodes to "accaccacc". */
  method NestedExample() returns (r: string)
    ensures r == "accaccacc"
  {
    NestedText();
    r := Decoder("3[a2[c]]", Nested());
  }

  /** A two-digit count: "10[a]" decodes to ten a's. */
  method LargeCountExample() returns (r: string)
    ensures r == "aaaaaaaaaa"
  {
    assert Number("10") == 10;
    r := Decoder("10[a]", [Group("10", [Letter('a')])]);
  }

  /** Text around a group: "a2[b]c" decodes to "abbc". */
  method MixedExample() returns (r: string)
    ensures r == "abbc"
  {
    r := Decoder("a2[b]c", [Letter('a'), Group("2", [Letter('b')]), Letter('c')]);
  }
}
