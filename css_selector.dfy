/** How a browser reads the selector `li[data-value="${key}"]` that `remove`
    builds without escaping, following CSS Syntax Module Level 3: the input is
    preprocessed (section 3.3), and the attribute value is read as a string
    token (section 4.3.5) with its escapes (section 4.3.7). The fixed head
    `li[data-value="` holds nothing preprocessing changes and ends with the
    quote that opens the string, so the reading starts right after it, on
    `key + "\"]"`. */
module CssSelector {

  /** Characters that keep the selector from reading back the key itself: a
      quote ends the string, a backslash starts an escape, a line break makes
      a bad string, and NUL is replaced by U+FFFD. */
  const SelectorBreakers: set<char> := {'"', '\\', '\n', '\r', '\U{000C}', '\0'}

  /** A key the unescaped selector carries through unchanged. */
  predicate PlainKey(key: string) {
    forall j :: 0 <= j < |key| ==> key[j] !in SelectorBreakers
  }

  /** CSS Syntax 3, section 3.3, for one character not part of a CR LF pair:
      a lone CR and form feed become LF, and NUL becomes U+FFFD. */
  function CleanChar(c: char): (d: char)
    ensures d != '\r' && d != '\U{000C}' && d != '\0'
    ensures c != '\r' && c != '\U{000C}' && c != '\0' ==> d == c
  {
    if c == '\r' || c == '\U{000C}' then '\n' else if c == '\0' then '\U{FFFD}' else c
  }

  /** CSS Syntax 3, section 3.3: CR LF becomes LF, and every other character
      is cleaned by `CleanChar`. */
  function Preprocess(s: string): (r: string)
    ensures '\r' !in r && '\U{000C}' !in r && '\0' !in r
    ensures |r| <= |s|
  {
    if s == [] then []
    else if |s| > 1 && s[0] == '\r' && s[1] == '\n' then "\n" + Preprocess(s[2..])
    else [CleanChar(s[0])] + Preprocess(s[1..])
  }

  predicate IsHexDigit(c: char) {
    '0' <= c <= '9' || 'a' <= c <= 'f' || 'A' <= c <= 'F'
  }

  predicate IsWhitespace(c: char) {
    c == '\n' || c == '\t' || c == ' '
  }

  function HexDigitValue(c: char): (d: nat)
    requires IsHexDigit(c)
    ensures d < 16
  {
    if '0' <= c <= '9' then c as int - '0' as int
    else if 'a' <= c <= 'f' then c as int - 'a' as int + 10
    else c as int - 'A' as int + 10
  }

  /** How many of the leading characters of `s`, at most `limit`, are hex digits. */
  function HexRun(s: string, limit: nat): (k: nat)
    ensures k <= limit && k <= |s|
    ensures forall j :: 0 <= j < k ==> IsHexDigit(s[j])
    ensures k < limit && k < |s| ==> !IsHexDigit(s[k])
  {
    if limit == 0 || s == [] || !IsHexDigit(s[0]) then 0
    else 1 + HexRun(s[1..], limit - 1)
  }

  function HexValue(digits: string): nat
    requires forall j :: 0 <= j < |digits| ==> IsHexDigit(digits[j])
  {
    if digits == [] then 0
    else HexValue(digits[..|digits| - 1]) * 16 + HexDigitValue(digits[|digits| - 1])
  }

  /** CSS Syntax 3, section 4.3.7, for the text after a backslash: the code point the escape
      stands for and how many characters it takes. Up to six hex digits and
      one whitespace after them form a code point, which becomes U+FFFD when
      it is zero, a surrogate or beyond U+10FFFF; any other character stands
      for itself. */
  function EscapedCodePoint(s: string): (r: (char, nat))
    requires s != []
    ensures 1 <= r.1 <= |s|
  {
    if IsHexDigit(s[0]) then
      var k := HexRun(s, 6);
      var v := HexValue(s[..k]);
      var n := if k < |s| && IsWhitespace(s[k]) then k + 1 else k;
      (if v == 0 || 0xD800 <= v <= 0xDFFF || v > 0x10FFFF then '\U{FFFD}' else v as char, n)
    else (s[0], 1)
  }

  /** A string token: closed by a quote, with the text after it; cut off by
      the end of the input; or bad, because an unescaped line break came first. */
  datatype StringToken = Closed(value: string, rest: string) | Unterminated(value: string) | BadString

  function Prepend(c: char, t: StringToken): StringToken {
    match t
    case Closed(v, rest) => Closed([c] + v, rest)
    case Unterminated(v) => Unterminated([c] + v)
    case BadString => BadString
  }

  /** The token with `w` read in front of its value. */
  function PrependAll(w: string, t: StringToken): StringToken {
    match t
    case Closed(v, rest) => Closed(w + v, rest)
    case Unterminated(v) => Unterminated(w + v)
    case BadString => BadString
  }

  /** CSS Syntax 3, section 4.3.5, from just after the opening `"`. The value never holds
      more characters than were read, and a closed string has consumed its
      closing quote. */
  function ConsumeString(s: string): (t: StringToken)
    ensures t.Closed? ==> |t.value| + |t.rest| < |s|
    ensures t.Unterminated? ==> |t.value| <= |s|
    decreases |s|
  {
    if s == [] then Unterminated([])
    else if s[0] == '"' then Closed([], s[1..])
    else if s[0] == '\n' then BadString
    else if s[0] == '\\' then
      if |s| == 1 then Unterminated([])
      else if s[1] == '\n' then ConsumeString(s[2..])
      else
        var e := EscapedCodePoint(s[1..]);
        Prepend(e.0, ConsumeString(s[1 + e.1..]))
    else Prepend(s[0], ConsumeString(s[1..]))
  }

  /** What the selector selects by: a single `data-value` equality with the
      value read, or anything else (an invalid selector, which makes
      `querySelector` throw, or a different selector the key injected). */
  datatype SelectorReading = AttributeEquals(value: string) | OtherSelector

  /** The reading of `li[data-value="${key}"]`. A string cut off by the end of
      the input still closes there, as does the attribute block. */
  function ReadSelector(key: string): (r: SelectorReading)
    ensures r.AttributeEquals? ==> |r.value| <= |key| + 2
  {
    match ConsumeString(Preprocess(key + "\"]"))
    case Closed(v, rest) => if rest == "]" then AttributeEquals(v) else OtherSelector
    case Unterminated(v) => AttributeEquals(v)
    case BadString => OtherSelector
  }

  lemma {:induction false} PreprocessPlain(s: string)
    requires '\r' !in s && '\U{000C}' !in s && '\0' !in s
    ensures Preprocess(s) == s
  {
    if s != [] {
      PreprocessPlain(s[1..]);
      assert s == [s[0]] + s[1..];
    }
  }

  /** A string with no quote, backslash or line break reads as itself, up to
      the quote that follows it. */
  lemma {:induction false} ConsumeUpToQuote(a: string, b: string)
    requires '"' !in a && '\\' !in a && '\n' !in a
    ensures ConsumeString(a + "\"" + b) == Closed(a, b)
  {
    if a == [] {
      assert a + "\"" + b == "\"" + b;
    } else {
      assert (a + "\"" + b)[1..] == a[1..] + "\"" + b;
      ConsumeUpToQuote(a[1..], b);
      assert a == [a[0]] + a[1..];
    }
  }

  /** A key free of the breaking characters is read back exactly: the
      selector is the single equality `data-value == key`. */
  lemma PlainKeyReadsItself(key: string)
    requires PlainKey(key)
    ensures ReadSelector(key) == AttributeEquals(key)
  {
    var s := key + "\"]";
    assert forall j :: 0 <= j < |s| ==> s[j] == if j < |key| then key[j] else "\"]"[j - |key|];
    PreprocessPlain(s);
    assert s == key + "\"" + "]";
    ConsumeUpToQuote(key, "]");
  }

  /** For `a"b` the quote inside the key closes the value after `a`, and
      `b"]` is left over, so the selector is invalid. */
  lemma QuotedKeyIsInvalid()
    ensures ConsumeString(Preprocess("a\"b\"]")) == Closed("a", "b\"]")
    ensures ReadSelector("a\"b") == OtherSelector
  {
    PreprocessPlain("a\"b\"]");
    ConsumeUpToQuote("a", "b\"]");
    assert "a\"b\"]" == "a" + "\"" + "b\"]";
    assert "a\"b" + "\"]" == "a\"b\"]";
  }

  /** For `a\x` the backslash escapes the `x`, so the selector looks for the
      value `ax`, not for the key. */
  lemma EscapedKeyReadsOtherValue()
    ensures ReadSelector("a\\x") == AttributeEquals("ax")
  {
    var s := "a\\x\"]";
    assert "a\\x" + "\"]" == s;
    PreprocessPlain(s);
    ConsumeEscapedX();
  }

  lemma ConsumeEscapedX()
    ensures ConsumeString("a\\x\"]") == Closed("ax", "]")
  {
    ConsumeUpToQuote("", "]");
    ConsumeEscapedChar('x', "\"]");
    assert ['\\', 'x'] + "\"]" == "\\x\"]";
    ConsumeUpToQuote("a", "\\x\"]");
    assert "a\\x\"]" == ['a'] + "\\x\"]";
    ConsumePlainChar('a', "\\x\"]");
  }

  /** An ordinary character is read as itself. */
  lemma ConsumePlainChar(c: char, rest: string)
    requires c != '"' && c != '\\' && c != '\n'
    ensures ConsumeString([c] + rest) == Prepend(c, ConsumeString(rest))
  {
    assert ([c] + rest)[1..] == rest;
  }

  /** A backslash before a character that is neither a hex digit nor a line
      break stands for that character. */
  lemma ConsumeEscapedChar(c: char, rest: string)
    requires !IsHexDigit(c) && c != '\n'
    ensures ConsumeString(['\\', c] + rest) == Prepend(c, ConsumeString(rest))
  {
    var s := ['\\', c] + rest;
    assert s[1..] == [c] + rest && s[2..] == rest;
  }

  /** For `\41 b` the hex escape stands for `A` and takes the space after
      it, so the selector looks for the value `Ab`. */
  lemma HexEscapedKeyReadsCodePoint()
    ensures ReadSelector("\\41 b") == AttributeEquals("Ab")
  {
    var s := "\\41 b\"]";
    assert "\\41 b" + "\"]" == s;
    PreprocessPlain(s);
    ConsumeHexEscapeA();
  }

  lemma ConsumeHexEscapeA()
    ensures ConsumeString("\\41 b\"]") == Closed("Ab", "]")
  {
    var s := "\\41 b\"]";
    HexEscapeA();
    assert s[1..] == "41 b\"]";
    ConsumeUpToQuote("b", "]");
    assert s[1 + 3..] == "b" + "\"" + "]";
  }

  lemma HexEscapeA()
    ensures EscapedCodePoint("41 b\"]") == ('A', 3)
  {
    var t := "41 b\"]";
    assert HexRun(t[2..], 4) == 0;
    assert HexRun(t[1..], 5) == 1;
    assert HexRun(t, 6) == 2;
    assert t[..2] == "41" && "41"[..1] == "4" && "4"[..0] == "";
    assert HexValue("41") == 0x41;
  }

  /** For `"],li,[x="` the value closes at once and `],li,[x=""]` follows: the
      key turns the selector into a selector list, not one equality. */
  lemma InjectedKeyIsSelectorList()
    ensures ConsumeString(Preprocess("\"],li,[x=\"" + "\"]")) == Closed("", "],li,[x=\"\"]")
    ensures ReadSelector("\"],li,[x=\"") == OtherSelector
  {
    var s := "\"],li,[x=\"" + "\"]";
    PreprocessPlain(s);
    assert s[1..] == "],li,[x=\"\"]";
  }

  /** Preprocessing does not reach across into text that holds nothing it
      rewrites. */
  lemma {:induction false} PreprocessAppend(x: string, y: string)
    requires '\r' !in y && '\n' !in y && '\U{000C}' !in y && '\0' !in y
    ensures Preprocess(x + y) == Preprocess(x) + y
    decreases |x|
  {
    if x == [] {
      assert x + y == y;
      PreprocessPlain(y);
    } else if |x| > 1 && x[0] == '\r' && x[1] == '\n' {
      PreprocessAppend(x[2..], y);
      PreprocessAppendCrLf(x, y);
    } else {
      PreprocessAppend(x[1..], y);
      PreprocessAppendHead(x, y);
    }
  }

  lemma PreprocessAppendCrLf(x: string, y: string)
    requires |x| > 1 && x[0] == '\r' && x[1] == '\n'
    requires Preprocess(x[2..] + y) == Preprocess(x[2..]) + y
    ensures Preprocess(x + y) == Preprocess(x) + y
  {
    AppendSlices(x, y, 2);
    PreprocessCrLf(x);
    PreprocessCrLf(x + y);
    AppendAssoc("\n", Preprocess(x[2..]), y);
  }

  lemma PreprocessAppendHead(x: string, y: string)
    requires x != [] && !(|x| > 1 && x[0] == '\r' && x[1] == '\n')
    requires y == [] || y[0] != '\n'
    requires Preprocess(x[1..] + y) == Preprocess(x[1..]) + y
    ensures Preprocess(x + y) == Preprocess(x) + y
  {
    AppendSlices(x, y, 1);
    PreprocessHead(x);
    PreprocessHead(x + y);
    AppendAssoc([CleanChar(x[0])], Preprocess(x[1..]), y);
  }

  /** Sequence facts the preprocessing lemmas use, kept apart so that no
      `Preprocess` term is in scope while they are proved. */
  lemma AppendSlices(x: string, y: string, n: nat)
    requires n <= |x|
    ensures (x + y)[n..] == x[n..] + y
    ensures forall j :: 0 <= j < |x| ==> (x + y)[j] == x[j]
    ensures |x| == n && y != [] ==> (x + y)[n] == y[0]
  {
  }

  lemma AppendAssoc(a: string, b: string, c: string)
    ensures a + (b + c) == (a + b) + c
  {
  }

  lemma PreprocessCrLf(s: string)
    requires |s| > 1 && s[0] == '\r' && s[1] == '\n'
    ensures Preprocess(s) == "\n" + Preprocess(s[2..])
  {
  }

  /** The first step of `Preprocess` on text that does not start with CR LF. */
  lemma PreprocessHead(s: string)
    requires s != [] && !(|s| > 1 && s[0] == '\r' && s[1] == '\n')
    ensures Preprocess(s) == [CleanChar(s[0])] + Preprocess(s[1..])
  {
  }


  /** A closed string that lost no character to an escape is the text up to
      its quote, and that text holds no quote, backslash or line break. */
  lemma {:induction false} ClosedAtFullLength(s: string)
    ensures var t := ConsumeString(s);
      t.Closed? && |t.value| + |t.rest| + 1 == |s| ==>
        s == t.value + "\"" + t.rest && '"' !in t.value && '\\' !in t.value && '\n' !in t.value
    decreases |s|
  {
    if s != [] && s[0] != '"' && s[0] != '\n' && s[0] != '\\' {
      ClosedAtFullLength(s[1..]);
      var t := ConsumeString(s[1..]);
      if t.Closed? {
        assert ConsumeString(s).value == [s[0]] + t.value;
        assert s == [s[0]] + s[1..];
      }
    }
  }

  /** An escape that starts before a `]` ends before it: `]` is neither a
      hex digit nor whitespace. */
  lemma EscapeStopsAtBracket(x: string, y: string)
    requires x != [] && y != [] && y[0] == ']'
    ensures EscapedCodePoint(x + y).1 <= |x|
  {
    var z := x + y;
    assert z[|x|] == ']';
    assert !IsHexDigit(z[|x|]);
    if IsHexDigit(z[0]) {
      var k := HexRun(z, 6);
      assert k <= |x|;
    }
  }

  /** One step of `ConsumeString` over an ordinary character, an escape
      and a line continuation. */
  lemma ConsumeStep(s: string)
    requires s != [] && s[0] != '"' && s[0] != '\n'
    ensures s[0] != '\\' ==> ConsumeString(s) == Prepend(s[0], ConsumeString(s[1..]))
    ensures s[0] == '\\' && |s| > 1 && s[1] == '\n' ==> ConsumeString(s) == ConsumeString(s[2..])
    ensures s[0] == '\\' && |s| > 1 && s[1] != '\n' ==>
      var e := EscapedCodePoint(s[1..]);
      ConsumeString(s) == Prepend(e.0, ConsumeString(s[1 + e.1..]))
  {
  }

  lemma PrependPrependAll(c: char, w: string, t: StringToken)
    ensures Prepend(c, PrependAll(w, t)) == PrependAll([c] + w, t)
  {
    match t
    case Closed(v, rest) => assert [c] + (w + v) == ([c] + w) + v;
    case Unterminated(v) => assert [c] + (w + v) == ([c] + w) + v;
    case BadString =>
  }

  /** A `]` is read as itself unless the string closes or goes bad before
      it: the value then runs on with what is read after the `]`. */
  lemma {:induction false} ConsumeThroughBracket(q: string, t: string) returns (w: string)
    ensures var r := ConsumeString(q + "]" + t);
      r.BadString? || r.Closed? || r == PrependAll(w + "]", ConsumeString(t))
    decreases |q|
  {
    var s := q + "]" + t;
    if q == [] {
      w := [];
      assert s == [']'] + t && s[1..] == t;
      ConsumeStep(s);
      PrependPrependAll(']', [], ConsumeString(t));
      assert PrependAll([], ConsumeString(t)) == ConsumeString(t);
    } else if q[0] == '"' || q[0] == '\n' {
      w := [];
    } else if q[0] == '\\' && |q| == 1 {
      w := [];
      assert s[1..] == [']'] + t && s[2..] == t;
      assert EscapedCodePoint(s[1..]) == (']', 1);
      ConsumeStep(s);
      PrependPrependAll(']', [], ConsumeString(t));
      assert PrependAll([], ConsumeString(t)) == ConsumeString(t);
    } else if q[0] == '\\' && q[1] == '\n' {
      assert s[2..] == q[2..] + "]" + t;
      ConsumeStep(s);
      w := ConsumeThroughBracket(q[2..], t);
    } else if q[0] == '\\' {
      assert s[1..] == q[1..] + ("]" + t);
      EscapeStopsAtBracket(q[1..], "]" + t);
      var e := EscapedCodePoint(s[1..]);
      assert s[1 + e.1..] == q[1 + e.1..] + "]" + t;
      ConsumeStep(s);
      var w' := ConsumeThroughBracket(q[1 + e.1..], t);
      PrependPrependAll(e.0, w' + "]", ConsumeString(t));
      w := [e.0] + w';
      assert [e.0] + (w' + "]") == w + "]";
    } else {
      assert s[1..] == q[1..] + "]" + t;
      ConsumeStep(s);
      var w' := ConsumeThroughBracket(q[1..], t);
      PrependPrependAll(q[0], w' + "]", ConsumeString(t));
      w := [q[0]] + w';
      assert [q[0]] + (w' + "]") == w + "]";
    }
  }

  /** A closed value that reads back as the key means the key is plain. */
  lemma ClosedReadingIsPlain(key: string)
    ensures var r := ConsumeString(Preprocess(key + "\"]"));
      r.Closed? && r.value == key && r.rest == "]" ==> PlainKey(key)
  {
    var p := Preprocess(key);
    PreprocessAppend(key, "\"]");
    var s := p + "\"]";
    var r := ConsumeString(s);
    if r.Closed? && r.value == key && r.rest == "]" {
      ClosedAtFullLength(s);
      assert s[..|p|] == p;
      assert p == key;
      forall j | 0 <= j < |key|
        ensures key[j] !in SelectorBreakers
      {
        assert key[j] in key && key[j] in p;
      }
    }
  }

  /** A value cut off at the end of the input is never the key itself. */
  lemma UnterminatedReadingIsNotKey(key: string)
    ensures var r := ConsumeString(Preprocess(key + "\"]"));
      !(r.Unterminated? && r.value == key)
  {
    var p := Preprocess(key);
    PreprocessAppend(key, "\"]");
    var s := p + "\"]";
    var w := ConsumeThroughBracket(p + "\"", []);
    assert s == (p + "\"") + "]" + [];
    assert PrependAll(w + "]", Unterminated([])) == Unterminated(w + "]");
    if key != [] && key[|key| - 1] == ']' {
      var init := key[..|key| - 1];
      assert key == init + "]";
      PreprocessAppend(init, "]");
      assert s == Preprocess(init) + "]" + "\"]";
      var w2 := ConsumeThroughBracket(Preprocess(init), "\"]");
    } else {
      assert (w + "]")[|w|] == ']';
    }
  }

  /** The selector reads back as the key itself exactly when the key holds
      none of the breaking characters: an escape or a line continuation
      shortens the value, NUL and line breaks cannot survive, and a string
      cut off at the end always ends in the template's `]`, which a key
      ending in `]` never lets it reach unclosed. */
  lemma ReadsItselfIffPlain(key: string)
    ensures ReadSelector(key) == AttributeEquals(key) <==> PlainKey(key)
  {
    if PlainKey(key) {
      PlainKeyReadsItself(key);
    }
    ClosedReadingIsPlain(key);
    UnterminatedReadingIsNotKey(key);
  }
}
