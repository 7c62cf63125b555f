/** A model of Python's `int(text)` in base 10, restricted to ASCII: optional
    surrounding whitespace, an optional `+`, then decimal digits in which single
    underscores may separate digits (`"1_000"`). A `-` sign is not accepted;
    the page-range parser never hands `int()` a text containing `-`, because
    it splits on `-` first. Also the decimal printing `str(n)` / `f"{n}"`
    used to name the output files. */
module IntLexer {
  import opened Results
  import opened Text

  predicate IsDigit(c: char) {
    '0' <= c <= '9'
  }

  /** The characters that `int()` can accept somewhere in its input. */
  predicate IsIntChar(c: char) {
    IsSpace(c) || IsDigit(c) || c == '+' || c == '_'
  }

  /** `digit ("_"? digit)*`: the digits Python accepts after the sign. */
  predicate IsDigitGroup(s: string) {
    |s| > 0 && IsDigit(s[0]) && IsGroupTail(s[1..])
  }

  /** `("_"? digit)*`. */
  predicate IsGroupTail(s: string)
    decreases |s|
  {
    || s == []
    || (IsDigit(s[0]) && IsGroupTail(s[1..]))
    || (|s| >= 2 && s[0] == '_' && IsDigit(s[1]) && IsGroupTail(s[2..]))
  }

  /** The number that a run of digits denotes, read left to right, most
      significant digit first; underscores carry no value. */
  function DigitsValue(s: string): nat
    decreases |s|
  {
    if s == [] then 0
    else
      var last := s[|s| - 1];
      var high := DigitsValue(s[..|s| - 1]);
      if IsDigit(last) then high * 10 + (last as int - '0' as int) else high
  }

  /** `int(text)`, or `None` where Python raises `ValueError`. */
  function ParseInt(text: string): Option<nat> {
    var body := Strip(text);
    var digits := if |body| > 0 && body[0] == '+' then body[1..] else body;
    if IsDigitGroup(digits) then Some(DigitsValue(digits)) else None
  }

  /** A run in the digit grammar holds only digits and underscores. */
  lemma {:induction false} GroupTailAlphabet(s: string)
    requires IsGroupTail(s)
    ensures forall i :: 0 <= i < |s| ==> IsDigit(s[i]) || s[i] == '_'
    decreases |s|
  {
    if s != [] {
      if IsDigit(s[0]) && IsGroupTail(s[1..]) {
        GroupTailAlphabet(s[1..]);
        assert forall i :: 1 <= i < |s| ==> s[i] == s[1..][i - 1];
      } else {
        GroupTailAlphabet(s[2..]);
        assert forall i :: 2 <= i < |s| ==> s[i] == s[2..][i - 2];
      }
    }
  }

  /** Any run of digits is in the digit grammar. */
  lemma {:induction false} DigitsAreGroupTail(s: string)
    requires forall i :: 0 <= i < |s| ==> IsDigit(s[i])
    ensures IsGroupTail(s)
    decreases |s|
  {
    if s != [] {
      DigitsAreGroupTail(s[1..]);
    }
  }

  /** What `int()` accepts is made only of whitespace, `+`, digits and
      underscores, and holds at least one digit; so `int("")`, `int("abc")`
      and `int("+")` raise. */
  lemma ParseIntAlphabet(text: string)
    requires ParseInt(text).Some?
    ensures forall i :: 0 <= i < |text| ==> IsIntChar(text[i])
    ensures exists i :: 0 <= i < |text| && IsDigit(text[i])
  {
    var body := Strip(text);
    StripSpec(text);
    var digits := if |body| > 0 && body[0] == '+' then body[1..] else body;
    GroupTailAlphabet(digits[1..]);
    assert forall i :: 1 <= i < |digits| ==> digits[i] == digits[1..][i - 1];
    assert forall c :: c in body ==> IsIntChar(c) by {
      forall c | c in body ensures IsIntChar(c) {
        var i :| 0 <= i < |body| && body[i] == c;
        if |body| > 0 && body[0] == '+' && i > 0 {
          assert c == digits[i - 1];
        }
      }
    }
    assert digits[0] in body;
  }

  /** The decimal digit for `d`. */
  function DigitChar(d: nat): (c: char)
    requires d < 10
    ensures IsDigit(c) && c as int - '0' as int == d
  {
    ('0' as int + d) as char
  }

  /** `str(n)`: the shortest decimal spelling of `n`, whose value is `n`. */
  function Show(n: nat): (s: string)
    ensures |s| > 0
    ensures forall i :: 0 <= i < |s| ==> IsDigit(s[i])
    ensures s[0] != '0' || n == 0
    ensures DigitsValue(s) == n
    decreases n
  {
    if n < 10 then [DigitChar(n)]
    else
      var high := Show(n / 10);
      var s := high + [DigitChar(n % 10)];
      assert s[..|s| - 1] == high;
      s
  }

  /** A non-empty run of digits is read back as itself, with or without `+`. */
  lemma ParseDigits(s: string)
    requires |s| > 0 && forall i :: 0 <= i < |s| ==> IsDigit(s[i])
    ensures ParseInt(s) == Some(DigitsValue(s))
    ensures ParseInt(['+'] + s) == Some(DigitsValue(s))
  {
    assert IsDigit(s[0]) && IsDigit(s[|s| - 1]);
    DigitsAreGroupTail(s[1..]);
    assert IsDigitGroup(s);
    StripFixed(s);
    var t := ['+'] + s;
    assert t[|t| - 1] == s[|s| - 1];
    StripFixed(t);
    assert t[1..] == s;
  }

  /** Round trip: `int(str(n)) == n`, with or without a leading `+`. */
  lemma ParseShow(n: nat)
    ensures ParseInt(Show(n)) == Some(n)
    ensures ParseInt(['+'] + Show(n)) == Some(n)
  {
    ParseDigits(Show(n));
  }

  /** The information separators are not whitespace for `int()`, so
      `int("\x1c3")` raises. */
  lemma SeparatorNotSkipped()
    ensures ParseInt("\U{1C}3") == None
  {
    StripFixed("\U{1C}3");
  }

  /** Surrounding whitespace does not change what `int()` reads. */
  lemma {:induction false} ParseIgnoresPadding(lead: string, text: string, trail: string)
    requires forall i :: 0 <= i < |lead| ==> IsSpace(lead[i])
    requires forall i :: 0 <= i < |trail| ==> IsSpace(trail[i])
    ensures ParseInt(lead + text + trail) == ParseInt(text)
  {
    StripPadding(lead, text, trail);
  }

  lemma {:induction false} TrimStartPadding(lead: string, t: string)
    requires forall i :: 0 <= i < |lead| ==> IsSpace(lead[i])
    ensures TrimStart(lead + t) == TrimStart(t)
    decreases |lead|
  {
    if lead != [] {
      assert (lead + t)[1..] == lead[1..] + t;
      TrimStartPadding(lead[1..], t);
    } else {
      assert lead + t == t;
    }
  }

  lemma {:induction false} TrimEndPadding(t: string, trail: string)
    requires forall i :: 0 <= i < |trail| ==> IsSpace(trail[i])
    ensures TrimEnd(t + trail) == TrimEnd(t)
    decreases |trail|
  {
    if trail != [] {
      var init := trail[..|trail| - 1];
      assert (t + trail)[..|t + trail| - 1] == t + init;
      TrimEndPadding(t, init);
    } else {
      assert t + trail == t;
    }
  }

  lemma TrimStartEnd(t: string, trail: string)
    requires forall i :: 0 <= i < |trail| ==> IsSpace(trail[i])
    ensures TrimStart(t + trail) == TrimStart(t) + trail
            || (TrimStart(t) == [] && TrimStart(t + trail) == [])
    decreases |t|
  {
    if t != [] {
      assert (t + trail)[0] == t[0];
      if IsSpace(t[0]) {
        assert (t + trail)[1..] == t[1..] + trail;
        TrimStartEnd(t[1..], trail);
      }
    } else {
      assert t + trail == trail;
      TrimStartAllSpace(trail);
    }
  }

  lemma {:induction false} TrimStartAllSpace(s: string)
    requires forall i :: 0 <= i < |s| ==> IsSpace(s[i])
    ensures TrimStart(s) == []
    decreases |s|
  {
    if s != [] {
      TrimStartAllSpace(s[1..]);
    }
  }

  lemma StripPadding(lead: string, text: string, trail: string)
    requires forall i :: 0 <= i < |lead| ==> IsSpace(lead[i])
    requires forall i :: 0 <= i < |trail| ==> IsSpace(trail[i])
    ensures Strip(lead + text + trail) == Strip(text)
  {
    assert lead + text + trail == lead + (text + trail);
    TrimStartPadding(lead, text + trail);
    TrimStartEnd(text, trail);
    if TrimStart(text) == [] && TrimStart(text + trail) == [] {
    } else {
      TrimEndPadding(TrimStart(text), trail);
    }
  }
}
