/** The pieces of Python's `str` that the toolbox relies on: `split` with a
    one-character separator, the whitespace stripping that `int()` performs,
    and the ASCII part of `lower()`. */
module Text {

  /** `s.split(sep)`: the maximal runs between separators, empty runs included,
      so `"".split(",") == [""]` and `"1,,2".split(",") == ["1", "", "2"]`. */
  function Split(s: string, sep: char): (parts: seq<string>)
    ensures |parts| >= 1
    ensures forall i :: 0 <= i < |parts| ==> sep !in parts[i]
    ensures (sep in s) <==> |parts| > 1
    decreases |s|
  {
    if s == [] then [[]]
    else
      var rest := Split(s[1..], sep);
      if s[0] == sep then [[]] + rest
      else [[s[0]] + rest[0]] + rest[1..]
  }

  /** `sep.join(parts)`: the inverse of `Split`. */
  function Join(parts: seq<string>, sep: char): string
    requires |parts| >= 1
    decreases |parts|
  {
    if |parts| == 1 then parts[0] else parts[0] + [sep] + Join(parts[1..], sep)
  }

  /** Round trip: joining the runs of a split gives the string back. */
  lemma {:induction false} JoinSplit(s: string, sep: char)
    ensures Join(Split(s, sep), sep) == s
    decreases |s|
  {
    if s != [] {
      var rest := Split(s[1..], sep);
      JoinSplit(s[1..], sep);
      if s[0] == sep {
        JoinEmptyCons(rest, sep);
      } else {
        JoinCharCons(s[0], rest, sep);
      }
      assert s == [s[0]] + s[1..];
    }
  }

  /** An empty first run contributes only its separator. */
  lemma JoinEmptyCons(parts: seq<string>, sep: char)
    requires |parts| >= 1
    ensures Join([[]] + parts, sep) == [sep] + Join(parts, sep)
  {
    assert ([[]] + parts)[1..] == parts;
  }

  /** A character put in front of the first run is put in front of the join. */
  lemma JoinCharCons(c: char, parts: seq<string>, sep: char)
    requires |parts| >= 1
    ensures Join([[c] + parts[0]] + parts[1..], sep) == [c] + Join(parts, sep)
  {
    var q := [[c] + parts[0]] + parts[1..];
    if |parts| > 1 {
      assert q[1..] == parts[1..];
    }
  }

  /** Splitting does not look across a run that holds no separator. */
  lemma {:induction false} SplitPrefix(a: string, rest: string, sep: char)
    requires sep !in a
    ensures Split(a + rest, sep) == [a + Split(rest, sep)[0]] + Split(rest, sep)[1..]
    decreases |a|
  {
    if a != [] {
      var s := a + rest;
      var p := Split(rest, sep);
      assert s[0] == a[0] && s[0] != sep;
      assert s[1..] == a[1..] + rest;
      SplitPrefix(a[1..], rest, sep);
      var r := Split(s[1..], sep);
      assert r == [a[1..] + p[0]] + p[1..];
      assert r[0] == a[1..] + p[0] && r[1..] == p[1..];
      assert Split(s, sep) == [[s[0]] + r[0]] + r[1..];
      assert [s[0]] + r[0] == a + p[0];
    } else {
      var parts := Split(rest, sep);
      assert a + rest == rest;
      assert a + parts[0] == parts[0];
      assert parts == [parts[0]] + parts[1..];
    }
  }

  /** A leading separator opens an empty first run. */
  lemma SplitSepCons(t: string, sep: char)
    ensures Split([sep] + t, sep) == [[]] + Split(t, sep)
  {
    assert ([sep] + t)[1..] == t;
  }

  /** Round trip: splitting a join of separator-free runs gives the runs back. */
  lemma {:induction false} SplitJoin(parts: seq<string>, sep: char)
    requires |parts| >= 1
    requires forall i :: 0 <= i < |parts| ==> sep !in parts[i]
    ensures Split(Join(parts, sep), sep) == parts
    decreases |parts|
  {
    if |parts| == 1 {
      SplitPrefix(parts[0], [], sep);
      assert parts[0] + [] == parts[0];
    } else {
      var tail := parts[1..];
      var j := Join(tail, sep);
      SplitJoin(tail, sep);
      SplitSepCons(j, sep);
      assert Join(parts, sep) == parts[0] + ([sep] + j);
      SplitPrefix(parts[0], [sep] + j, sep);
      assert parts[0] + [] == parts[0];
      assert parts == [parts[0]] + tail;
    }
  }

  /** Appending one more run to a join. */
  lemma {:induction false} JoinSnoc(parts: seq<string>, t: string, sep: char)
    requires |parts| >= 1
    ensures Join(parts + [t], sep) == Join(parts, sep) + [sep] + t
    decreases |parts|
  {
    if |parts| > 1 {
      assert (parts + [t])[1..] == parts[1..] + [t];
      JoinSnoc(parts[1..], t, sep);
    }
  }

  /** Adding a separator and a separator-free run to a string adds exactly
      that run to its split. */
  lemma SplitSnoc(s: string, t: string, sep: char)
    requires sep !in t
    ensures Split(s + [sep] + t, sep) == Split(s, sep) + [t]
  {
    var parts := Split(s, sep);
    JoinSplit(s, sep);
    JoinSnoc(parts, t, sep);
    SplitJoin(parts + [t], sep);
  }

  /** The ASCII characters Python's `int()` skips around a number: space,
      tab, line feed, vertical tab, form feed and carriage return. (The
      separators U+001C..U+001F count as space for `str.isspace()` but not
      for `int()`.) */
  predicate IsSpace(c: char) {
    c == ' ' || '\t' <= c <= '\r'
  }

  /** Drops the leading whitespace. */
  function TrimStart(s: string): string
    decreases |s|
  {
    if s != [] && IsSpace(s[0]) then TrimStart(s[1..]) else s
  }

  /** Drops the trailing whitespace. */
  function TrimEnd(s: string): string
    decreases |s|
  {
    if s != [] && IsSpace(s[|s| - 1]) then TrimEnd(s[..|s| - 1]) else s
  }

  /** `s.strip()` restricted to the whitespace above. */
  function Strip(s: string): string {
    TrimEnd(TrimStart(s))
  }

  /** `TrimStart` cuts a prefix made only of whitespace, and no more. */
  lemma {:induction false} TrimStartSpec(s: string)
    ensures |TrimStart(s)| <= |s| && TrimStart(s) == s[|s| - |TrimStart(s)|..]
    ensures forall i :: 0 <= i < |s| - |TrimStart(s)| ==> IsSpace(s[i])
    ensures TrimStart(s) != [] ==> !IsSpace(TrimStart(s)[0])
    decreases |s|
  {
    if s != [] && IsSpace(s[0]) {
      TrimStartSpec(s[1..]);
    }
  }

  /** `TrimEnd` cuts a suffix made only of whitespace, and no more. */
  lemma {:induction false} TrimEndSpec(s: string)
    ensures |TrimEnd(s)| <= |s| && TrimEnd(s) == s[..|TrimEnd(s)|]
    ensures forall i :: |TrimEnd(s)| <= i < |s| ==> IsSpace(s[i])
    ensures TrimEnd(s) != [] ==> !IsSpace(TrimEnd(s)[|TrimEnd(s)| - 1])
    decreases |s|
  {
    if s != [] && IsSpace(s[|s| - 1]) {
      TrimEndSpec(s[..|s| - 1]);
    }
  }

  /** A string that neither starts nor ends with whitespace is its own strip. */
  lemma StripFixed(s: string)
    requires s != [] && !IsSpace(s[0]) && !IsSpace(s[|s| - 1])
    ensures Strip(s) == s
  {
    assert TrimStart(s) == s;
  }

  /** `Strip` keeps a middle slice of `s` and removes only whitespace, and
      only at the two ends; neither end of what it keeps is whitespace. */
  lemma StripSpec(s: string)
    ensures |Strip(s)| <= |s|
    ensures exists k :: && 0 <= k <= |s| && |Strip(s)| <= |s[k..]|
                        && Strip(s) == s[k..][..|Strip(s)|]
                        && (forall i :: 0 <= i < k ==> IsSpace(s[i]))
                        && (forall i :: k + |Strip(s)| <= i < |s| ==> IsSpace(s[i]))
    ensures forall i :: 0 <= i < |s| ==> IsSpace(s[i]) || s[i] in Strip(s)
    ensures forall c :: c in Strip(s) ==> c in s
    ensures Strip(s) != [] ==> !IsSpace(Strip(s)[0]) && !IsSpace(Strip(s)[|Strip(s)| - 1])
  {
    var t := TrimStart(s);
    TrimStartSpec(s);
    TrimEndSpec(t);
    var r := TrimEnd(t);
    var k := |s| - |t|;
    assert r == s[k..k + |r|];
    assert forall i :: k <= i < k + |r| ==> s[i] == r[i - k];
  }

  /** The ASCII case mapping of `str.lower()`. */
  function LowerChar(c: char): (r: char)
    ensures 'A' <= c <= 'Z' ==> 'a' <= r <= 'z' && r as int - c as int == 32
    ensures !('A' <= c <= 'Z') ==> r == c
  {
    if 'A' <= c <= 'Z' then (c as int + 32) as char else c
  }

  /** `s.lower()` on ASCII letters, character by character. */
  function Lower(s: string): (r: string)
    ensures |r| == |s|
    ensures forall i :: 0 <= i < |s| ==> r[i] == LowerChar(s[i])
  {
    seq(|s|, i requires 0 <= i < |s| => LowerChar(s[i]))
  }

  /** Lower-casing leaves no upper-case ASCII letter, changes nothing that
      is not one, and a second pass changes nothing. */
  lemma LowerProperties(s: string)
    ensures forall i :: 0 <= i < |s| ==> !('A' <= Lower(s)[i] <= 'Z')
    ensures forall i :: 0 <= i < |s| && !('A' <= s[i] <= 'Z') ==> Lower(s)[i] == s[i]
    ensures Lower(Lower(s)) == Lower(s)
  {
    var r := Lower(s);
    assert forall i :: 0 <= i < |r| ==> LowerChar(r[i]) == r[i];
    assert Lower(r) == r;
  }

  /** `s.endswith(suffix)`. */
  predicate EndsWith(s: string, suffix: string) {
    |suffix| <= |s| && s[|s| - |suffix|..] == suffix
  }
}
