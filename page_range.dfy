/** The page-range parser of the split operation (`_parse_page_range`): a
    comma-separated list of page numbers and inclusive `start-end` ranges
    becomes the ascending list of distinct pages that lie between 1 and the
    document's page count. */
module PageRange {
  import opened Results
  import opened Text
  import opened IntLexer
  import opened Sorting

  /** The `ValueError` a malformed token raises. */
  datatype Error =
    | InvalidLiteral(text: string)  // `int(text)` rejected `text`
    | TooManyValues(token: string)  // `start, end = ...` met a third half

  /** A token that converted cleanly. */
  datatype Token = Page(n: nat) | Span(start: nat, end: nat)

  /** The pages a token names. */
  predicate Covers(t: Token, p: int) {
    match t
    case Page(n) => p == n
    case Span(a, b) => a <= p <= b
  }

  /** `range(a, b + 1)` as a set: empty when `a > b`. */
  function RangeSet(a: int, b: int): (r: set<int>)
    ensures forall p :: p in r <==> a <= p <= b
    ensures |r| == if a <= b then b - a + 1 else 0
    decreases b - a
  {
    if a > b then {} else RangeSet(a, b - 1) + {b}
  }

  /** What the loop adds to its set for one token: `{n}` or the range. */
  function TokenPages(t: Token): (r: set<int>)
    ensures forall p :: p in r <==> Covers(t, p)
    ensures t.Span? && t.start > t.end ==> r == {}
  {
    match t
    case Page(n) => {n}
    case Span(a, b) => RangeSet(a, b)
  }

  /** One comma-separated token. A token holding `-` is split on `-` and
      unpacked into `start, end`: `int()` is applied to the halves in order,
      and unpacking asks for a third item (converting it) before it reports
      too many values. Any other token goes through `int()` whole. */
  function ClassifyPart(part: string): Result<Token, Error>
  {
    if '-' in part then
      var halves := Split(part, '-');
      match ParseInt(halves[0])
      case None => Failure(InvalidLiteral(halves[0]))
      case Some(a) =>
        match ParseInt(halves[1])
        case None => Failure(InvalidLiteral(halves[1]))
        case Some(b) =>
          if |halves| == 2 then Success(Span(a, b))
          else if ParseInt(halves[2]).None? then Failure(InvalidLiteral(halves[2]))
          else Failure(TooManyValues(part))
    else
      match ParseInt(part)
      case None => Failure(InvalidLiteral(part))
      case Some(n) => Success(Page(n))
  }

  /** What a token converts to: without `-`, `int()` of the whole token; with
      `-`, exactly two halves that `int()` accepts, taken as `start-end`.
      Every failure is a rejected literal or a third half. */
  lemma ClassifyPartMeaning(part: string)
    ensures '-' !in part ==> (ClassifyPart(part).Success? <==> ParseInt(part).Some?)
    ensures '-' !in part && ClassifyPart(part).Success? ==>
              ClassifyPart(part).value == Page(ParseInt(part).value)
    ensures '-' in part ==>
              (ClassifyPart(part).Success? <==>
                 |Split(part, '-')| == 2 && ParseInt(Split(part, '-')[0]).Some?
                                         && ParseInt(Split(part, '-')[1]).Some?)
    ensures '-' in part && ClassifyPart(part).Success? ==>
              ClassifyPart(part).value == Span(ParseInt(Split(part, '-')[0]).value,
                                               ParseInt(Split(part, '-')[1]).value)
    ensures ClassifyPart(part).Failure? && ClassifyPart(part).error.InvalidLiteral? ==>
              ParseInt(ClassifyPart(part).error.text).None?
    ensures ClassifyPart(part).Failure? && ClassifyPart(part).error.TooManyValues? ==>
              '-' in part && |Split(part, '-')| > 2
  {
    if '-' in part {
      var halves := Split(part, '-');
      assert |halves| >= 2;
      if ParseInt(halves[0]).Some? && ParseInt(halves[1]).Some? && |halves| > 2 {
        assert ClassifyPart(part).Failure?;
      }
    }
  }

  /** Whether a token text names page `p`. */
  predicate PartCovers(part: string, p: int) {
    ClassifyPart(part).Success? && Covers(ClassifyPart(part).value, p)
  }

  /** The tokens of a whole expression, or the first token's error. */
  function Tokens(rangeStr: string): Result<seq<Token>, Error> {
    Traverse(Split(rangeStr, ','), ClassifyPart)
  }

  /** The set the loop has built after the given tokens. */
  function Covered(toks: seq<Token>): set<int>
    decreases |toks|
  {
    if toks == [] then {} else Covered(toks[..|toks| - 1]) + TokenPages(toks[|toks| - 1])
  }

  lemma CoveredSnoc(toks: seq<Token>, t: Token)
    ensures Covered(toks + [t]) == Covered(toks) + TokenPages(t)
  {
    assert (toks + [t])[..|toks|] == toks;
  }

  /** `sorted(page for page in pages if 1 <= page <= total_pages)`. */
  function Selection(pages: set<int>, totalPages: int): (r: seq<int>)
    ensures StrictlyAscending(r)
    ensures forall p :: p in r <==> p in pages && 1 <= p <= totalPages
  {
    Enumerate(pages, 1, totalPages)
  }

  /** What `_parse_page_range(rangeStr, totalPages)` returns or raises. */
  function ParseSpec(rangeStr: string, totalPages: int): Result<seq<int>, Error> {
    match Tokens(rangeStr)
    case Failure(e) => Failure(e)
    case Success(toks) => Success(Selection(Covered(toks), totalPages))
  }

  /** The parser: one pass over the comma-separated tokens that adds each
      token's pages to a set, then the filter-and-sort. A bad token raises
      at once, so nothing is returned for the tokens before it. */
  method ParsePageRange(rangeStr: string, totalPages: int) returns (r: Result<seq<int>, Error>)
    ensures r == ParseSpec(rangeStr, totalPages)
    ensures r.Success? ==> StrictlyAscending(r.value)
    ensures r.Success? ==> forall i :: 0 <= i < |r.value| ==> 1 <= r.value[i] <= totalPages
  {
    var parts := Split(rangeStr, ',');
    var pages: set<int> := {};
    for i := 0 to |parts|
      invariant Traverse(parts[..i], ClassifyPart).Success?
      invariant pages == Covered(Traverse(parts[..i], ClassifyPart).value)
    {
      var part := parts[i];
      ghost var done := Traverse(parts[..i], ClassifyPart).value;
      TraverseStep(parts, i, ClassifyPart);
      match ClassifyPart(part) {
        case Failure(e) =>
          return Failure(e);
        case Success(Span(start, end)) =>
          CoveredSnoc(done, Span(start, end));
          pages := pages + RangeSet(start, end);
        case Success(Page(n)) =>
          CoveredSnoc(done, Page(n));
          pages := pages + {n};
      }
    }
    assert parts[..|parts|] == parts;
    r := Success(Selection(pages, totalPages));
    ParseResultBounds(rangeStr, totalPages);
  }

  // ---------------------------------------------------------------------
  // Properties of the parser

  /** The result is strictly ascending (so free of duplicates), lies within
      `1..totalPages`, and is no longer than the document. */
  lemma ParseResultBounds(rangeStr: string, totalPages: int)
    requires ParseSpec(rangeStr, totalPages).Success?
    ensures StrictlyAscending(ParseSpec(rangeStr, totalPages).value)
    ensures forall i :: 0 <= i < |ParseSpec(rangeStr, totalPages).value| ==>
              1 <= ParseSpec(rangeStr, totalPages).value[i] <= totalPages
    ensures |ParseSpec(rangeStr, totalPages).value| <= if totalPages < 0 then 0 else totalPages
  {
    var pages := ParseSpec(rangeStr, totalPages).value;
    assert forall i :: 0 <= i < |pages| ==> 1 <= pages[i] <= totalPages by {
      forall i | 0 <= i < |pages| ensures 1 <= pages[i] <= totalPages {
        assert pages[i] in pages;
      }
    }
    AscendingWithinBound(pages, 1, totalPages);
  }

  /** A page is in the built set exactly when some token names it. */
  lemma {:induction false} CoveredMembers(toks: seq<Token>, p: int)
    ensures p in Covered(toks) <==> exists i :: 0 <= i < |toks| && Covers(toks[i], p)
    decreases |toks|
  {
    if toks != [] {
      var init := toks[..|toks| - 1];
      CoveredMembers(init, p);
      assert forall i :: 0 <= i < |init| ==> init[i] == toks[i];
      if p in Covered(init) {
        var i :| 0 <= i < |init| && Covers(init[i], p);
        assert Covers(toks[i], p);
      }
    }
  }

  /** Membership: `p` is selected exactly when it lies in `1..totalPages`
      and some token either is `p` or is a range `a-b` with `a <= p <= b`. */
  lemma ParseMembership(rangeStr: string, totalPages: int, p: int)
    requires ParseSpec(rangeStr, totalPages).Success?
    ensures p in ParseSpec(rangeStr, totalPages).value <==>
              && 1 <= p <= totalPages
              && exists part :: part in Split(rangeStr, ',') && PartCovers(part, p)
  {
    var toks := Tokens(rangeStr).value;
    var covers := t => Covers(t, p);
    TraverseExists(Split(rangeStr, ','), ClassifyPart, covers);
    CoveredMembers(toks, p);
    assert (exists i :: 0 <= i < |toks| && Covers(toks[i], p)) <==>
           (exists i :: 0 <= i < |toks| && covers(toks[i]));
    assert (exists part :: part in Split(rangeStr, ',') && PartCovers(part, p)) <==>
           (exists part :: part in Split(rangeStr, ',') && ClassifyPart(part).Success?
                           && covers(ClassifyPart(part).value));
  }

  /** Parsing succeeds exactly when every comma-separated token converts. */
  lemma ParseSucceedsIff(rangeStr: string, totalPages: int)
    ensures ParseSpec(rangeStr, totalPages).Success? <==>
              forall part :: part in Split(rangeStr, ',') ==> ClassifyPart(part).Success?
  {
    var parts := Split(rangeStr, ',');
    TraverseSucceedsIff(parts, ClassifyPart);
    if !Tokens(rangeStr).Success? {
      var i :| 0 <= i < |parts| && !ClassifyPart(parts[i]).Success?;
      assert parts[i] in parts;
    }
  }

  /** On failure, the error is that of the first token that does not convert. */
  lemma ParseFailsAtFirstBadToken(rangeStr: string, totalPages: int)
    requires ParseSpec(rangeStr, totalPages).Failure?
    ensures exists k :: && 0 <= k < |Split(rangeStr, ',')|
                        && ClassifyPart(Split(rangeStr, ',')[k]) == Failure(ParseSpec(rangeStr, totalPages).error)
                        && forall j :: 0 <= j < k ==> ClassifyPart(Split(rangeStr, ',')[j]).Success?
  {
    TraverseFirstFailure(Split(rangeStr, ','), ClassifyPart);
  }

  /** An empty token (from `""`, `"1,,2"` or a trailing comma) is an error:
      `int("")` raises. */
  lemma EmptyTokenFails(rangeStr: string, totalPages: int)
    requires [] in Split(rangeStr, ',')
    ensures ParseSpec(rangeStr, totalPages).Failure?
  {
    assert ClassifyPart([]).Failure?;
    ParseSucceedsIff(rangeStr, totalPages);
  }

  /** Tokens are merged into one set, so neither their order nor their
      repetition matters: expressions with the same tokens agree. */
  lemma ParseIgnoresOrderAndRepetition(s1: string, s2: string, totalPages: int)
    requires forall part :: part in Split(s1, ',') <==> part in Split(s2, ',')
    ensures ParseSpec(s1, totalPages).Success? <==> ParseSpec(s2, totalPages).Success?
    ensures ParseSpec(s1, totalPages).Success? ==>
              ParseSpec(s1, totalPages).value == ParseSpec(s2, totalPages).value
  {
    ParseSucceedsIff(s1, totalPages);
    ParseSucceedsIff(s2, totalPages);
    if ParseSpec(s1, totalPages).Success? {
      var a := ParseSpec(s1, totalPages).value;
      var b := ParseSpec(s2, totalPages).value;
      forall p ensures p in a <==> p in b {
        ParseMembership(s1, totalPages, p);
        ParseMembership(s2, totalPages, p);
      }
      AscendingUnique(a, b);
    }
  }

  /** Appending `,t` for a token `t` that converts extends the token list by
      one, or keeps the earlier failure. */
  lemma TokensSnoc(rangeStr: string, t: string, tok: Token)
    requires ',' !in t
    requires ClassifyPart(t) == Success(tok)
    ensures Tokens(rangeStr).Failure? ==> Tokens(rangeStr + [','] + t) == Tokens(rangeStr)
    ensures Tokens(rangeStr).Success? ==>
              Tokens(rangeStr + [','] + t) == Success(Tokens(rangeStr).value + [tok])
  {
    SplitSnoc(rangeStr, t, ',');
    TraverseSnoc(Split(rangeStr, ','), t, ClassifyPart);
  }

  /** An inverted range such as `5-2` adds nothing and raises nothing:
      appending it to any expression leaves the outcome as it was. */
  lemma InvertedRangeIgnored(rangeStr: string, t: string, totalPages: int)
    requires ',' !in t
    requires ClassifyPart(t).Success? && ClassifyPart(t).value.Span?
    requires ClassifyPart(t).value.start > ClassifyPart(t).value.end
    ensures ParseSpec(rangeStr + [','] + t, totalPages) == ParseSpec(rangeStr, totalPages)
  {
    TokensSnoc(rangeStr, t, ClassifyPart(t).value);
    if Tokens(rangeStr).Success? {
      CoveredSnoc(Tokens(rangeStr).value, ClassifyPart(t).value);
    }
  }

  /** A run of digits is a single-page token. */
  lemma ClassifyDigits(s: string)
    requires |s| > 0 && forall i :: 0 <= i < |s| ==> IsDigit(s[i])
    ensures ClassifyPart(s) == Success(Page(DigitsValue(s)))
  {
    ParseDigits(s);
    assert forall i :: 0 <= i < |s| ==> s[i] != '-';
  }

  /** Two runs of digits joined by `-` are a range token. */
  lemma ClassifyDigitsSpan(x: string, y: string)
    requires |x| > 0 && forall i :: 0 <= i < |x| ==> IsDigit(x[i])
    requires |y| > 0 && forall i :: 0 <= i < |y| ==> IsDigit(y[i])
    ensures ClassifyPart(x + ['-'] + y) == Success(Span(DigitsValue(x), DigitsValue(y)))
  {
    ParseDigits(x);
    ParseDigits(y);
    assert '-' !in x by {
      assert forall i :: 0 <= i < |x| ==> x[i] != '-';
    }
    assert '-' !in y by {
      assert forall i :: 0 <= i < |y| ==> y[i] != '-';
    }
    assert x + ['-'] + y == Join([x, y], '-');
    SplitJoin([x, y], '-');
  }

  /** A token with a third half is refused even when every half is a number:
      `"1-2-3"` raises "too many values to unpack". */
  lemma ThreeHalvesFail(x: string, y: string, z: string)
    requires '-' !in x && '-' !in y && '-' !in z
    requires ParseInt(x).Some? && ParseInt(y).Some? && ParseInt(z).Some?
    ensures ClassifyPart(x + ['-'] + y + ['-'] + z) == Failure(TooManyValues(x + ['-'] + y + ['-'] + z))
  {
    assert [x, y, z][1..] == [y, z] && [y, z][1..] == [z];
    assert Join([y, z], '-') == y + ['-'] + z;
    assert Join([x, y, z], '-') == x + ['-'] + (y + ['-'] + z);
    assert x + ['-'] + y + ['-'] + z == x + ['-'] + (y + ['-'] + z);
    SplitJoin([x, y, z], '-');
  }

  /** A leading `-` opens an empty first half, which `int()` refuses: `"-3"`
      is not a negative page but an error. */
  lemma LeadingDashFails(t: string)
    ensures ClassifyPart(['-'] + t) == Failure(InvalidLiteral([]))
  {
    SplitSepCons(t, '-');
    assert ParseInt([]).None?;
  }
}
