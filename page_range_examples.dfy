/** Worked inputs of the page-range parser, as a user would type them into
    the split dialog. */
module PageRangeExamples {
  import opened Results
  import opened Text
  import opened IntLexer
  import opened Sorting
  import opened PageRange

  /** A sequence with the same members as the parse and in ascending order is
      the parse. */
  lemma SelectionIs(pages: set<int>, totalPages: int, expected: seq<int>)
    requires StrictlyAscending(expected)
    requires forall p :: p in expected <==> p in pages && 1 <= p <= totalPages
    ensures Selection(pages, totalPages) == expected
  {
    AscendingUnique(Selection(pages, totalPages), expected);
  }

  /** An expression joined from tokens that each convert parses to the
      selection of what those tokens cover. */
  lemma ParseOfJoin(parts: seq<string>, toks: seq<Token>, totalPages: int, expected: seq<int>)
    requires |parts| >= 1 && |toks| == |parts|
    requires forall i :: 0 <= i < |parts| ==> ',' !in parts[i]
    requires forall i :: 0 <= i < |parts| ==> ClassifyPart(parts[i]) == Success(toks[i])
    requires StrictlyAscending(expected)
    requires forall p :: p in expected <==> p in Covered(toks) && 1 <= p <= totalPages
    ensures ParseSpec(Join(parts, ','), totalPages) == Success(expected)
  {
    SplitJoin(parts, ',');
    TraverseSucceedsIff(parts, ClassifyPart);
    TraverseSuccess(parts, ClassifyPart);
    assert Tokens(Join(parts, ',')).value == toks;
    SelectionIs(Covered(toks), totalPages, expected);
  }

  // The tokens of the examples below.

  lemma SpanToken(x: char, y: char)
    requires IsDigit(x) && IsDigit(y)
    ensures ClassifyPart([x, '-', y]) == Success(Span(x as int - '0' as int, y as int - '0' as int))
  {
    ClassifyDigitsSpan([x], [y]);
    assert [x] + ['-'] + [y] == [x, '-', y];
  }

  lemma PageToken(x: char)
    requires IsDigit(x)
    ensures ClassifyPart([x]) == Success(Page(x as int - '0' as int))
  {
    ClassifyDigits([x]);
  }

  /** `"3,1"` with two pages selects page 1 only: page 3 lies past the
      end. */
  lemma ClippedExample()
    ensures ParseSpec("3,1", 2) == Success([1])
  {
    PageToken('3');
    PageToken('1');
    var parts := ["3", "1"];
    var toks := [Page(3), Page(1)];
    assert "3,1" == Join(parts, ',');
    assert toks == [Page(3)] + [Page(1)];
    CoveredSnoc([Page(3)], Page(1));
    CoveredSnoc([], Page(3));
    ParseOfJoin(parts, toks, 2, [1]);
  }

  /** `"2,1"` with five pages selects 1 then 2: the pages come out sorted. */
  lemma SortedExample()
    ensures ParseSpec("2,1", 5) == Success([1, 2])
  {
    PageToken('2');
    PageToken('1');
    var parts := ["2", "1"];
    var toks := [Page(2), Page(1)];
    assert "2,1" == Join(parts, ',');
    assert toks == [Page(2)] + [Page(1)];
    CoveredSnoc([Page(2)], Page(1));
    CoveredSnoc([], Page(2));
    ParseOfJoin(parts, toks, 5, [1, 2]);
  }

  /** `"5-2"` is an inverted range: no pages and no error. */
  lemma InvertedExample()
    ensures ParseSpec("5-2", 10) == Success([])
  {
    SpanToken('5', '2');
    CoveredSnoc([], Span(5, 2));
    ParseOfJoin(["5-2"], [Span(5, 2)], 10, []);
  }

  /** `"2,2"` with five pages selects page 2 once. */
  lemma RepeatedExample()
    ensures ParseSpec("2,2", 5) == Success([2])
  {
    PageToken('2');
    var parts := ["2", "2"];
    var toks := [Page(2), Page(2)];
    assert "2,2" == Join(parts, ',');
    assert toks == [Page(2)] + [Page(2)];
    CoveredSnoc([Page(2)], Page(2));
    CoveredSnoc([], Page(2));
    ParseOfJoin(parts, toks, 5, [2]);
  }

  /** `"abc"` is not a number. */
  lemma WordFails()
    ensures ParseSpec("abc", 5) == Failure(InvalidLiteral("abc"))
  {
    assert "abc" == Join(["abc"], ',');
    SplitJoin(["abc"], ',');
    assert TrimStart("abc") == "abc";
    assert TrimEnd("abc") == "abc";
  }

  /** The empty expression fails: `int("")` raises. */
  lemma EmptyFails()
    ensures ParseSpec("", 5) == Failure(InvalidLiteral(""))
  {
  }

  /** A trailing comma leaves an empty last token, which fails after the
      good token before it. */
  lemma TrailingCommaExample()
    ensures ParseSpec("1,", 5) == Failure(InvalidLiteral(""))
  {
    PageToken('1');
    var parts := ["1", ""];
    assert "1," == Join(parts, ',');
    SplitJoin(parts, ',');
    assert parts[..1] == ["1"];
    assert ClassifyPart("") == Failure(InvalidLiteral(""));
    TraverseStep(parts, 1, ClassifyPart);
  }

  /** `"-3"` is split into `""` and `"3"`, and `int("")` raises. */
  lemma NegativeExample()
    ensures ParseSpec("-3", 5) == Failure(InvalidLiteral(""))
  {
    LeadingDashFails("3");
    assert ['-'] + "3" == "-3";
    assert "-3" == Join(["-3"], ',');
    SplitJoin(["-3"], ',');
  }

  /** The pages the tokens of `"1-3,5,7-9"` cover. */
  lemma PromptCovered(toks: seq<Token>)
    requires toks == [Span(1, 3), Page(5), Span(7, 9)]
    ensures forall p :: p in Covered(toks) <==> 1 <= p <= 3 || p == 5 || 7 <= p <= 9
  {
    var one := [Span(1, 3)];
    var two := one + [Page(5)];
    assert toks == two + [Span(7, 9)];
    CoveredSnoc([], Span(1, 3));
    assert [] + [Span(1, 3)] == one;
    CoveredSnoc(one, Page(5));
    CoveredSnoc(two, Span(7, 9));
  }

  /** The tokens of `"1-3,5,7-9"`: two ranges and a page. */
  lemma PromptClassified(parts: seq<string>, toks: seq<Token>)
    requires parts == ["1-3", "5", "7-9"]
    requires toks == [Span(1, 3), Page(5), Span(7, 9)]
    ensures forall i :: 0 <= i < |parts| ==> ClassifyPart(parts[i]) == Success(toks[i])
  {
    SpanToken('1', '3');
    PageToken('5');
    SpanToken('7', '9');
  }

  /** `"1-3,5,7-9"`, given as its tokens, with ten pages. */
  lemma PromptTokens(parts: seq<string>, toks: seq<Token>, expected: seq<int>)
    requires parts == ["1-3", "5", "7-9"]
    requires toks == [Span(1, 3), Page(5), Span(7, 9)]
    requires expected == [1, 2, 3, 5, 7, 8, 9]
    ensures ParseSpec(Join(parts, ','), 10) == Success(expected)
  {
    PromptClassified(parts, toks);
    PromptCovered(toks);
    assert forall p :: p in expected <==> 1 <= p <= 3 || p == 5 || 7 <= p <= 9;
    ParseOfJoin(parts, toks, 10, expected);
  }

  /** The dialog's own example: `"1-3,5,7-9"` with ten pages selects
      1, 2, 3, 5, 7, 8 and 9. */
  lemma PromptExample()
    ensures ParseSpec("1-3,5,7-9", 10) == Success([1, 2, 3, 5, 7, 8, 9])
  {
    var parts := ["1-3", "5", "7-9"];
    assert "1-3,5,7-9" == Join(parts, ',');
    PromptTokens(parts, [Span(1, 3), Page(5), Span(7, 9)], [1, 2, 3, 5, 7, 8, 9]);
  }
}
