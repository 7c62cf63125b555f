/** The three handlers of the PDF toolbox, with the dialogs, the PDF library
    and the file system taken out: a document is the sequence of its pages
    (of an abstract page type `P`), opening a file is a function handed in
    by the caller, and the files a handler would save are returned as
    values in the order they would be written. */
module Toolbox {
  import opened Results
  import opened Text
  import opened IntLexer
  import opened Sorting
  import opened PageRange

  // ---------------------------------------------------------------------
  // Split: one single-page document per selected page

  /** A document the handler saves: its file name and its pages. */
  datatype OutputFile<P> = OutputFile(name: string, pages: seq<P>)

  /** The name `page_{n}.pdf` under which page `n` is saved. */
  function PageFileName(n: nat): (name: string)
    ensures |name| > 9 && name[..5] == "page_" && name[|name| - 4..] == ".pdf"
    ensures name[5..|name| - 4] == Show(n)
  {
    var name := "page_" + Show(n) + ".pdf";
    assert name[5..|name| - 4] == Show(n);
    name
  }

  /** Different pages are saved under different names, so no file of the
      split overwrites another. */
  lemma PageFileNameInjective(m: nat, n: nat)
    requires PageFileName(m) == PageFileName(n)
    ensures m == n
  {
    assert Show(m) == Show(n);
  }

  /** The files of a split, given the pages selected from `doc`: page `p`
      becomes its own document `pdf.pages[p - 1]` named `page_{p}.pdf`. */
  predicate SplitFiles<P(==)>(doc: seq<P>, selected: seq<int>, files: seq<OutputFile<P>>) {
    && |files| == |selected|
    && forall i :: 0 <= i < |files| ==>
         && 1 <= selected[i] <= |doc|
         && files[i] == OutputFile(PageFileName(selected[i]), [doc[selected[i] - 1]])
  }

  /** The split handler: parse the range against the page count, then save
      one single-page document per selected page, in ascending page order.
      A bad range raises before anything is saved. */
  method SplitPdf<P(==)>(doc: seq<P>, rangeStr: string) returns (r: Result<seq<OutputFile<P>>, Error>)
    ensures ParseSpec(rangeStr, |doc|).Failure? ==> r == Failure(ParseSpec(rangeStr, |doc|).error)
    ensures ParseSpec(rangeStr, |doc|).Success? ==>
              r.Success? && SplitFiles(doc, ParseSpec(rangeStr, |doc|).value, r.value)
    ensures r.Success? ==> forall i, j :: 0 <= i < j < |r.value| ==> r.value[i].name != r.value[j].name
  {
    var parsed := ParsePageRange(rangeStr, |doc|);
    if parsed.Failure? {
      return Failure(parsed.error);
    }
    var selected := parsed.value;
    var files: seq<OutputFile<P>> := [];
    for i := 0 to |selected|
      invariant SplitFiles(doc, selected[..i], files)
    {
      var pageNum := selected[i];
      SplitFilesSnoc(doc, selected, i, files);
      files := files + [OutputFile(PageFileName(pageNum), [doc[pageNum - 1]])];
    }
    assert selected[..|selected|] == selected;
    SplitNamesDistinct(doc, selected, files);
    r := Success(files);
  }

  /** One turn of the split loop: the file for the next selected page. */
  lemma SplitFilesSnoc<P>(doc: seq<P>, selected: seq<int>, i: nat, files: seq<OutputFile<P>>)
    requires i < |selected| && 1 <= selected[i] <= |doc|
    requires SplitFiles(doc, selected[..i], files)
    ensures SplitFiles(doc, selected[..i + 1],
                       files + [OutputFile(PageFileName(selected[i]), [doc[selected[i] - 1]])])
  {
    assert selected[..i + 1] == selected[..i] + [selected[i]];
  }

  /** Pages selected in strictly ascending order give pairwise distinct
      file names. */
  lemma SplitNamesDistinct<P>(doc: seq<P>, selected: seq<int>, files: seq<OutputFile<P>>)
    requires StrictlyAscending(selected)
    requires SplitFiles(doc, selected, files)
    ensures forall i, j :: 0 <= i < j < |files| ==> files[i].name != files[j].name
  {
    forall i, j | 0 <= i < j < |files|
      ensures files[i].name != files[j].name
    {
      if files[i].name == files[j].name {
        PageFileNameInjective(selected[i], selected[j]);
      }
    }
  }

  // ---------------------------------------------------------------------
  // Merge: the pages of every source, source after source

  /** The exception raised when a source cannot be opened. */
  datatype MergeError = CannotOpen(path: string)

  /** Opening one source, as the traversal sees it. */
  function Opener<P>(open: string -> Option<seq<P>>): string -> Result<seq<P>, MergeError> {
    path => if open(path).Some? then Success(open(path).value) else Failure(CannotOpen(path))
  }

  /** The pages of several documents, one after another. */
  function Concat<P>(docs: seq<seq<P>>): seq<P>
    decreases |docs|
  {
    if docs == [] then [] else Concat(docs[..|docs| - 1]) + docs[|docs| - 1]
  }

  /** The total page count of several documents. */
  function TotalPages<P>(docs: seq<seq<P>>): nat
    decreases |docs|
  {
    if docs == [] then 0 else TotalPages(docs[..|docs| - 1]) + |docs[|docs| - 1]|
  }

  /** What `merge_pdfs` saves for the chosen paths, or the first failure. */
  function MergeSpec<P>(paths: seq<string>, open: string -> Option<seq<P>>): Result<seq<P>, MergeError> {
    match Traverse(paths, Opener(open))
    case Failure(e) => Failure(e)
    case Success(docs) => Success(Concat(docs))
  }

  /** The merge handler: start from an empty document and extend it with
      the pages of each source in turn. */
  method MergePdfs<P>(paths: seq<string>, open: string -> Option<seq<P>>) returns (r: Result<seq<P>, MergeError>)
    ensures r == MergeSpec(paths, open)
    ensures r.Success? <==> forall i :: 0 <= i < |paths| ==> open(paths[i]).Some?
  {
    var pages: seq<P> := [];
    for i := 0 to |paths|
      invariant Traverse(paths[..i], Opener(open)).Success?
      invariant pages == Concat(Traverse(paths[..i], Opener(open)).value)
    {
      ghost var done := Traverse(paths[..i], Opener(open)).value;
      TraverseStep(paths, i, Opener(open));
      var src := open(paths[i]);
      if src.None? {
        return Failure(CannotOpen(paths[i]));
      }
      assert done + [src.value] == Traverse(paths[..i + 1], Opener(open)).value;
      assert (done + [src.value])[..|done|] == done;
      pages := pages + src.value;
    }
    assert paths[..|paths|] == paths;
    r := Success(pages);
    TraverseSucceedsIff(paths, Opener(open));
  }

  /** The merged document has as many pages as all the sources together. */
  lemma {:induction false} ConcatLength<P>(docs: seq<seq<P>>)
    ensures |Concat(docs)| == TotalPages(docs)
    decreases |docs|
  {
    if docs != [] {
      ConcatLength(docs[..|docs| - 1]);
    }
  }

  /** Page `j` of source `i` lands right after the pages of the sources
      before it: the merge keeps the sources' order and each source's own
      page order. */
  lemma {:induction false} ConcatIndex<P>(docs: seq<seq<P>>, i: nat, j: nat)
    requires i < |docs| && j < |docs[i]|
    ensures TotalPages(docs[..i]) + j < |Concat(docs)|
    ensures Concat(docs)[TotalPages(docs[..i]) + j] == docs[i][j]
    decreases |docs|
  {
    var init := docs[..|docs| - 1];
    ConcatLength(init);
    ConcatLength(docs);
    if i == |docs| - 1 {
      assert docs[..i] == init;
    } else {
      assert init[..i] == docs[..i];
      ConcatIndex(init, i, j);
    }
  }

  /** On success the merge holds exactly the opened sources' pages, in
      order, and as many of them as the sources have together. */
  lemma MergeContents<P>(paths: seq<string>, open: string -> Option<seq<P>>)
    requires MergeSpec(paths, open).Success?
    ensures |Traverse(paths, Opener(open)).value| == |paths|
    ensures forall i :: 0 <= i < |paths| ==> open(paths[i]) == Some(Traverse(paths, Opener(open)).value[i])
    ensures MergeSpec(paths, open).value == Concat(Traverse(paths, Opener(open)).value)
    ensures |MergeSpec(paths, open).value| == TotalPages(Traverse(paths, Opener(open)).value)
  {
    TraverseSuccess(paths, Opener(open));
    ConcatLength(Traverse(paths, Opener(open)).value);
  }

  /** On failure the merge reports the first source that cannot be opened. */
  lemma MergeFailsAtFirst<P>(paths: seq<string>, open: string -> Option<seq<P>>)
    requires MergeSpec(paths, open).Failure?
    ensures exists k :: && 0 <= k < |paths| && open(paths[k]).None?
                        && MergeSpec(paths, open).error == CannotOpen(paths[k])
                        && forall j :: 0 <= j < k ==> open(paths[j]).Some?
  {
    TraverseFirstFailure(paths, Opener(open));
    var k :| && 0 <= k < |paths|
             && Opener(open)(paths[k]) == Failure(Traverse(paths, Opener(open)).error)
             && forall j :: 0 <= j < k ==> Opener(open)(paths[j]).Success?;
    assert open(paths[k]).None?;
    assert forall j :: 0 <= j < k ==> open(paths[j]).Some? by {
      forall j | 0 <= j < k ensures open(paths[j]).Some? {
        assert Opener(open)(paths[j]).Success?;
      }
    }
  }

  /** Merging a two-page and a three-page document gives five pages: the
      first document's two, then the second's three. */
  lemma MergeTwoExample<P>(x: string, y: string, open: string -> Option<seq<P>>, a1: P, a2: P, b1: P, b2: P, b3: P)
    requires open(x) == Some([a1, a2]) && open(y) == Some([b1, b2, b3])
    ensures MergeSpec([x, y], open) == Success([a1, a2, b1, b2, b3])
  {
    var f := Opener(open);
    assert f(x) == Success([a1, a2]) && f(y) == Success([b1, b2, b3]);
    TraverseSnoc([], x, f);
    assert [] + [x] == [x];
    assert Traverse([x], f) == Success([] + [[a1, a2]]);
    assert [] + [[a1, a2]] == [[a1, a2]];
    TraverseSnoc([x], y, f);
    assert [x] + [y] == [x, y];
    assert [[a1, a2]] + [[b1, b2, b3]] == [[a1, a2], [b1, b2, b3]];
    assert Traverse([x, y], f) == Success([[a1, a2], [b1, b2, b3]]);
    var docs := [[a1, a2], [b1, b2, b3]];
    assert docs[..1] == [[a1, a2]] && docs[..1][..0] == [];
    assert Concat(docs[..1]) == [a1, a2];
    assert Concat(docs) == Concat(docs[..1]) + [b1, b2, b3];
    assert [a1, a2] + [b1, b2, b3] == [a1, a2, b1, b2, b3];
  }

  // ---------------------------------------------------------------------
  // Compress: the input checks and the suggested output name

  /** `path.lower().endswith('.pdf')`. */
  function IsPdfPath(path: string): (r: bool)
    ensures r <==> && |path| >= 4
                   && path[|path| - 4] == '.'
                   && (path[|path| - 3] == 'p' || path[|path| - 3] == 'P')
                   && (path[|path| - 2] == 'd' || path[|path| - 2] == 'D')
                   && (path[|path| - 1] == 'f' || path[|path| - 1] == 'F')
  {
    var lower := Lower(path);
    assert |path| >= 4 ==>
             (lower[|path| - 4..] == ".pdf" <==>
                && lower[|path| - 4] == '.' && lower[|path| - 3] == 'p'
                && lower[|path| - 2] == 'd' && lower[|path| - 1] == 'f');
    EndsWith(lower, ".pdf")
  }

  /** Why the compressor refuses a chosen file. */
  datatype CompressError =
    | FileMissing(path: string)  // "File ... does not exist."
    | NotPdf                     // "Input file must be a PDF."

  /** The two checks before compressing, in the handler's order: a file
      that does not exist is reported as missing even when its name is not
      a PDF name. `present` stands for `os.path.exists(path)`. */
  function CheckCompressInput(path: string, present: bool): (r: Option<CompressError>)
    ensures r.None? <==> present && IsPdfPath(path)
    ensures r == Some(FileMissing(path)) <==> !present
    ensures r == Some(NotPdf) <==> present && !IsPdfPath(path)
  {
    if !present then Some(FileMissing(path))
    else if !IsPdfPath(path) then Some(NotPdf)
    else None
  }

  /** The suggested output name `compressed_{filename}`. */
  function CompressedName(filename: string): (name: string)
    ensures |name| == |filename| + 11
    ensures name[..11] == "compressed_" && name[11..] == filename
  {
    "compressed_" + filename
  }

  /** Different inputs get different suggestions, and a suggestion is never
      the input's own name. */
  lemma CompressedNameInjective(a: string, b: string)
    ensures CompressedName(a) == CompressedName(b) ==> a == b
    ensures CompressedName(a) != a
  {
    if CompressedName(a) == CompressedName(b) {
      assert a == CompressedName(a)[11..];
    }
    assert |CompressedName(a)| != |a|;
  }

  /** The suggestion for a PDF name is again a PDF name. */
  lemma CompressedNameIsPdf(filename: string)
    requires IsPdfPath(filename)
    ensures IsPdfPath(CompressedName(filename))
  {
    var name := CompressedName(filename);
    var n := |filename|;
    assert name[11..] == filename;
    assert name[11 + n - 4] == filename[n - 4] && name[11 + n - 3] == filename[n - 3];
    assert name[11 + n - 2] == filename[n - 2] && name[11 + n - 1] == filename[n - 1];
  }
}
