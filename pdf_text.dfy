/**
 * `extract_pdf_text`: the per-page texts a PDF library returns are joined in
 * page order (a page with no text contributes nothing) and the result is
 * stripped of surrounding whitespace with Python's `str.strip()`.
 */
module PdfText {
  import opened Wrappers

  /** The characters Python's `str.isspace()` accepts, which `str.strip()` removes. */
  predicate IsSpace(c: char) {
    || '\t' <= c <= '\r'
    || '\U{1C}' <= c <= '\U{1F}'
    || c == ' ' || c == '\U{85}' || c == '\U{A0}' || c == '\U{1680}'
    || '\U{2000}' <= c <= '\U{200A}'
    || c == '\U{2028}' || c == '\U{2029}' || c == '\U{202F}' || c == '\U{205F}'
    || c == '\U{3000}'
  }

  /** Every character of `s` from index `lo` up to `hi` is whitespace. */
  predicate SpaceBetween(s: string, lo: nat, hi: nat)
    requires lo <= hi <= |s|
  {
    forall k :: lo <= k < hi ==> IsSpace(s[k])
  }

  /** The first index from `i` on that does not hold whitespace (or `|s|`). */
  function SkipSpace(s: string, i: nat): (k: nat)
    requires i <= |s|
    ensures i <= k <= |s| && SpaceBetween(s, i, k)
    ensures k == |s| || !IsSpace(s[k])
    decreases |s| - i
  {
    if i < |s| && IsSpace(s[i]) then SkipSpace(s, i + 1) else i
  }

  /** The least `k`, down to `lo`, such that `s[k..j]` is all whitespace. */
  function SkipSpaceBack(s: string, lo: nat, j: nat): (k: nat)
    requires lo <= j <= |s|
    ensures lo <= k <= j && SpaceBetween(s, k, j)
    ensures k == lo || !IsSpace(s[k - 1])
    decreases j - lo
  {
    if lo < j && IsSpace(s[j - 1]) then SkipSpaceBack(s, lo, j - 1) else j
  }

  /**
   * Python's `s.strip()`: the contiguous part of `s` left when the leading
   * and the trailing whitespace are cut off; it neither starts nor ends with
   * whitespace.
   */
  function Strip(s: string): (r: string)
    ensures |r| <= |s|
    ensures r == [] || (!IsSpace(r[0]) && !IsSpace(r[|r| - 1]))
    ensures exists i :: 0 <= i <= i + |r| <= |s| && r == s[i..i + |r|]
                        && SpaceBetween(s, 0, i) && SpaceBetween(s, i + |r|, |s|)
  {
    var i := SkipSpace(s, 0);
    var j := SkipSpaceBack(s, i, |s|);
    s[i..j]
  }

  lemma {:induction false} SkipSpaceUnique(s: string, i: nat, k: nat)
    requires i <= k <= |s| && SpaceBetween(s, i, k) && (k == |s| || !IsSpace(s[k]))
    ensures SkipSpace(s, i) == k
    decreases k - i
  {
    if i < k {
      SkipSpaceUnique(s, i + 1, k);
    }
  }

  lemma {:induction false} SkipSpaceBackUnique(s: string, lo: nat, j: nat, k: nat)
    requires lo <= k <= j <= |s| && SpaceBetween(s, k, j) && (k == lo || !IsSpace(s[k - 1]))
    ensures SkipSpaceBack(s, lo, j) == k
    decreases j - k
  {
    if k < j {
      SkipSpaceBackUnique(s, lo, j - 1, k);
    }
  }

  /** Skipping whitespace backwards stops after any non-whitespace character. */
  lemma SkipSpaceBackPast(s: string, lo: nat, j: nat, m: nat)
    requires lo <= m < j <= |s| && !IsSpace(s[m])
    ensures SkipSpaceBack(s, lo, j) > m
  {
  }

  /**
   * `Strip` is determined by its contract: any cut of `s` into whitespace,
   * a part that is empty or starts and ends with non-whitespace, and
   * whitespace, has that middle part as `Strip(s)`.
   */
  lemma StripUnique(s: string, i: nat, j: nat)
    requires i <= j <= |s| && SpaceBetween(s, 0, i) && SpaceBetween(s, j, |s|)
    requires i == j || (!IsSpace(s[i]) && !IsSpace(s[j - 1]))
    ensures Strip(s) == s[i..j]
  {
    if i == j {
      SkipSpaceUnique(s, 0, |s|);
      assert SkipSpaceBack(s, |s|, |s|) == |s|;
    } else {
      SkipSpaceUnique(s, 0, i);
      SkipSpaceBackUnique(s, i, |s|, j);
    }
  }

  lemma StripIdempotent(s: string)
    ensures Strip(Strip(s)) == Strip(s)
  {
    var r := Strip(s);
    StripUnique(r, 0, |r|);
  }

  /** Text appended after `a` can only extend `Strip(a)`, never change it. */
  lemma StripAppend(a: string, b: string)
    ensures Strip(a) <= Strip(a + b)
  {
    var i := SkipSpace(a, 0);
    if i < |a| {
      var j := SkipSpaceBack(a, i, |a|);
      var j' := AppendKeepsCut(a, b);
      assert Strip(a) == a[i..j];
      assert Strip(a + b) == (a + b)[i..j'];
      assert (a + b)[i..j'][..j - i] == a[i..j];
    }
  }

  /**
   * When `a` holds a non-whitespace character, the cut `Strip` makes of
   * `a + b` starts where the one of `a` starts and ends no earlier.
   */
  lemma AppendKeepsCut(a: string, b: string) returns (j': nat)
    requires SkipSpace(a, 0) < |a|
    ensures SkipSpace(a + b, 0) == SkipSpace(a, 0)
    ensures j' == SkipSpaceBack(a + b, SkipSpace(a, 0), |a + b|)
    ensures SkipSpaceBack(a, SkipSpace(a, 0), |a|) <= j' <= |a + b|
  {
    var s := a + b;
    var i := SkipSpace(a, 0);
    var j := SkipSpaceBack(a, i, |a|);
    assert forall k :: 0 <= k < |a| ==> s[k] == a[k];
    SkipSpaceUnique(s, 0, i);
    SkipSpaceBackPast(a, i, |a|, i);
    SkipSpaceBackPast(s, i, |s|, j - 1);
    j' := SkipSpaceBack(s, i, |s|);
  }

  /** `page.extract_text() or ""` for every page, joined in page order. */
  function ConcatPages(pages: seq<Option<string>>): string
  {
    if |pages| == 0 then ""
    else ConcatPages(pages[..|pages| - 1]) + pages[|pages| - 1].GetOr("")
  }

  lemma {:induction false} ConcatPagesAppend(a: seq<Option<string>>, b: seq<Option<string>>)
    ensures ConcatPages(a + b) == ConcatPages(a) + ConcatPages(b)
    decreases |b|
  {
    if |b| == 0 {
      assert a + b == a;
    } else {
      assert (a + b)[..|a + b| - 1] == a + b[..|b| - 1];
      ConcatPagesAppend(a, b[..|b| - 1]);
    }
  }

  /**
   * Pages are joined in order, and a page that yields no text (`None`, or
   * the empty string) contributes nothing: the text is the same as if that
   * page were absent.
   */
  lemma PageOrder(before: seq<Option<string>>, page: Option<string>, after: seq<Option<string>>)
    ensures ConcatPages(before + [page] + after)
         == ConcatPages(before) + page.GetOr("") + ConcatPages(after)
    ensures page.GetOr("") == "" ==>
      ConcatPages(before + [page] + after) == ConcatPages(before + after)
  {
    ConcatPagesAppend(before + [page], after);
    ConcatPagesAppend(before, [page]);
    ConcatPagesAppend(before, after);
    assert [page][..0] == [];
  }

  /**
   * `extract_pdf_text(pdf_file)`. `doc` is what the PDF library yields: the
   * optional text of each page, or `None` when opening the file or
   * extracting any page raised an exception, which the function turns
   * into `None`.
   */
  method ExtractPdfText(doc: Option<seq<Option<string>>>) returns (text: Option<string>)
    ensures doc.None? ==> text.None?
    ensures doc.Some? ==> text == Some(Strip(ConcatPages(doc.value)))
  {
    if doc.None? {
      return None;
    }
    var pages := doc.value;
    var acc := "";
    for i := 0 to |pages|
      invariant acc == ConcatPages(pages[..i])
    {
      assert pages[..i + 1][..i] == pages[..i];
      acc := acc + pages[i].GetOr("");
    }
    assert pages[..|pages|] == pages;
    return Some(Strip(acc));
  }

  /**
   * More pages never lose text: the extracted text of a document is a
   * prefix of that of the same document with pages added at the end, so
   * its length cannot decrease.
   */
  lemma ExtractGrowsWithPages(pages: seq<Option<string>>, more: seq<Option<string>>)
    ensures Strip(ConcatPages(pages)) <= Strip(ConcatPages(pages + more))
    ensures |Strip(ConcatPages(pages))| <= |Strip(ConcatPages(pages + more))|
  {
    ConcatPagesAppend(pages, more);
    StripAppend(ConcatPages(pages), ConcatPages(more));
  }

  /** A document none of whose pages yields text extracts to the empty string. */
  lemma NoTextPages(pages: seq<Option<string>>)
    requires forall k :: 0 <= k < |pages| ==> pages[k].GetOr("") == ""
    ensures ConcatPages(pages) == "" && Strip(ConcatPages(pages)) == ""
  {
    NoTextConcat(pages);
  }

  lemma {:induction false} NoTextConcat(pages: seq<Option<string>>)
    requires forall k :: 0 <= k < |pages| ==> pages[k].GetOr("") == ""
    ensures ConcatPages(pages) == ""
  {
    if |pages| > 0 {
      NoTextConcat(pages[..|pages| - 1]);
    }
  }
}
