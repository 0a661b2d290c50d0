/**
 * The heuristic `analyze_document` uses to cut a JSON object out of a
 * free-form completion: the text from the first `{` through the last `}`,
 * computed with Python's `str.find`, `str.rfind` and slice semantics.
 */
module Slicing {

  /** Python's `s.find(c)`: the least index holding `c`, or -1. */
  function Find(s: string, c: char): (r: int)
    ensures -1 <= r < |s|
    ensures r == -1 <==> c !in s
    ensures 0 <= r ==> s[r] == c && c !in s[..r]
  {
    if |s| == 0 then -1
    else if s[0] == c then 0
    else
      var k := Find(s[1..], c);
      if k == -1 then -1
      else
        assert s[..k + 1] == [s[0]] + s[1..][..k];
        k + 1
  }

  /** Python's `s.rfind(c)`: the greatest index holding `c`, or -1. */
  function RFind(s: string, c: char): (r: int)
    ensures -1 <= r < |s|
    ensures r == -1 <==> c !in s
    ensures 0 <= r ==> s[r] == c && c !in s[r + 1..]
  {
    if |s| == 0 then -1
    else if s[|s| - 1] == c then |s| - 1
    else
      var k := RFind(s[..|s| - 1], c);
      assert s == s[..|s| - 1] + [s[|s| - 1]];
      if k == -1 then -1
      else
        assert s[k + 1..] == s[..|s| - 1][k + 1..] + [s[|s| - 1]];
        k
  }

  /**
   * How Python adjusts one bound of `s[start:stop]` (step 1) for a sequence
   * of length `n`: a negative bound counts from the end, and the result is
   * clamped into `0..n`.
   */
  function ClampIndex(i: int, n: nat): (k: nat)
    ensures k <= n
    ensures 0 <= i <= n ==> k == i
  {
    if i < 0 then (if i + n < 0 then 0 else i + n)
    else if i > n then n
    else i
  }

  /** Python's `s[start:stop]`. */
  function Slice(s: string, start: int, stop: int): (r: string)
    ensures |r| <= |s|
    ensures exists i, j :: 0 <= i <= j <= |s| && r == s[i..j]
    ensures 0 <= start <= stop <= |s| ==> r == s[start..stop]
    ensures ClampIndex(stop, |s|) <= ClampIndex(start, |s|) ==> r == []
  {
    var i, j := ClampIndex(start, |s|), ClampIndex(stop, |s|);
    if i >= j then
      assert [] == s[i..i];
      []
    else s[i..j]
  }

  /** `response_text[response_text.find('{'):response_text.rfind('}') + 1]` */
  function JsonSlice(reply: string): (r: string)
    ensures |r| <= |reply|
    ensures exists i, j :: 0 <= i <= j <= |reply| && r == reply[i..j]
    ensures '}' !in reply ==> r == []
    ensures '{' !in reply ==>
      r == (if |reply| > 0 && reply[|reply| - 1] == '}' then "}" else "")
    ensures '{' in reply && '}' in reply && Find(reply, '{') > RFind(reply, '}') ==> r == []
    ensures '{' in reply && '}' in reply && Find(reply, '{') < RFind(reply, '}') ==>
      r == reply[Find(reply, '{')..RFind(reply, '}') + 1]
  {
    Slice(reply, Find(reply, '{'), RFind(reply, '}') + 1)
  }

  /** Neither brace occurs in `s`. */
  predicate Braceless(s: string) {
    '{' !in s && '}' !in s
  }

  /**
   * When the first `{` precedes the last `}`, the slice runs from the first
   * `{` through the last `}`: it opens with `{`, closes with `}`, and
   * nothing before it holds a `{` and nothing after it a `}`.
   */
  lemma Enclosed(reply: string)
    requires '{' in reply && '}' in reply
    requires Find(reply, '{') < RFind(reply, '}')
    ensures |JsonSlice(reply)| >= 2
    ensures JsonSlice(reply)[0] == '{' && JsonSlice(reply)[|JsonSlice(reply)| - 1] == '}'
    ensures '{' !in reply[..Find(reply, '{')] && '}' !in reply[RFind(reply, '}') + 1..]
  {
  }

  /**
   * Round trip: an object `obj` (opening with `{`, closing with `}`) wrapped
   * in prose that holds no brace is recovered exactly.
   */
  lemma {:induction false} RecoversWrapped(prefix: string, obj: string, suffix: string)
    requires Braceless(prefix) && Braceless(suffix)
    requires |obj| >= 2 && obj[0] == '{' && obj[|obj| - 1] == '}'
    ensures JsonSlice(prefix + obj + suffix) == obj
  {
    var s := prefix + obj + suffix;
    var b, e := |prefix|, |prefix| + |obj| - 1;
    assert s[b] == '{' && s[e] == '}';
    assert s[b..e + 1] == obj;
  }

  /** A reply without `{` yields a slice without `{`: never a JSON object. */
  lemma NoOpenNoObject(reply: string)
    requires '{' !in reply
    ensures '{' !in JsonSlice(reply)
    ensures |JsonSlice(reply)| <= 1
  {
  }
}
