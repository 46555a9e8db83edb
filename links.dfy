/** The link resolver: `ArticleIdList.sort(key=len)` followed by the DOI
    test on the longest identifier (app.py lines 36-44). */
module Links {
  import opened Wrappers
  import opened Records

  const DoiPrefix: string := "https://doi.org/"

  ghost predicate SortedByLength(s: seq<string>) {
    forall i, j :: 0 <= i < j < |s| ==> |s[i]| <= |s[j]|
  }

  /** The entries of `s` of length `n`, in their order in `s`. */
  function OfLength(s: seq<string>, n: nat): (r: seq<string>)
  {
    if s == [] then []
    else OfLength(s[..|s| - 1], n) + (if |s[|s| - 1]| == n then [s[|s| - 1]] else [])
  }

  /** A result of a stable sort by length: ordered by length, and the
      entries of each length in their original order. */
  ghost predicate IsStableSortByLength(s: seq<string>, r: seq<string>) {
    SortedByLength(r) && multiset(r) == multiset(s) && forall n: nat :: OfLength(r, n) == OfLength(s, n)
  }

  /** Places `x` after every entry of `t` that is not longer than `x`. */
  function InsertByLength(t: seq<string>, x: string): (r: seq<string>)
    ensures |r| == |t| + 1
  {
    if t == [] || |t[|t| - 1]| <= |x| then t + [x]
    else InsertByLength(t[..|t| - 1], x) + [t[|t| - 1]]
  }

  /** `list.sort(key=len)`, which is stable: an insertion sort that inserts
      each entry after the equally long entries before it. */
  function SortByLength(s: seq<string>): (r: seq<string>)
    ensures |r| == |s|
  {
    if s == [] then [] else InsertByLength(SortByLength(s[..|s| - 1]), s[|s| - 1])
  }

  lemma {:induction false} OfLengthAppend(a: seq<string>, b: seq<string>, n: nat)
    ensures OfLength(a + b, n) == OfLength(a, n) + OfLength(b, n)
  {
    if b != [] {
      var b' := b[..|b| - 1];
      assert (a + b)[..|a + b| - 1] == a + b';
      OfLengthAppend(a, b', n);
    } else {
      assert a + b == a;
    }
  }

  lemma {:induction false} InsertMultiset(t: seq<string>, x: string)
    ensures multiset(InsertByLength(t, x)) == multiset(t) + multiset{x}
  {
    if !(t == [] || |t[|t| - 1]| <= |x|) {
      var t' := t[..|t| - 1];
      InsertMultiset(t', x);
      assert t == t' + [t[|t| - 1]];
    }
  }

  lemma {:induction false} InsertSorted(t: seq<string>, x: string)
    requires SortedByLength(t)
    ensures SortedByLength(InsertByLength(t, x))
  {
    if !(t == [] || |t[|t| - 1]| <= |x|) {
      var t', y := t[..|t| - 1], t[|t| - 1];
      InsertSorted(t', x);
      InsertMultiset(t', x);
      var u := InsertByLength(t', x);
      forall i | 0 <= i < |u| ensures |u[i]| <= |y| {
        assert u[i] in multiset(t') + multiset{x};
        if u[i] in multiset(t') {
          var k :| 0 <= k < |t'| && t'[k] == u[i];
          assert t[k] == u[i];
        }
      }
    }
  }

  lemma {:induction false} InsertOfLength(t: seq<string>, x: string, n: nat)
    ensures OfLength(InsertByLength(t, x), n) == OfLength(t, n) + (if |x| == n then [x] else [])
  {
    if t == [] || |t[|t| - 1]| <= |x| {
      assert (t + [x])[..|t|] == t;
    } else {
      var t', y := t[..|t| - 1], t[|t| - 1];
      InsertOfLength(t', x, n);
      OfLengthAppend(InsertByLength(t', x), [y], n);
      assert OfLength([y], n) == OfLength([], n) + (if |y| == n then [y] else []);
    }
  }

  /** SortByLength is a stable sort by length of its input. */
  lemma {:induction false} SortByLengthIsStable(s: seq<string>)
    ensures IsStableSortByLength(s, SortByLength(s))
  {
    if s != [] {
      var p, x := s[..|s| - 1], s[|s| - 1];
      SortByLengthIsStable(p);
      InsertSorted(SortByLength(p), x);
      InsertMultiset(SortByLength(p), x);
      assert s == p + [x];
      forall n: nat ensures OfLength(SortByLength(s), n) == OfLength(s, n) {
        InsertOfLength(SortByLength(p), x, n);
      }
    }
  }

  /** `k` indexes the last of the longest entries of `s`. */
  ghost predicate IsLastLongest(s: seq<string>, k: int) {
    0 <= k < |s| &&
    (forall j :: 0 <= j < |s| ==> |s[j]| <= |s[k]|) &&
    (forall j :: k < j < |s| ==> |s[j]| < |s[k]|)
  }

  /** Every non-empty list has exactly one last-longest index. */
  function LastLongestIndex(s: seq<string>): (k: nat)
    requires s != []
    ensures IsLastLongest(s, k)
    ensures forall k' :: IsLastLongest(s, k') ==> k' == k
  {
    if |s| == 1 then 0
    else
      var k := LastLongestIndex(s[..|s| - 1]);
      if |s[k]| <= |s[|s| - 1]| then |s| - 1 else k
  }

  /** After the stable sort, the last identifier is the last of the longest
      identifiers of the original list. */
  lemma {:induction false} SortedLastIsLastLongest(s: seq<string>, k: int)
    requires IsLastLongest(s, k)
    ensures SortByLength(s)[|s| - 1] == s[k]
  {
    var p, x := s[..|s| - 1], s[|s| - 1];
    if p != [] {
      var t := SortByLength(p);
      if k == |s| - 1 {
        SortByLengthIsStable(p);
        assert t[|t| - 1] in multiset(p);
        var i :| 0 <= i < |p| && p[i] == t[|t| - 1];
        assert s[i] == p[i];
      } else {
        assert IsLastLongest(p, k);
        SortedLastIsLastLongest(p, k);
      }
    }
  }

  /** The value `get_link` stores in `art['link']`: the DOI URL of the last
      identifier after sorting by length when it contains '/', else None;
      an empty list raises IndexError. */
  function DoiLink(ids: seq<string>): (r: Result<Option<string>, Error>)
    ensures r.Err? <==> ids == []
    ensures r.Ok? && r.value.Some? ==> exists i :: 0 <= i < |ids| && r.value.value == DoiPrefix + ids[i] && '/' in ids[i]
  {
    if ids == [] then Err(EmptyIdList)
    else
      var last := SortByLength(ids)[|ids| - 1];
      SortByLengthIsStable(ids);
      assert last in multiset(ids);
      if '/' in last then Ok(Some(DoiPrefix + last)) else Ok(None)
  }

  /** The link is decided by the last of the longest identifiers alone. */
  lemma DoiLinkOfLastLongest(ids: seq<string>)
    ensures ids == [] <==> DoiLink(ids) == Err(EmptyIdList)
    ensures ids != [] ==>
      var id := ids[LastLongestIndex(ids)];
      DoiLink(ids) == Ok(if '/' in id then Some(DoiPrefix + id) else None)
  {
    if ids != [] {
      SortedLastIsLastLongest(ids, LastLongestIndex(ids));
    }
  }

  /** A PMID and a DOI: the DOI wins. */
  lemma DoiLinkExample()
    ensures DoiLink(["12345", "10.1000/xyz"]) == Ok(Some("https://doi.org/10.1000/xyz"))
  {
    var ids := ["12345", "10.1000/xyz"];
    assert IsLastLongest(ids, 1);
    SortedLastIsLastLongest(ids, 1);
    assert '/' in ids[1] by { assert ids[1][7] == '/'; }
    assert DoiPrefix + ids[1] == "https://doi.org/10.1000/xyz";
  }
}
