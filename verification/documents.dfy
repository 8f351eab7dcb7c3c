/** Documents as the PDF and image engines see them. A page and a decoded
    image are opaque values: the model only moves them around, in order. */
module Documents {

  /** One page of a PDF document, as read by the PDF engine. */
  type Page

  /** One decoded raster image, as opened by the image engine. */
  type Image

  /** A PDF document is its sequence of pages. */
  type Document = seq<Page>

  /** The pages of `docs[0]`, then those of `docs[1]`, and so on. */
  function Concat<P>(docs: seq<seq<P>>): seq<P> {
    ConcatUpTo(docs, |docs|)
  }

  /** The pages of the first `n` documents, in order: what a writer holds
      after the first `n` documents were appended to it. */
  function ConcatUpTo<P>(docs: seq<seq<P>>, n: nat): seq<P>
    requires n <= |docs|
    decreases n
  {
    if n == 0 then [] else ConcatUpTo(docs, n - 1) + docs[n - 1]
  }

  /** The number of pages that come before document `i` in the
      concatenation. */
  function Offset<P>(docs: seq<seq<P>>, i: nat): nat
    requires i <= |docs|
    decreases i
  {
    if i == 0 then 0 else Offset(docs, i - 1) + |docs[i - 1]|
  }

  /** The number of pages across all documents. */
  function TotalPages<P>(docs: seq<seq<P>>): nat {
    Offset(docs, |docs|)
  }

  /** The first `n` documents together have as many pages as precede
      document `n`. */
  lemma {:induction false} ConcatUpToLength<P>(docs: seq<seq<P>>, n: nat)
    requires n <= |docs|
    ensures |ConcatUpTo(docs, n)| == Offset(docs, n)
    decreases n
  {
    if n > 0 {
      ConcatUpToLength(docs, n - 1);
    }
  }

  /** The concatenation has exactly as many pages as the documents together. */
  lemma ConcatLength<P>(docs: seq<seq<P>>)
    ensures |Concat(docs)| == TotalPages(docs)
  {
    ConcatUpToLength(docs, |docs|);
  }

  /** Page `j` of document `i` already sits at position `Offset(docs, i) + j`
      once any later document has been appended. */
  lemma {:induction false} ConcatUpToIndex<P>(docs: seq<seq<P>>, n: nat, i: nat, j: nat)
    requires i < n <= |docs| && j < |docs[i]|
    ensures Offset(docs, i) + j < |ConcatUpTo(docs, n)|
    ensures ConcatUpTo(docs, n)[Offset(docs, i) + j] == docs[i][j]
    decreases n
  {
    if i == n - 1 {
      ConcatUpToLength(docs, i);
    } else {
      ConcatUpToIndex(docs, n - 1, i, j);
    }
  }

  /** Page `j` of document `i` sits at position `Offset(docs, i) + j` of the
      concatenation: every document contributes all its pages, in order, and
      all pages of document `i` precede all pages of document `i + 1`. */
  lemma ConcatIndex<P>(docs: seq<seq<P>>, i: nat, j: nat)
    requires i < |docs| && j < |docs[i]|
    ensures Offset(docs, i) + j < |Concat(docs)|
    ensures Concat(docs)[Offset(docs, i) + j] == docs[i][j]
  {
    ConcatUpToIndex(docs, |docs|, i, j);
  }

  /** Document `i` is the slice of the first `n` documents' pages between its
      offset and the next, once any later document has been appended. */
  lemma {:induction false} ConcatUpToSlice<P>(docs: seq<seq<P>>, n: nat, i: nat)
    requires i < n <= |docs|
    ensures Offset(docs, i + 1) <= |ConcatUpTo(docs, n)|
    ensures ConcatUpTo(docs, n)[Offset(docs, i)..Offset(docs, i + 1)] == docs[i]
    decreases n
  {
    ConcatUpToLength(docs, n - 1);
    if i == n - 1 {
      assert ConcatUpTo(docs, n) == ConcatUpTo(docs, i) + docs[i];
    } else {
      ConcatUpToSlice(docs, n - 1, i);
    }
  }

  /** The pages document `i` contributes are exactly document `i`: the
      concatenation loses, reorders and duplicates nothing. */
  lemma ConcatSlice<P>(docs: seq<seq<P>>, i: nat)
    requires i < |docs|
    ensures Offset(docs, i) + |docs[i]| <= |Concat(docs)|
    ensures Concat(docs)[Offset(docs, i)..Offset(docs, i) + |docs[i]|] == docs[i]
  {
    ConcatUpToSlice(docs, |docs|, i);
  }

  /** The first `n` documents of two runs that agree on them concatenate
      alike. */
  lemma {:induction false} ConcatUpToAgree<P>(x: seq<seq<P>>, y: seq<seq<P>>, n: nat)
    requires n <= |x| && n <= |y|
    requires forall k :: 0 <= k < n ==> x[k] == y[k]
    ensures ConcatUpTo(x, n) == ConcatUpTo(y, n)
    decreases n
  {
    if n > 0 {
      ConcatUpToAgree(x, y, n - 1);
    }
  }

  /** Appending the first `m` documents of `b` after all of `a` appends
      their pages after those of `a`. */
  lemma {:induction false} ConcatUpToAppend<P>(a: seq<seq<P>>, b: seq<seq<P>>, m: nat)
    requires m <= |b|
    ensures ConcatUpTo(a + b, |a| + m) == Concat(a) + ConcatUpTo(b, m)
    decreases m
  {
    if m == 0 {
      ConcatUpToAgree(a + b, a, |a|);
    } else {
      ConcatUpToAppend(a, b, m - 1);
      assert (a + b)[|a| + m - 1] == b[m - 1];
    }
  }

  /** Concatenating two runs of documents one after the other is
      concatenating their concatenations. */
  lemma ConcatAppend<P>(a: seq<seq<P>>, b: seq<seq<P>>)
    ensures Concat(a + b) == Concat(a) + Concat(b)
  {
    ConcatUpToAppend(a, b, |b|);
  }

  /** Taking one more element of a sequence appends it. */
  lemma PrefixStep<T>(s: seq<T>, i: nat)
    requires i < |s|
    ensures s[..i + 1] == s[..i] + [s[i]]
  {
  }
}
