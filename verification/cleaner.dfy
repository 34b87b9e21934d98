/**
 The feedback cleaner: every non-null cell is split on whitespace, the
 tokens that are alphanumeric (or consist of whitespace only) are kept, and
 the kept tokens are rejoined with single spaces. Null cells are skipped.

 Python's `str.isalnum()` is driven by the Unicode character database; the
 model takes its per-character half as the parameter `isAlnum`, so every
 property below holds whatever that classification is.
 */
module Cleaner {
  import opened Text

  /** A table cell: either null (pandas' missing value) or a string. */
  datatype Option<T> = None | Some(value: T)

  /** `w.isalnum()`: non-empty and every character alphanumeric. */
  predicate IsAlnumWord(w: string, isAlnum: char -> bool) {
    |w| > 0 && forall i :: 0 <= i < |w| ==> isAlnum(w[i])
  }

  /** `w.isspace()`: non-empty and every character whitespace. */
  predicate IsSpaceWord(w: string) {
    |w| > 0 && AllSpace(w)
  }

  /** The token filter exactly as written: `word.isalnum() or word.isspace()`. */
  predicate Kept(w: string, isAlnum: char -> bool) {
    IsAlnumWord(w, isAlnum) || IsSpaceWord(w)
  }

  /** The tokens of `ts` that pass the filter, in their original order. */
  function Keep(ts: seq<string>, isAlnum: char -> bool): seq<string>
  {
    if |ts| == 0 then []
    else if Kept(ts[0], isAlnum) then [ts[0]] + Keep(ts[1..], isAlnum)
    else Keep(ts[1..], isAlnum)
  }

  /** The cleaned form of one cell. */
  function CleanText(s: string, isAlnum: char -> bool): string
  {
    Join(Keep(Split(s), isAlnum))
  }

  /** The non-null cells' strings, in input order (the reference definition
      of "skip nulls"). */
  function Present(cells: seq<Option<string>>): seq<string>
  {
    if |cells| == 0 then []
    else if cells[0].Some? then [cells[0].value] + Present(cells[1..])
    else Present(cells[1..])
  }

  /** Number of null cells. */
  function NullCount(cells: seq<Option<string>>): nat
  {
    if |cells| == 0 then 0
    else (if cells[0].None? then 1 else 0) + NullCount(cells[1..])
  }

  /** `xs` can be obtained from `ys` by deleting elements. */
  predicate IsSubsequence<T(==)>(xs: seq<T>, ys: seq<T>)
    decreases |ys|
  {
    || |xs| == 0
    || (&& |ys| > 0
        && (|| IsSubsequence(xs, ys[1..])
            || (xs[0] == ys[0] && IsSubsequence(xs[1..], ys[1..]))))
  }

  /** `clean_feedback`: one cleaned string per non-null cell, in order. */
  method CleanFeedback(cells: seq<Option<string>>, isAlnum: char -> bool)
    returns (cleaned: seq<string>)
    ensures |cleaned| == |Present(cells)|
    ensures forall i :: 0 <= i < |cleaned| ==>
      cleaned[i] == CleanText(Present(cells)[i], isAlnum)
  {
    cleaned := [];
    var k := 0;
    while k < |cells|
      invariant 0 <= k <= |cells|
      invariant |cleaned| == |Present(cells[..k])|
      invariant forall i :: 0 <= i < |cleaned| ==>
        cleaned[i] == CleanText(Present(cells[..k])[i], isAlnum)
    {
      PresentAppend(cells[..k], [cells[k]]);
      assert cells[..k + 1] == cells[..k] + [cells[k]];
      if cells[k].Some? {
        cleaned := cleaned + [CleanText(cells[k].value, isAlnum)];
      }
      k := k + 1;
    }
    assert cells[..k] == cells;
  }

  /** Skipping nulls distributes over concatenation: together with its value
      on one-cell lists this pins down order preservation. */
  lemma {:induction false} PresentAppend(a: seq<Option<string>>, b: seq<Option<string>>)
    ensures Present(a + b) == Present(a) + Present(b)
    decreases |a|
  {
    if |a| == 0 {
      assert a + b == b;
    } else {
      PresentAppend(a[1..], b);
      assert (a + b)[1..] == a[1..] + b;
    }
  }

  /** The strings of `xs` as non-null cells. */
  function Wrap(xs: seq<string>): seq<Option<string>>
  {
    seq(|xs|, i requires 0 <= i < |xs| => Some(xs[i]))
  }

  /** Cleaning drops exactly the null cells: the non-null cells, read as
      cells again, are what remains of the input after deleting elements,
      and what was deleted is exactly the nulls (the counts add up and a
      string survives exactly when some cell holds it). */
  lemma {:induction false} PresentDropsNulls(cells: seq<Option<string>>)
    ensures IsSubsequence(Wrap(Present(cells)), cells)
    ensures |Present(cells)| + NullCount(cells) == |cells|
    ensures forall x :: x in Present(cells) <==> Some(x) in cells
    decreases |cells|
  {
    if |cells| > 0 {
      PresentDropsNulls(cells[1..]);
      assert cells == [cells[0]] + cells[1..];
      if cells[0].Some? {
        var p := Present(cells);
        assert p == [cells[0].value] + Present(cells[1..]);
        assert Wrap(p)[1..] == Wrap(Present(cells[1..]));
      }
    }
  }
  /** The filter keeps whitespace-free tokens whitespace-free, and among
      such tokens it keeps exactly the alphanumeric ones: the `isspace()`
      alternative can never fire on a token of `str.split()`. */
  lemma {:induction false} KeepAlnumWords(ts: seq<string>, isAlnum: char -> bool)
    requires AllWords(ts)
    ensures AllWords(Keep(ts, isAlnum))
    ensures forall i :: 0 <= i < |Keep(ts, isAlnum)| ==> IsAlnumWord(Keep(ts, isAlnum)[i], isAlnum)
    ensures forall i :: 0 <= i < |ts| ==> (Kept(ts[i], isAlnum) <==> IsAlnumWord(ts[i], isAlnum))
    decreases |ts|
  {
    if |ts| > 0 {
      KeepAlnumWords(ts[1..], isAlnum);
      assert IsWord(ts[0]);
      assert !IsSpace(ts[0][0]);
    }
  }

  /** The kept tokens are the input tokens with some deleted, in order. */
  lemma {:induction false} KeepIsSubsequence(ts: seq<string>, isAlnum: char -> bool)
    ensures IsSubsequence(Keep(ts, isAlnum), ts)
    decreases |ts|
  {
    if |ts| > 0 {
      KeepIsSubsequence(ts[1..], isAlnum);
      if Kept(ts[0], isAlnum) {
        assert Keep(ts, isAlnum)[1..] == Keep(ts[1..], isAlnum);
      }
    }
  }

  /** Nothing that passes the filter is lost and nothing else survives: each
      token occurs in the output as often as in the input if it passes the
      filter, and not at all otherwise. */
  lemma {:induction false} KeepCounts(ts: seq<string>, isAlnum: char -> bool)
    ensures forall w :: multiset(Keep(ts, isAlnum))[w] == if Kept(w, isAlnum) then multiset(ts)[w] else 0
    decreases |ts|
  {
    if |ts| > 0 {
      KeepCounts(ts[1..], isAlnum);
      assert ts == [ts[0]] + ts[1..];
    }
  }

  /** Filtering twice is filtering once. */
  lemma {:induction false} KeepIdempotent(ts: seq<string>, isAlnum: char -> bool)
    ensures Keep(Keep(ts, isAlnum), isAlnum) == Keep(ts, isAlnum)
    decreases |ts|
  {
    if |ts| > 0 {
      KeepIdempotent(ts[1..], isAlnum);
      if Kept(ts[0], isAlnum) {
        assert Keep(ts, isAlnum)[1..] == Keep(ts[1..], isAlnum);
      }
    }
  }

  /** Splitting a cleaned cell recovers the filtered tokens of the cell. */
  lemma SplitClean(s: string, isAlnum: char -> bool)
    ensures Split(CleanText(s, isAlnum)) == Keep(Split(s), isAlnum)
  {
    KeepAlnumWords(Split(s), isAlnum);
    SplitJoin(Keep(Split(s), isAlnum));
  }

  /** The tokens of a cleaned cell are exactly the alphanumeric tokens of
      the original cell, in order: every one is a non-empty alphanumeric
      word, they form a subsequence of the original tokens, and each
      alphanumeric token keeps its number of occurrences while every other
      token is gone. */
  lemma CleanTokens(s: string, isAlnum: char -> bool)
    ensures forall i :: 0 <= i < |Split(CleanText(s, isAlnum))| ==> IsAlnumWord(Split(CleanText(s, isAlnum))[i], isAlnum)
    ensures IsSubsequence(Split(CleanText(s, isAlnum)), Split(s))
    ensures forall w :: IsAlnumWord(w, isAlnum) ==> multiset(Split(CleanText(s, isAlnum)))[w] == multiset(Split(s))[w]
    ensures forall w :: !IsAlnumWord(w, isAlnum) ==> w !in Split(CleanText(s, isAlnum))
  {
    var ts := Split(s);
    SplitClean(s, isAlnum);
    KeepAlnumWords(ts, isAlnum);
    KeepIsSubsequence(ts, isAlnum);
    KeepCounts(ts, isAlnum);
  }

  /** A cleaned cell is in single-space normal form: no leading, trailing or
      doubled space, no other whitespace, and it is the single-space join of
      its own tokens. */
  lemma CleanNormalForm(s: string, isAlnum: char -> bool)
    ensures SingleSpaced(CleanText(s, isAlnum))
    ensures Join(Split(CleanText(s, isAlnum))) == CleanText(s, isAlnum)
  {
    KeepAlnumWords(Split(s), isAlnum);
    JoinSingleSpaced(Keep(Split(s), isAlnum));
    NormalFormIff(CleanText(s, isAlnum));
  }

  /** Cleaning an already cleaned cell changes nothing. */
  lemma CleanIdempotent(s: string, isAlnum: char -> bool)
    ensures CleanText(CleanText(s, isAlnum), isAlnum) == CleanText(s, isAlnum)
  {
    SplitClean(s, isAlnum);
    KeepIdempotent(Split(s), isAlnum);
  }
}
