/**
 Whitespace tokenisation as performed by Python's `str.split()` (no
 separator argument) and its partner `' '.join(...)`.

 `str.split()` skips runs of whitespace and returns the maximal runs of
 non-whitespace characters, so every token is non-empty and holds no
 whitespace. Joining such tokens with single spaces and splitting again
 gives the tokens back, and a string is the single-space join of its own
 tokens exactly when it is single-spaced.
 */
module Text {

  /** Python's notion of a whitespace character (the characters for which
      `str.isspace()` holds and on which `str.split()` breaks). */
  predicate IsSpace(c: char) {
    var k := c as int;
    || (0x09 <= k <= 0x0D)
    || (0x1C <= k <= 0x20)
    || k == 0x85
    || k == 0xA0
    || k == 0x1680
    || (0x2000 <= k <= 0x200A)
    || k == 0x2028
    || k == 0x2029
    || k == 0x202F
    || k == 0x205F
    || k == 0x3000
  }

  /** A token as `str.split()` produces it: non-empty, free of whitespace. */
  predicate IsWord(w: string) {
    |w| > 0 && forall i :: 0 <= i < |w| ==> !IsSpace(w[i])
  }

  /** Length of the longest whitespace-free prefix of `s`. */
  function WordLen(s: string): (n: nat)
    ensures n <= |s|
    ensures forall i :: 0 <= i < n ==> !IsSpace(s[i])
    ensures n == |s| || IsSpace(s[n])
    decreases |s|
  {
    if |s| == 0 || IsSpace(s[0]) then 0 else 1 + WordLen(s[1..])
  }

  /** `s.split()`: the maximal whitespace-free runs of `s`, in order. */
  function Split(s: string): (ts: seq<string>)
    ensures AllWords(ts)
    ensures |s| == 0 ==> ts == []
    decreases |s|
  {
    if |s| == 0 then []
    else if IsSpace(s[0]) then Split(s[1..])
    else
      var n := WordLen(s);
      [s[..n]] + Split(s[n..])
  }

  /** `' '.join(ts)`. */
  function Join(ts: seq<string>): string
  {
    if |ts| == 0 then ""
    else if |ts| == 1 then ts[0]
    else ts[0] + " " + Join(ts[1..])
  }

  predicate AllWords(ts: seq<string>) {
    forall i :: 0 <= i < |ts| ==> IsWord(ts[i])
  }

  /** The normal form produced by joining tokens with single spaces: the
      only whitespace is the plain space, there is none at either end, and
      no two spaces are adjacent. */
  predicate SingleSpaced(t: string) {
    && (forall i :: 0 <= i < |t| && IsSpace(t[i]) ==> t[i] == ' ')
    && (|t| > 0 ==> t[0] != ' ' && t[|t| - 1] != ' ')
    && (forall i :: 0 < i < |t| && t[i - 1] == ' ' ==> t[i] != ' ')
  }

  /** A word followed by nothing or by whitespace is split off as one token. */
  lemma SplitWordThen(w: string, rest: string)
    requires IsWord(w)
    requires |rest| == 0 || IsSpace(rest[0])
    ensures Split(w + rest) == [w] + Split(rest)
  {
    var s := w + rest;
    assert s[0] == w[0];
    var n := WordLen(s);
    assert forall i :: 0 <= i < |w| ==> s[i] == w[i];
    if |rest| > 0 {
      assert s[|w|] == rest[0];
    }
    assert n == |w|;
    assert s[..n] == w;
    assert s[n..] == rest;
  }

  /** Leading whitespace is skipped. */
  lemma SplitSpaceThen(c: char, rest: string)
    requires IsSpace(c)
    ensures Split([c] + rest) == Split(rest)
  {
  }

  /** Joining words never yields the empty string, and the join starts with
      the first word's first character. */
  lemma JoinNonEmpty(ts: seq<string>)
    requires AllWords(ts) && |ts| > 0
    ensures |Join(ts)| > 0 && Join(ts)[0] == ts[0][0]
  {
  }

  /** `s` with every whitespace character removed. */
  function NonSpace(s: string): string
    decreases |s|
  {
    if |s| == 0 then ""
    else if IsSpace(s[0]) then NonSpace(s[1..])
    else [s[0]] + NonSpace(s[1..])
  }

  /** The tokens glued together with no separator (`''.join(ts)`). */
  function Concat(ts: seq<string>): string
  {
    if |ts| == 0 then "" else ts[0] + Concat(ts[1..])
  }

  predicate AllSpace(s: string) {
    forall i :: 0 <= i < |s| ==> IsSpace(s[i])
  }

  /** Removing whitespace distributes over concatenation. */
  lemma {:induction false} NonSpaceAppend(a: string, b: string)
    ensures NonSpace(a + b) == NonSpace(a) + NonSpace(b)
    decreases |a|
  {
    if |a| > 0 {
      NonSpaceAppend(a[1..], b);
      assert (a + b)[1..] == a[1..] + b;
    } else {
      assert a + b == b;
    }
  }

  /** A word has no whitespace to remove. */
  lemma {:induction false} NonSpaceWord(w: string)
    requires forall i :: 0 <= i < |w| ==> !IsSpace(w[i])
    ensures NonSpace(w) == w
    decreases |w|
  {
    if |w| > 0 {
      NonSpaceWord(w[1..]);
      assert w == [w[0]] + w[1..];
    }
  }

  /** No character is lost or invented: the tokens, glued together, are
      exactly the non-whitespace characters of `s`, in order. */
  lemma {:induction false} SplitConcat(s: string)
    ensures Concat(Split(s)) == NonSpace(s)
    decreases |s|
  {
    if |s| > 0 {
      if IsSpace(s[0]) {
        SplitConcat(s[1..]);
      } else {
        var n := WordLen(s);
        SplitConcat(s[n..]);
        assert s == s[..n] + s[n..];
        NonSpaceAppend(s[..n], s[n..]);
        NonSpaceWord(s[..n]);
        assert Concat(Split(s)) == s[..n] + Concat(Split(s[n..]));
      }
    }
  }

  /** There are no tokens exactly when the text is all whitespace. */
  lemma {:induction false} SplitEmptyIff(s: string)
    ensures Split(s) == [] <==> AllSpace(s)
    decreases |s|
  {
    if |s| > 0 {
      SplitEmptyIff(s[1..]);
      if IsSpace(s[0]) {
        assert AllSpace(s) <==> AllSpace(s[1..]);
      }
    }
  }

  /** The step of `SplitAtSpace` when `a` starts with whitespace. */
  lemma SplitAtSpaceSkip(a: string, c: char, b: string)
    requires |a| > 0 && IsSpace(a[0])
    requires Split(a[1..] + [c] + b) == Split(a[1..]) + Split(b)
    ensures Split(a + [c] + b) == Split(a) + Split(b)
  {
    assert (a + [c] + b)[1..] == a[1..] + [c] + b;
  }

  /** The step of `SplitAtSpace` when the text before the cut starts with
      the word `w`: `r` is the rest of that text and `t` the rest of the
      whole, each empty or starting with whitespace. */
  lemma SplitAtSpaceWord(w: string, r: string, t: string, b: string)
    requires IsWord(w)
    requires |r| == 0 || IsSpace(r[0])
    requires |t| > 0 && IsSpace(t[0])
    requires Split(t) == Split(r) + Split(b)
    ensures Split(w + t) == Split(w + r) + Split(b)
  {
    SplitWordThen(w, t);
    SplitWordThen(w, r);
    AppendAssoc([w], Split(r), Split(b));
  }

  lemma AppendAssoc<T>(x: seq<T>, y: seq<T>, z: seq<T>)
    ensures x + (y + z) == (x + y) + z
  {
  }

  /** Splitting at a whitespace character splits the tokens there: no token
      spans whitespace. Together with `SplitWordThen` (a lone word is one
      token) and `SplitEmptyIff`, this determines `Split` on every string,
      so the tokens are the maximal whitespace-free runs. */
  lemma {:induction false} SplitAtSpace(a: string, c: char, b: string)
    requires IsSpace(c)
    ensures Split(a + [c] + b) == Split(a) + Split(b)
    decreases |a|
  {
    if |a| == 0 {
      AppendEmpty(a, [c]);
      SplitSpaceThen(c, b);
    } else if IsSpace(a[0]) {
      SplitAtSpace(a[1..], c, b);
      SplitAtSpaceSkip(a, c, b);
    } else {
      var n := WordLen(a);
      var w, r := a[..n], a[n..];
      SplitAtSpace(r, c, b);
      assert (r + [c] + b)[0] == if |r| == 0 then c else r[0];
      SplitAtSpaceWord(w, r, r + [c] + b, b);
      SliceSplit(a, n);
      AppendAssoc(w, r, [c]);
      AppendAssoc(w, r + [c], b);
    }
  }

  lemma AppendEmpty<T>(x: seq<T>, y: seq<T>)
    requires |x| == 0
    ensures x + y == y
  {
  }

  lemma SliceCons<T>(s: seq<T>, n: nat)
    requires n < |s|
    ensures s[n..] == [s[n]] + s[n + 1..]
  {
  }

  lemma SliceSplit<T>(s: seq<T>, n: nat)
    requires n <= |s|
    ensures s == s[..n] + s[n..]
  {
  }

  /** Round trip: splitting the single-space join of words returns the words. */
  lemma {:induction false} SplitJoin(ts: seq<string>)
    requires AllWords(ts)
    ensures Split(Join(ts)) == ts
    decreases |ts|
  {
    if |ts| == 0 {
    } else if |ts| == 1 {
      SplitWordThen(ts[0], "");
      assert ts[0] + "" == ts[0];
    } else {
      var j := Join(ts[1..]);
      SplitJoin(ts[1..]);
      assert " " + j == [' '] + j;
      SplitSpaceThen(' ', j);
      SplitWordThen(ts[0], " " + j);
      assert ts[0] + " " + j == ts[0] + (" " + j);
      assert [ts[0]] + ts[1..] == ts;
    }
  }

  /** The single-space join of words is in normal form. */
  lemma {:induction false} JoinSingleSpaced(ts: seq<string>)
    requires AllWords(ts)
    ensures SingleSpaced(Join(ts))
    decreases |ts|
  {
    if |ts| <= 1 {
    } else {
      var w := ts[0];
      var j := Join(ts[1..]);
      JoinSingleSpaced(ts[1..]);
      JoinNonEmpty(ts[1..]);
      var t := w + " " + j;
      assert Join(ts) == t;
      forall i | 0 <= i < |t| && IsSpace(t[i])
        ensures t[i] == ' '
      {
        if i > |w| {
          assert t[i] == j[i - |w| - 1];
        }
      }
      assert t[0] == w[0];
      assert t[|t| - 1] == j[|j| - 1];
      forall i | 0 < i < |t| && t[i - 1] == ' '
        ensures t[i] != ' '
      {
        if i - 1 == |w| {
          assert t[i] == j[0];
        } else {
          assert t[i - 1] == j[i - 1 - |w| - 1];
          assert t[i] == j[i - |w| - 1];
        }
      }
    }
  }

  /** In a non-empty single-spaced string the first token either runs to
      the end or is followed by exactly one space and a non-empty
      single-spaced remainder. */
  lemma SingleSpacedStep(t: string)
    requires SingleSpaced(t) && |t| > 0
    ensures !IsSpace(t[0])
    ensures var n := WordLen(t);
      n == |t| || (n < |t| - 1 && t[n] == ' ' && !IsSpace(t[n + 1]) && SingleSpaced(t[n + 1..]))
  {
  }

  /** A single-spaced string is the single-space join of its own tokens. */
  lemma {:induction false} SingleSpacedIsJoin(t: string)
    requires SingleSpaced(t)
    ensures Join(Split(t)) == t
    decreases |t|
  {
    if |t| > 0 {
      SingleSpacedStep(t);
      var n := WordLen(t);
      var w := t[..n];
      assert Split(t) == [w] + Split(t[n..]);
      if n == |t| {
        assert t[n..] == "";
      } else {
        var u := t[n + 1..];
        SingleSpacedIsJoin(u);
        SliceCons(t, n);
        assert Split(t) == [w] + Split(u) by {
          SplitSpaceThen(t[n], u);
        }
        assert Join(Split(t)) == w + " " + u by {
          assert |Split(u)| > 0;
          assert ([w] + Split(u))[1..] == Split(u);
        }
        assert t == w + " " + u by {
          SliceSplit(t, n);
          AppendAssoc(w, [t[n]], u);
        }
      }
    }
  }

  /** Normal form, both directions: a string equals the single-space join of
      its tokens exactly when it is single-spaced. */
  lemma NormalFormIff(t: string)
    ensures SingleSpaced(t) <==> Join(Split(t)) == t
  {
    if SingleSpaced(t) {
      SingleSpacedIsJoin(t);
    }
    if Join(Split(t)) == t {
      JoinSingleSpaced(Split(t));
    }
  }
}
