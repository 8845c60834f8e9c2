/**
 * Tokenising, stop-word removal and re-joining in `clean_text`
 * (app.py:25-27): `text.split()`, `[w for w in tokens if w not in stop_words]`
 * and `' '.join(tokens)`.
 *
 * By the time `split()` runs, the character filter has removed every
 * whitespace character except the plain space, so splitting on runs of
 * spaces and dropping empty pieces is exactly what `str.split()` does here.
 */
module Tokens {

  /** A token: non-empty and free of spaces. */
  predicate IsWord(w: string) {
    |w| > 0 && forall i :: 0 <= i < |w| ==> w[i] != ' '
  }

  predicate AllWords(ws: seq<string>) {
    forall w :: w in ws ==> IsWord(w)
  }

  /** Every character of `s` satisfies `p`. */
  predicate Within(s: string, p: char -> bool) {
    forall i :: 0 <= i < |s| ==> p(s[i])
  }

  /** Every character of every token satisfies `p`. */
  predicate AllWithin(ws: seq<string>, p: char -> bool) {
    forall w :: w in ws ==> Within(w, p)
  }

  /** No leading, trailing or doubled spaces. */
  predicate WellSpaced(s: string) {
    && (|s| > 0 ==> s[0] != ' ' && s[|s| - 1] != ' ')
    && forall i :: 0 <= i < |s| - 1 ==> s[i] == ' ' ==> s[i + 1] != ' '
  }

  predicate AllSpaces(s: string) {
    forall i :: 0 <= i < |s| ==> s[i] == ' '
  }

  /** Length of the longest prefix of `s` without a space. */
  function WordLength(s: string): (n: nat)
    ensures n <= |s|
    ensures forall i :: 0 <= i < n ==> s[i] != ' '
    ensures n == |s| || s[n] == ' '
  {
    if s == [] || s[0] == ' ' then 0 else 1 + WordLength(s[1..])
  }

  /** `s.split()` on text whose only whitespace is the space. */
  function Split(s: string): (ws: seq<string>)
    ensures AllWords(ws)
    decreases |s|
  {
    if s == [] then []
    else if s[0] == ' ' then Split(s[1..])
    else [s[..WordLength(s)]] + Split(s[WordLength(s)..])
  }

  /** `' '.join(ws)`. */
  function Join(ws: seq<string>): (s: string)
    ensures AllWords(ws) ==> WellSpaced(s)
    ensures AllWords(ws) ==> (s == [] <==> ws == [])
  {
    if ws == [] then ""
    else if |ws| == 1 then assert ws[0] in ws; ws[0]
    else assert ws[0] in ws && forall w :: w in ws[1..] ==> w in ws; ws[0] + " " + Join(ws[1..])
  }

  /** The list comprehension that drops stop words, keeping the order of the rest. */
  function RemoveStopWords(ws: seq<string>, stop: set<string>): (r: seq<string>)
    ensures |r| <= |ws|
    ensures forall w :: w in r <==> w in ws && w !in stop
    ensures forall w :: w !in stop ==> multiset(r)[w] == multiset(ws)[w]
  {
    if ws == [] then []
    else
      assert multiset(ws) == multiset([ws[0]]) + multiset(ws[1..]) by {
        assert ws == [ws[0]] + ws[1..];
      }
      if ws[0] in stop then RemoveStopWords(ws[1..], stop)
      else [ws[0]] + RemoveStopWords(ws[1..], stop)
  }

  /** Stop-word removal works token by token: it distributes over concatenation. */
  lemma {:induction false} RemoveStopWordsConcat(xs: seq<string>, ys: seq<string>, stop: set<string>)
    ensures RemoveStopWords(xs + ys, stop) == RemoveStopWords(xs, stop) + RemoveStopWords(ys, stop)
  {
    if xs == [] {
      assert xs + ys == ys;
    } else {
      assert (xs + ys)[0] == xs[0];
      assert (xs + ys)[1..] == xs[1..] + ys;
      RemoveStopWordsConcat(xs[1..], ys, stop);
      var r, q := RemoveStopWords(xs[1..], stop), RemoveStopWords(ys, stop);
      assert [xs[0]] + (r + q) == ([xs[0]] + r) + q;
    }
  }

  /** `xs` is `ys` with some elements left out, the rest in their original order. */
  predicate IsSubsequence(xs: seq<string>, ys: seq<string>)
    decreases |ys|
  {
    if xs == [] then true
    else if ys == [] then false
    else if xs[0] == ys[0] then IsSubsequence(xs[1..], ys[1..])
    else IsSubsequence(xs, ys[1..])
  }

  /** Stop-word removal keeps the surviving tokens in their original relative order. */
  lemma {:induction false} RemoveStopWordsKeepsOrder(ws: seq<string>, stop: set<string>)
    ensures IsSubsequence(RemoveStopWords(ws, stop), ws)
  {
    if ws != [] {
      RemoveStopWordsKeepsOrder(ws[1..], stop);
      var rest := RemoveStopWords(ws[1..], stop);
      if ws[0] !in stop {
        assert ([ws[0]] + rest)[1..] == rest;
      }
    }
  }

  /** Splitting text built by joining tokens gives the tokens back. */
  lemma {:induction false} SplitJoin(ws: seq<string>)
    requires AllWords(ws)
    ensures Split(Join(ws)) == ws
  {
    if ws == [] {
    } else {
      var w := ws[0];
      assert w in ws;
      WordOnly(w);
      if |ws| == 1 {
        assert w[..|w|] == w && w[|w|..] == [];
      } else {
        assert forall v :: v in ws[1..] ==> v in ws;
        assert Join(ws) == w + " " + Join(ws[1..]);
        SplitJoin(ws[1..]);
        SplitWordSpace(w, Join(ws[1..]));
      }
    }
  }

  /** A token followed by a space splits off as the first token. */
  lemma SplitWordSpace(w: string, rest: string)
    requires IsWord(w)
    ensures Split(w + " " + rest) == [w] + Split(rest)
  {
    var s := w + " " + rest;
    assert s[0] == w[0];
    assert s == w + (" " + rest);
    WordThenSpace(w, " " + rest);
    assert s[..|w|] == w && s[|w|..] == " " + rest;
    assert (" " + rest)[1..] == rest;
  }

  /** A single token splits into itself. */
  lemma SingleWord(w: string)
    requires IsWord(w)
    ensures Split(w) == [w]
  {
    WordOnly(w);
    assert w[..|w|] == w && w[|w|..] == [];
  }

  /** A token is one word long. */
  lemma WordOnly(w: string)
    requires IsWord(w)
    ensures WordLength(w) == |w|
  {
  }

  /** The word at the start of `w + t` is `w` when `t` starts with a space. */
  lemma {:induction false} WordThenSpace(w: string, t: string)
    requires forall i :: 0 <= i < |w| ==> w[i] != ' '
    requires t != [] && t[0] == ' '
    ensures WordLength(w + t) == |w|
  {
    if w == [] {
      assert w + t == t;
    } else {
      assert (w + t)[1..] == w[1..] + t;
      WordThenSpace(w[1..], t);
    }
  }

  /** Joining the tokens of well-spaced text gives the text back. */
  lemma {:induction false} JoinSplit(s: string)
    requires WellSpaced(s)
    ensures Join(Split(s)) == s
    decreases |s|
  {
    if s != [] {
      var n := WordLength(s);
      var w := s[..n];
      if n == |s| {
        assert w == s;
        SingleWord(w);
      } else {
        var t := s[n + 1..];
        FirstWord(s);
        WellSpacedSuffix(s, n + 1);
        SplitWordSpace(w, t);
        JoinSplit(t);
        JoinCons(w, Split(t));
      }
    }
  }

  /** Well-spaced text with a space in it is its first token, a space, and the rest. */
  lemma FirstWord(s: string)
    requires WellSpaced(s) && s != [] && WordLength(s) < |s|
    ensures IsWord(s[..WordLength(s)])
    ensures s == s[..WordLength(s)] + " " + s[WordLength(s) + 1..]
  {
    var n := WordLength(s);
    assert s[n] == ' ';
    CutAt(s, n);
  }

  /** Text is what comes before position `n`, the character there, and what follows. */
  lemma CutAt(s: string, n: nat)
    requires n < |s|
    ensures s == s[..n] + [s[n]] + s[n + 1..]
  {
    assert s == s[..n] + s[n..];
    assert s[n..] == [s[n]] + s[n + 1..];
  }

  /** What follows a space in well-spaced text is non-empty and well spaced. */
  lemma WellSpacedSuffix(s: string, m: nat)
    requires WellSpaced(s) && 0 < m <= |s| && s[m - 1] == ' '
    ensures m < |s| && WellSpaced(s[m..])
  {
    var t := s[m..];
    forall i | 0 <= i < |t| - 1 && t[i] == ' ' ensures t[i + 1] != ' ' {
      assert t[i] == s[m + i] && t[i + 1] == s[m + i + 1];
    }
    assert t[0] == s[m - 1 + 1];
  }

  /** Joining a token in front of a non-empty list puts a single space after it. */
  lemma JoinCons(w: string, ws: seq<string>)
    requires ws != []
    ensures Join([w] + ws) == w + " " + Join(ws)
  {
    assert ([w] + ws)[1..] == ws;
  }

  /** A space separates tokens: splitting distributes over it. */
  lemma {:induction false} SplitAtSpace(a: string, b: string)
    ensures Split(a + " " + b) == Split(a) + Split(b)
    decreases |a|
  {
    var s := a + " " + b;
    if a == [] {
      assert s[1..] == b;
    } else if a[0] == ' ' {
      assert s[1..] == a[1..] + " " + b;
      SplitAtSpace(a[1..], b);
    } else {
      var n := WordLength(a);
      WordPrefix(a, " " + b);
      assert s == a + (" " + b);
      assert s[..n] == a[..n];
      if n == |a| {
        assert s[n..] == " " + b;
        assert (" " + b)[1..] == b;
        assert a[n..] == [];
      } else {
        assert s[n..] == a[n..] + " " + b;
        SplitAtSpace(a[n..], b);
      }
    }
  }

  /** The first word of `a + t` is the first word of `a`, when `t` is empty or starts with a space. */
  lemma {:induction false} WordPrefix(a: string, t: string)
    requires t == [] || t[0] == ' '
    ensures WordLength(a + t) == WordLength(a)
  {
    if a == [] {
      assert a + t == t;
    } else if a[0] != ' ' {
      assert (a + t)[1..] == a[1..] + t;
      WordPrefix(a[1..], t);
    }
  }

  /** `split()` yields no token exactly when the text is nothing but spaces. */
  lemma {:induction false} SplitEmpty(s: string)
    ensures Split(s) == [] <==> AllSpaces(s)
    decreases |s|
  {
    if s != [] && s[0] == ' ' {
      SplitEmpty(s[1..]);
      assert forall i :: 1 <= i < |s| ==> s[i] == s[1..][i - 1];
    }
  }

  /** Joining the tokens of any text never makes it longer. */
  lemma {:induction false} JoinSplitShorter(s: string)
    ensures |Join(Split(s))| <= |s|
    decreases |s|
  {
    if s != [] {
      if s[0] == ' ' {
        JoinSplitShorter(s[1..]);
      } else {
        var n := WordLength(s);
        var t := s[n..];
        JoinSplitShorter(t);
        assert Split(s) == [s[..n]] + Split(t);
        if Split(t) != [] {
          // t is not empty and starts with a space, which Split skips
          assert t != [] && t[0] == ' ';
          assert Split(t) == Split(t[1..]);
          JoinSplitShorter(t[1..]);
        }
      }
    }
  }

  /** Dropping tokens never makes the joined text longer. */
  lemma {:induction false} RemoveStopWordsShorter(ws: seq<string>, stop: set<string>)
    ensures |Join(RemoveStopWords(ws, stop))| <= |Join(ws)|
  {
    if ws != [] {
      RemoveStopWordsShorter(ws[1..], stop);
      var rest := RemoveStopWords(ws[1..], stop);
      if ws[0] !in stop && rest != [] {
        assert ws[1..] != [];
        assert Join([ws[0]] + rest) == ws[0] + " " + Join(rest) by {
          assert ([ws[0]] + rest)[0] == ws[0] && ([ws[0]] + rest)[1..] == rest;
        }
      }
    }
  }

  /** Splitting introduces no character that was not in the text. */
  lemma {:induction false} SplitWithin(s: string, p: char -> bool)
    requires Within(s, p)
    ensures AllWithin(Split(s), p)
    decreases |s|
  {
    if s != [] {
      var n := if s[0] == ' ' then 1 else WordLength(s);
      assert Within(s[n..], p) by {
        assert forall i :: 0 <= i < |s[n..]| ==> s[n..][i] == s[n + i];
      }
      SplitWithin(s[n..], p);
    }
  }

  /** Joining adds nothing but spaces. */
  lemma {:induction false} JoinWithin(ws: seq<string>, p: char -> bool)
    requires AllWithin(ws, p) && p(' ')
    ensures Within(Join(ws), p)
  {
    if |ws| > 1 {
      assert ws[0] in ws;
      assert forall w :: w in ws[1..] ==> w in ws;
      JoinWithin(ws[1..], p);
      var j := Join(ws[1..]);
      var s := ws[0] + " " + j;
      assert forall i :: 0 <= i < |s| ==> s[i] == (if i < |ws[0]| then ws[0][i] else if i == |ws[0]| then ' ' else j[i - |ws[0]| - 1]);
    } else if |ws| == 1 {
      assert ws[0] in ws;
    }
  }
}
