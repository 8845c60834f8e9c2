/**
 * The URL-removal step of `clean_text` (app.py:22): `re.sub(r'http\S+', '', text)`.
 *
 * Python's `re.sub` scans left to right; at each position it tries the
 * pattern, and on a match deletes it and resumes after it. `\S+` is greedy
 * and nothing follows it in the pattern, so a match that starts at a
 * position always runs to the next whitespace character or the end of the
 * text. `StripUrls` is that scanner.
 */
module Urls {
  import opened Chars

  /** Length of the longest prefix of `s` free of whitespace. */
  function RunLength(s: string): (n: nat)
    ensures n <= |s|
    ensures forall i :: 0 <= i < n ==> !IsSpace(s[i])
    ensures n == |s| || IsSpace(s[n])
  {
    if s == [] || IsSpace(s[0]) then 0 else 1 + RunLength(s[1..])
  }

  /** `s` begins with a match of `http\S+`: "http" and at least one non-whitespace character. */
  predicate StartsUrl(s: string) {
    |s| >= 5 && s[0] == 'h' && s[1] == 't' && s[2] == 't' && s[3] == 'p' && !IsSpace(s[4])
  }

  /** `s` contains a match of `http\S+` somewhere. */
  predicate HasUrl(s: string) {
    exists i :: 0 <= i < |s| && StartsUrl(s[i..])
  }

  /** "http" occurs in `s` at position `i`. */
  predicate HttpAt(s: string, i: nat) {
    i + 4 <= |s| && s[i] == 'h' && s[i + 1] == 't' && s[i + 2] == 't' && s[i + 3] == 'p'
  }

  /** `s` contains no occurrence of "http" at all. */
  predicate NoHttp(s: string) {
    forall i :: 0 <= i < |s| ==> !HttpAt(s, i)
  }

  /** The URL that starts `s` is `s[..RunLength(s)]`; it is at least five characters long. */
  lemma UrlLength(s: string)
    requires StartsUrl(s)
    ensures 5 <= RunLength(s)
  {
  }

  /** `re.sub(r'http\S+', '', s)`. */
  function StripUrls(s: string): (r: string)
    ensures |r| <= |s|
    decreases |s|
  {
    if s == [] then []
    else if StartsUrl(s) then
      UrlLength(s);
      StripUrls(s[RunLength(s)..])
    else [s[0]] + StripUrls(s[1..])
  }

  /** Text without any "http" passes the URL step unchanged. */
  lemma {:induction false} NoHttpUnchanged(s: string)
    requires NoHttp(s)
    ensures StripUrls(s) == s
  {
    if s != [] {
      assert !HttpAt(s, 0);
      assert !StartsUrl(s);
      forall i | 0 <= i < |s[1..]| ensures !HttpAt(s[1..], i) {
        assert !HttpAt(s, i + 1);
        if i + 4 <= |s[1..]| {
          assert s[1..][i..i + 4] == s[i + 1..i + 1 + 4];
        }
      }
      NoHttpUnchanged(s[1..]);
    }
  }

  /** Only the first five characters decide whether a URL starts here. */
  lemma StartsUrlPrefix(a: string, b: string)
    requires |a| >= 5
    ensures StartsUrl(a + b) == StartsUrl(a)
  {
    assert forall i :: 0 <= i < 5 ==> (a + b)[i] == a[i];
  }

  /** A whitespace character among the first five characters prevents a URL from starting. */
  lemma NoUrlAcrossSpace(a: string, b: string)
    requires a != [] && !StartsUrl(a)
    requires IsSpace(a[|a| - 1]) || (b != [] && IsSpace(b[0]))
    ensures !StartsUrl(a + b)
  {
    var ab := a + b;
    if |a| >= 5 {
      StartsUrlPrefix(a, b);
    } else if IsSpace(a[|a| - 1]) {
      assert ab[|a| - 1] == a[|a| - 1];
    } else {
      assert ab[|a|] == b[0];
    }
  }

  /** A whitespace run ending inside `a` is not extended by what follows `a`. */
  lemma {:induction false} RunPrefix(a: string, b: string)
    requires RunLength(a) < |a|
    ensures RunLength(a + b) == RunLength(a)
  {
    if !IsSpace(a[0]) {
      assert (a + b)[1..] == a[1..] + b;
      RunPrefix(a[1..], b);
    }
  }

  /** A whitespace character at the start of `b` stops every run that reaches the end of `a`. */
  lemma {:induction false} RunBeforeSpace(a: string, b: string)
    requires b != [] && IsSpace(b[0])
    ensures RunLength(a + b) == RunLength(a)
  {
    if a == [] {
      assert a + b == b;
    } else if !IsSpace(a[0]) {
      assert (a + b)[1..] == a[1..] + b;
      RunBeforeSpace(a[1..], b);
    }
  }

  /**
   * One step of the scan over `a + b` when a URL starts `a` and ends inside
   * it: if the rest of the scan splits at the end of `a`, so does the whole.
   */
  lemma UrlStep(a: string, b: string)
    requires StartsUrl(a) && StartsUrl(a + b)
    requires RunLength(a + b) == RunLength(a)
    requires StripUrls(a[RunLength(a)..] + b) == StripUrls(a[RunLength(a)..]) + StripUrls(b)
    ensures StripUrls(a + b) == StripUrls(a) + StripUrls(b)
  {
    UrlSkip(a);
    UrlSkip(a + b);
    TailOfConcat(a, b, RunLength(a));
  }

  /** A URL at the start of the text is skipped as a whole. */
  lemma UrlSkip(s: string)
    requires StartsUrl(s)
    ensures RunLength(s) <= |s| && StripUrls(s) == StripUrls(s[RunLength(s)..])
  {
    UrlLength(s);
  }

  /** Dropping a prefix of `a` from `a + b`. */
  lemma TailOfConcat(a: string, b: string, n: nat)
    requires n <= |a|
    ensures (a + b)[n..] == a[n..] + b
  {
  }

  /**
   * One step of the scan over `a + b` when no URL starts at its first
   * character: if the rest of the scan splits at the end of `a`, so does the whole.
   */
  lemma CharStep(a: string, b: string)
    requires a != [] && !StartsUrl(a) && !StartsUrl(a + b)
    requires StripUrls(a[1..] + b) == StripUrls(a[1..]) + StripUrls(b)
    ensures StripUrls(a + b) == StripUrls(a) + StripUrls(b)
  {
    var ab := a + b;
    assert ab[0] == a[0] && ab[1..] == a[1..] + b;
    Assoc([a[0]], StripUrls(a[1..]), StripUrls(b));
  }

  /** Concatenation is associative; stated once so that proofs can regroup cheaply. */
  lemma Assoc(x: string, y: string, z: string)
    ensures x + (y + z) == (x + y) + z
  {
  }

  /** The scan may be cut after a whitespace character. */
  lemma {:induction false} ConcatAfterSpace(a: string, b: string)
    requires a != [] && IsSpace(a[|a| - 1])
    ensures StripUrls(a + b) == StripUrls(a) + StripUrls(b)
    decreases |a|
  {
    if StartsUrl(a) {
      StartsUrlPrefix(a, b);
      UrlLength(a);
      RunPrefix(a, b);
      ConcatAfterSpace(a[RunLength(a)..], b);
      UrlStep(a, b);
    } else {
      NoUrlAcrossSpace(a, b);
      if |a| == 1 {
        assert a[1..] == [];
        assert a[1..] + b == b;
      } else {
        ConcatAfterSpace(a[1..], b);
      }
      CharStep(a, b);
    }
  }

  /** The scan may be cut just before a whitespace character. */
  lemma {:induction false} ConcatBeforeSpace(a: string, b: string)
    requires b != [] && IsSpace(b[0])
    ensures StripUrls(a + b) == StripUrls(a) + StripUrls(b)
    decreases |a|
  {
    if a == [] {
      assert a + b == b;
      assert StripUrls(a) + StripUrls(b) == StripUrls(b);
    } else if StartsUrl(a) {
      StartsUrlPrefix(a, b);
      UrlLength(a);
      RunBeforeSpace(a, b);
      ConcatBeforeSpace(a[RunLength(a)..], b);
      UrlStep(a, b);
    } else {
      NoUrlAcrossSpace(a, b);
      ConcatBeforeSpace(a[1..], b);
      CharStep(a, b);
    }
  }

  /** The URL step works independently on the two sides of any whitespace boundary. */
  lemma Concat(a: string, b: string)
    requires a == [] || b == [] || IsSpace(a[|a| - 1]) || IsSpace(b[0])
    ensures StripUrls(a + b) == StripUrls(a) + StripUrls(b)
  {
    if a == [] {
      assert StripUrls(a) == [];
      assert a + b == b;
      assert [] + StripUrls(b) == StripUrls(b);
    } else if b == [] {
      assert StripUrls(b) == [];
      assert a + b == a;
      assert StripUrls(a) + [] == StripUrls(a);
    } else if IsSpace(a[|a| - 1]) {
      ConcatAfterSpace(a, b);
    } else {
      ConcatBeforeSpace(a, b);
    }
  }

  /**
   * A whitespace-delimited "http" followed by at least one non-whitespace
   * character is deleted together with the whole non-whitespace run after it.
   */
  lemma UrlDeleted(a: string, url: string, b: string)
    requires StartsUrl(url) && RunLength(url) == |url|
    requires a == [] || IsSpace(a[|a| - 1])
    requires b == [] || IsSpace(b[0])
    ensures StripUrls(a + url + b) == StripUrls(a) + StripUrls(b)
  {
    assert a + url + b == a + (url + b);
    Concat(a, url + b);
    var ub := url + b;
    StartsUrlPrefix(url, b);
    if b == [] {
      assert ub == url;
    } else {
      RunBeforeSpace(url, b);
    }
    assert ub[|url|..] == b;
  }

  /** "http" alone is not a URL: it lacks the character `\S+` needs. */
  lemma HttpAlone()
    ensures StripUrls("http") == "http"
  {
    var http := "http";
    assert !StartsUrl(http) && http[1..] == "ttp";
    assert !StartsUrl("ttp") && "ttp"[1..] == "tp";
    assert !StartsUrl("tp") && "tp"[1..] == "p";
    assert !StartsUrl("p") && "p"[1..] == "";
  }

  /** A whitespace-delimited "http" followed by whitespace or the end of the text survives. */
  lemma HttpSurvives(a: string, b: string)
    requires a == [] || IsSpace(a[|a| - 1])
    requires b == [] || IsSpace(b[0])
    ensures StripUrls(a + "http" + b) == StripUrls(a) + "http" + StripUrls(b)
  {
    HttpAlone();
    FixedBetweenSpaces(a, "http", b);
  }

  /** Text the URL step leaves alone is still left alone between whitespace boundaries. */
  lemma FixedBetweenSpaces(a: string, m: string, b: string)
    requires StripUrls(m) == m
    requires a == [] || IsSpace(a[|a| - 1])
    requires b == [] || IsSpace(b[0])
    ensures StripUrls(a + m + b) == StripUrls(a) + m + StripUrls(b)
  {
    Assoc(a, m, b);
    Assoc(StripUrls(a), m, StripUrls(b));
    Concat(a, m + b);
    Concat(m, b);
  }

  /**
   * If the result of the URL step starts with `k` non-whitespace
   * characters, the input started with the same `k` characters.
   */
  lemma {:induction false} KeptPrefix(s: string, k: nat)
    requires k <= |StripUrls(s)|
    requires forall i :: 0 <= i < k ==> !IsSpace(StripUrls(s)[i])
    ensures k <= |s| && s[..k] == StripUrls(s)[..k]
    decreases |s|
  {
    if k > 0 {
      if StartsUrl(s) {
        AfterUrl(s);
        assert false;
      } else {
        var r := StripUrls(s);
        var rest := StripUrls(s[1..]);
        assert r == [s[0]] + rest;
        assert forall i :: 0 <= i < k - 1 ==> rest[i] == r[i + 1];
        KeptPrefix(s[1..], k - 1);
        assert s[..k] == [s[0]] + s[1..][..k - 1];
        assert r[..k] == [s[0]] + rest[..k - 1];
      }
    }
  }

  /** What follows a deleted URL is empty or starts with whitespace. */
  lemma AfterUrl(s: string)
    requires StartsUrl(s)
    ensures StripUrls(s) == [] || IsSpace(StripUrls(s)[0])
  {
    UrlLength(s);
    var t := s[RunLength(s)..];
  }

  /** Whether a URL starts at a character depends on that character and the next four. */
  lemma StartsUrlCons(c: char, t: string)
    ensures StartsUrl([c] + t) <==>
      c == 'h' && |t| >= 4 && t[0] == 't' && t[1] == 't' && t[2] == 'p' && !IsSpace(t[3])
  {
    assert forall j :: 0 <= j < |t| ==> ([c] + t)[j + 1] == t[j];
  }

  /** The URL step never produces a match of `http\S+` at the position of a kept character. */
  lemma NoUrlAtKept(s: string)
    requires s != [] && !StartsUrl(s)
    ensures !StartsUrl(StripUrls(s))
  {
    var t := s[1..];
    var rest := StripUrls(t);
    assert s == [s[0]] + t;
    assert StripUrls(s) == [s[0]] + rest;
    StartsUrlCons(s[0], t);
    StartsUrlCons(s[0], rest);
    if StartsUrl([s[0]] + rest) {
      assert rest[0] == 't' && rest[1] == 't' && rest[2] == 'p' && !IsSpace(rest[3]);
      forall i | 0 <= i < 4 ensures !IsSpace(rest[i]) {
        assert rest[i] in {'t', 'p'} || i == 3;
      }
      KeptPrefix(t, 4);
      assert false;
    }
  }

  /** No match of `http\S+` is left after the URL step. */
  lemma {:induction false} NoUrlSurvives(s: string)
    ensures !HasUrl(StripUrls(s))
    decreases |s|
  {
    if s == [] {
    } else if StartsUrl(s) {
      UrlLength(s);
      NoUrlSurvives(s[RunLength(s)..]);
    } else {
      var rest := StripUrls(s[1..]);
      var r := StripUrls(s);
      assert r == [s[0]] + rest;
      NoUrlSurvives(s[1..]);
      NoUrlAtKept(s);
      forall i | 0 <= i < |r| ensures !StartsUrl(r[i..]) {
        if i > 0 {
          assert r[i..] == rest[i - 1..];
        }
      }
    }
  }
}
