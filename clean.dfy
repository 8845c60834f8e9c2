/**
 * `clean_text` (app.py:20-27), the review text normaliser run before every
 * classification. The stop-word set, loaded once at start-up and only read
 * afterwards (app.py:18), is a parameter.
 */
module Clean {
  import opened Chars
  import opened Urls
  import opened Tokens

  /** `re.sub(r'[^A-Za-z ]+', '', s)`: every character other than an ASCII letter or a space is deleted. */
  function KeepLettersAndSpaces(s: string): (r: string)
    ensures |r| <= |s|
    ensures forall i :: 0 <= i < |r| ==> IsKept(r[i])
  {
    if s == [] then []
    else if IsKept(s[0]) then [s[0]] + KeepLettersAndSpaces(s[1..])
    else KeepLettersAndSpaces(s[1..])
  }

  /** The filter works character by character: it distributes over concatenation. */
  lemma {:induction false} KeepConcat(a: string, b: string)
    ensures KeepLettersAndSpaces(a + b) == KeepLettersAndSpaces(a) + KeepLettersAndSpaces(b)
  {
    if a == [] {
      assert a + b == b;
    } else {
      assert (a + b)[1..] == a[1..] + b;
      KeepConcat(a[1..], b);
    }
  }

  /**
   * A digit, punctuation mark, tab, newline or non-ASCII letter is deleted
   * outright: it does not become a separator between its neighbours.
   */
  lemma DroppedCharacter(a: string, c: char, b: string)
    requires !IsKept(c)
    ensures KeepLettersAndSpaces(a + [c] + b) == KeepLettersAndSpaces(a) + KeepLettersAndSpaces(b)
  {
    KeepConcat(a + [c], b);
    KeepConcat(a, [c]);
    assert KeepLettersAndSpaces([c]) == [] by {
      assert [c][1..] == [];
    }
    assert KeepLettersAndSpaces(a) + [] == KeepLettersAndSpaces(a);
  }

  /** Text made only of ASCII letters and spaces passes the filter unchanged. */
  lemma {:induction false} KeepIdentity(s: string)
    requires forall i :: 0 <= i < |s| ==> IsKept(s[i])
    ensures KeepLettersAndSpaces(s) == s
  {
    if s != [] {
      assert IsKept(s[0]);
      KeepIdentity(s[1..]);
    }
  }

  /** `s.lower()` on text of ASCII letters and spaces. */
  function LowerAscii(s: string): (r: string)
    ensures |r| == |s|
    ensures forall i :: 0 <= i < |s| ==> r[i] == LowerChar(s[i])
  {
    if s == [] then [] else [LowerChar(s[0])] + LowerAscii(s[1..])
  }

  /** The text of app.py:21-24: URLs and unwanted characters removed, then lower-cased. */
  function Normalize(s: string): (text: string)
    ensures |text| <= |s|
    ensures forall i :: 0 <= i < |text| ==> IsLower(text[i]) || text[i] == ' '
  {
    LowerAscii(KeepLettersAndSpaces(StripUrls(s)))
  }

  /** The tokens of the normalised text that are not stop words (app.py:25-26). */
  function ContentWords(s: string, stop: set<string>): (ws: seq<string>)
    ensures AllWords(ws)
    ensures forall w :: w in ws <==> w in Split(Normalize(s)) && w !in stop
  {
    RemoveStopWords(Split(Normalize(s)), stop)
  }

  predicate IsLowerOrSpace(c: char) {
    IsLower(c) || c == ' '
  }

  /** `clean_text(s)` with `stop` as the stop-word set. */
  function CleanText(s: string, stop: set<string>): (r: string)
    ensures forall i :: 0 <= i < |r| ==> IsLower(r[i]) || r[i] == ' '
    ensures |r| <= |s|
  {
    var text := Normalize(s);
    var tokens := ContentWords(s, stop);
    JoinSplitShorter(text);
    RemoveStopWordsShorter(Split(text), stop);
    SplitWithin(text, IsLowerOrSpace);
    JoinWithin(tokens, IsLowerOrSpace);
    if tokens != [] then Join(tokens) else text
  }

  /**
   * When some token survives, the result is exactly the surviving tokens:
   * none of them a stop word, in their original order, separated by single
   * spaces with no space at either end.
   */
  lemma CleanTextTokens(s: string, stop: set<string>)
    requires ContentWords(s, stop) != []
    ensures Split(CleanText(s, stop)) == ContentWords(s, stop)
    ensures WellSpaced(CleanText(s, stop)) && CleanText(s, stop) != []
    ensures forall w :: w in Split(CleanText(s, stop)) ==> w !in stop
    ensures IsSubsequence(Split(CleanText(s, stop)), Split(Normalize(s)))
  {
    var tokens := ContentWords(s, stop);
    SplitJoin(tokens);
    RemoveStopWordsKeepsOrder(Split(Normalize(s)), stop);
  }

  /** When no token survives, the normalised text is returned verbatim, spacing included. */
  lemma CleanTextFallback(s: string, stop: set<string>)
    requires forall w :: w in Split(Normalize(s)) ==> w in stop
    ensures CleanText(s, stop) == Normalize(s)
  {
    FallbackExactly(s, stop);
  }

  /** The fallback is taken exactly when every token of the normalised text is a stop word. */
  lemma FallbackExactly(s: string, stop: set<string>)
    ensures ContentWords(s, stop) == [] <==> forall w :: w in Split(Normalize(s)) ==> w in stop
  {
    var ws := ContentWords(s, stop);
    if ws != [] {
      assert ws[0] in ws;
    }
  }

  /** Input with no letters at all (empty, blank, punctuation only) comes back as its spaces. */
  lemma NoLetters(s: string, stop: set<string>)
    requires forall i :: 0 <= i < |Normalize(s)| ==> Normalize(s)[i] == ' '
    ensures CleanText(s, stop) == Normalize(s)
    ensures forall i :: 0 <= i < |CleanText(s, stop)| ==> CleanText(s, stop)[i] == ' '
  {
    SplitEmpty(Normalize(s));
  }

  /** Text of letters and spaces without "http" is only lower-cased by the first steps. */
  lemma NormalizePlain(s: string)
    requires NoHttp(s)
    requires forall i :: 0 <= i < |s| ==> IsKept(s[i])
    ensures Normalize(s) == LowerAscii(s)
  {
    NoHttpUnchanged(s);
    KeepIdentity(s);
  }

  /** Lower-casing leaves text without upper-case letters unchanged. */
  lemma LowerIdentity(s: string)
    requires forall i :: 0 <= i < |s| ==> !IsUpper(s[i])
    ensures LowerAscii(s) == s
  {
  }

  /** Lower-casing works character by character: it distributes over concatenation. */
  lemma LowerConcat(a: string, b: string)
    ensures LowerAscii(a + b) == LowerAscii(a) + LowerAscii(b)
  {
    assert forall i :: 0 <= i < |a + b| ==> LowerAscii(a + b)[i] == (LowerAscii(a) + LowerAscii(b))[i];
  }

  /** A space cannot start a URL, so it passes the URL step. */
  lemma StripLeadingSpace(rest: string)
    ensures StripUrls(" " + rest) == " " + StripUrls(rest)
  {
    assert (" " + rest)[1..] == rest;
  }

  /** A space passes the character filter. */
  lemma KeepLeadingSpace(rest: string)
    ensures KeepLettersAndSpaces(" " + rest) == " " + KeepLettersAndSpaces(rest)
  {
    assert (" " + rest)[1..] == rest;
  }

  /** A space is left alone by lower-casing. */
  lemma LowerLeadingSpace(rest: string)
    ensures LowerAscii(" " + rest) == " " + LowerAscii(rest)
  {
    assert (" " + rest)[1..] == rest;
  }

  /** The URL step works independently on the two sides of a space. */
  lemma StripAtSpace(a: string, b: string)
    ensures StripUrls(a + " " + b) == StripUrls(a) + " " + StripUrls(b)
  {
    Assoc(a, " ", b);
    Assoc(StripUrls(a), " ", StripUrls(b));
    Concat(a, " " + b);
    StripLeadingSpace(b);
  }

  /** The character filter keeps a space and works on either side of it independently. */
  lemma KeepAtSpace(a: string, b: string)
    ensures KeepLettersAndSpaces(a + " " + b) == KeepLettersAndSpaces(a) + " " + KeepLettersAndSpaces(b)
  {
    Assoc(a, " ", b);
    Assoc(KeepLettersAndSpaces(a), " ", KeepLettersAndSpaces(b));
    KeepConcat(a, " " + b);
    KeepLeadingSpace(b);
  }

  /** Lower-casing keeps a space and works on either side of it independently. */
  lemma LowerAtSpace(a: string, b: string)
    ensures LowerAscii(a + " " + b) == LowerAscii(a) + " " + LowerAscii(b)
  {
    Assoc(a, " ", b);
    Assoc(LowerAscii(a), " ", LowerAscii(b));
    LowerConcat(a, " " + b);
    LowerLeadingSpace(b);
  }

  /** The text before tokenising is computed independently on the two sides of a space. */
  lemma NormalizeAtSpace(a: string, b: string)
    ensures Normalize(a + " " + b) == Normalize(a) + " " + Normalize(b)
  {
    var u, v := StripUrls(a), StripUrls(b);
    StripAtSpace(a, b);
    KeepAtSpace(u, v);
    LowerAtSpace(KeepLettersAndSpaces(u), KeepLettersAndSpaces(v));
  }

  /** The surviving tokens of two texts joined by a space: those of the first, then those of the second. */
  lemma ContentWordsAtSpace(a: string, b: string, stop: set<string>)
    ensures ContentWords(a + " " + b, stop) == ContentWords(a, stop) + ContentWords(b, stop)
  {
    var na, nb := Normalize(a), Normalize(b);
    NormalizeAtSpace(a, b);
    SplitAtSpace(na, nb);
    RemoveStopWordsConcat(Split(na), Split(nb), stop);
  }

  /** A word of ASCII letters whose lower-case form is a stop word leaves no token. */
  lemma StopWordDropped(w: string, stop: set<string>)
    requires |w| > 0 && forall i :: 0 <= i < |w| ==> IsAsciiLetter(w[i])
    requires NoHttp(w)
    requires LowerAscii(w) in stop
    ensures ContentWords(w, stop) == []
  {
    var lw := LowerAscii(w);
    NormalizePlain(w);
    LowerLetters(w);
    SingleWord(lw);
    assert RemoveStopWords([lw], stop) == RemoveStopWords([], stop);
  }

  lemma RegroupWord(a: string, w: string, b: string)
    ensures a + " " + w + " " + b == a + " " + (w + " " + b)
  {
  }

  /**
   * Stop words are matched after lower-casing: a word whose lower-case form
   * is a stop word (`"The"` when `"the"` is one) is dropped whatever its
   * capitalisation, at the start of the text, in the middle or at the end.
   */
  lemma CapitalisedStopWord(a: string, w: string, b: string, stop: set<string>)
    requires |w| > 0 && forall i :: 0 <= i < |w| ==> IsAsciiLetter(w[i])
    requires NoHttp(w)
    requires LowerAscii(w) in stop
    ensures ContentWords(w + " " + b, stop) == ContentWords(b, stop)
    ensures ContentWords(a + " " + w + " " + b, stop) == ContentWords(a + " " + b, stop)
    ensures ContentWords(a + " " + w, stop) == ContentWords(a, stop)
    ensures ContentWords(b, stop) != [] ==> CleanText(w + " " + b, stop) == CleanText(b, stop)
    ensures ContentWords(a + " " + b, stop) != [] ==>
      CleanText(a + " " + w + " " + b, stop) == CleanText(a + " " + b, stop)
    ensures ContentWords(a, stop) != [] ==> CleanText(a + " " + w, stop) == CleanText(a, stop)
  {
    var ca, cb := ContentWords(a, stop), ContentWords(b, stop);
    StopWordDropped(w, stop);
    ContentWordsAtSpace(w, b, stop);
    assert [] + cb == cb;
    ContentWordsAtSpace(a, w, stop);
    assert ca + [] == ca;
    RegroupWord(a, w, b);
    ContentWordsAtSpace(a, w + " " + b, stop);
    ContentWordsAtSpace(a, b, stop);
  }

  /**
   * A review made only of stop words comes back verbatim instead of as "":
   * with "the", "a" and "an" as stop words, `"the a an"` cleans to `"the a an"`.
   */
  lemma StopWordsOnly(s: string, stop: set<string>)
    requires forall i :: 0 <= i < |s| ==> IsLower(s[i]) || s[i] == ' '
    requires NoHttp(s)
    requires forall w :: w in Split(s) ==> w in stop
    ensures CleanText(s, stop) == s
  {
    NormalizePlain(s);
    LowerIdentity(s);
    CleanTextFallback(s, stop);
  }

  /** A word starting with "http" and a non-whitespace character is all URL: it cleans to "". */
  lemma UrlWordDeleted(u: string, stop: set<string>)
    requires StartsUrl(u)
    requires forall i :: 0 <= i < |u| ==> IsLower(u[i])
    ensures CleanText(u, stop) == []
  {
    UrlLength(u);
    assert RunLength(u) == |u|;
    assert u[|u|..] == [];
    assert Normalize(u) == [];
    SplitEmpty(Normalize(u));
  }

  /** Lower-casing ASCII letters gives lower-case letters. */
  lemma LowerLetters(x: string)
    requires forall i :: 0 <= i < |x| ==> IsAsciiLetter(x[i])
    ensures forall i :: 0 <= i < |LowerAscii(x)| ==> IsLower(LowerAscii(x)[i])
  {
  }

  /**
   * A word of ASCII letters that starts with "HTTP" in upper case, such as
   * `"HTTPx"`: the case-sensitive URL pattern does not see it.
   */
  predicate UpperHttpWord(s: string) {
    && |s| >= 5 && s[0] == 'H' && s[1] == 'T' && s[2] == 'T' && s[3] == 'P'
    && (forall i :: 0 <= i < |s| ==> IsAsciiLetter(s[i]))
    && NoHttp(s)
  }

  /** An upper-case "HTTP" word that is not a stop word survives cleaning, lower-cased. */
  lemma UpperHttpKept(s: string, stop: set<string>)
    requires UpperHttpWord(s) && LowerAscii(s) !in stop
    ensures CleanText(s, stop) == LowerAscii(s)
  {
    NormalizePlain(s);
    var u := LowerAscii(s);
    LowerLetters(s);
    assert IsWord(u);
    SingleWord(u);
    assert RemoveStopWords([u], stop) == [u];
  }

  /**
   * Cleaning is not idempotent: an upper-case "HTTP" escapes the
   * case-sensitive URL pattern, and lower-casing turns it into one
   * (`"HTTPx"` cleans to `"httpx"`, which cleans to `""`).
   */
  lemma NotIdempotent(s: string, stop: set<string>)
    requires UpperHttpWord(s) && LowerAscii(s) !in stop
    ensures CleanText(s, stop) == LowerAscii(s) != []
    ensures CleanText(CleanText(s, stop), stop) == []
  {
    UpperHttpKept(s, stop);
    var u := LowerAscii(s);
    LowerLetters(s);
    assert StartsUrl(u);
    UrlWordDeleted(u, stop);
  }
}
