# Review sentiment service: text normaliser and reply mapping

This project models the logic of a small Flask service that classifies the
sentiment of a product review (`app.py`). Everything around that logic is
plumbing: HTTP routing, loading the pickled model and vectorizer, the
translation service and the NLTK stop-word download. The core is:

- `clean_text` (app.py:20-27). It normalises a review before classification.
  It removes URL-like runs (`http\S+`) and deletes every character that is not
  an ASCII letter or a space. It lower-cases the text, splits it into tokens and
  drops stop words. It re-joins the remaining tokens with single spaces. If no
  token survives, it returns the lower-cased, filtered text itself.
- The reply mapping in `predict` (app.py:39-40). It turns the model's label
  into one of three reply texts, with "Thank you" as the default.

The Dafny model is written as pure functions with lemmas, one module per
stage:

| file | module | models |
|---|---|---|
| chars.dfy | `Chars` | character classes: Python's `\s`, ASCII letters, ASCII lower-casing |
| urls.dfy | `Urls` | `re.sub(r'http\S+', '', text)` as a left-to-right scanner |
| tokens.dfy | `Tokens` | `split()`, stop-word removal, `' '.join` |
| clean.dfy | `Clean` | the character filter, lower-casing and `clean_text` itself |
| respond.dfy | `Respond` | the reply table and the English/translated `predict` path |

The stop-word set is loaded once and only read (app.py:18). It is a
`set<string>` parameter. The fitted vectorizer and model (`classify`) and the
translation service (`detect`, `translate`) are function parameters of
`Respond.Predict`.

Cleaning is not idempotent. `"HTTPx"` escapes the case-sensitive URL
pattern and cleans to `"httpx"`. Cleaning `"httpx"` again deletes it as a URL
and gives `""`. `Clean.NotIdempotent` proves this for every word of ASCII
letters that starts with an upper-case "HTTP".

## Model

| member | source | states |
|---|---|---|
| Chars.IsSpace | app.py:22 | the characters `\s` matches and `\S` excludes in the URL pattern: Python's whitespace set |
| Chars.IsKept | app.py:23 | the character class `[A-Za-z ]`: an ASCII letter or the space |
| Chars.LowerChar | app.py:24 | `lower()` on one character after the filter: `A`-`Z` map to the matching letter of `a`-`z`, and every other character is unchanged |
| Urls.StartsUrl | app.py:22 | a match of `http\S+` begins here: the lower-case "http" followed by at least one non-whitespace character |
| Urls.RunLength | app.py:22 | the `\S+` run is the longest whitespace-free prefix: all its characters are non-whitespace, and it ends at whitespace or at the end of the text |
| Urls.StripUrls | app.py:22 | removing URLs never makes the text longer |
| Urls.NoHttpUnchanged | app.py:22 | text that contains no "http" passes the URL step unchanged |
| Urls.Concat | app.py:22 | the URL step acts independently on the two sides of a whitespace boundary |
| Urls.UrlDeleted | app.py:22 | a whitespace-delimited "http" followed by a non-whitespace character is deleted together with the whole non-whitespace run after it; the text around it is kept |
| Urls.HttpSurvives | app.py:22 | a whitespace-delimited "http" followed by whitespace or the end of the text survives the URL step |
| Urls.FixedBetweenSpaces | app.py:22 | a piece of text that the URL step leaves unchanged is still left unchanged between whitespace boundaries, and the text on either side is processed on its own |
| Urls.NoUrlSurvives | app.py:22 | no match of `http\S+` is left anywhere in the result |
| Clean.KeepLettersAndSpaces | app.py:23 | the filter's output is no longer than its input and contains only ASCII letters and spaces |
| Clean.KeepConcat | app.py:23 | the filter works character by character, so it distributes over concatenation |
| Clean.DroppedCharacter | app.py:23 | a digit, punctuation mark, tab, newline or non-ASCII letter is deleted outright and does not become a separator (`"a\tb"` gives `"ab"`, `"café"` gives `"caf"`) |
| Clean.KeepIdentity | app.py:23 | text made only of ASCII letters and spaces passes the filter unchanged |
| Clean.LowerAscii | app.py:24 | lower-casing keeps the length and maps every character through ASCII lower-casing |
| Clean.Normalize | app.py:21-24 | the text before tokenising is no longer than the input and contains only `a`-`z` and spaces |
| Tokens.Split | app.py:25 | every token is non-empty and contains no space |
| Tokens.SplitAtSpace | app.py:25 | a space separates tokens: splitting `a + " " + b` gives the tokens of `a` followed by those of `b` |
| Tokens.SplitEmpty | app.py:25 | splitting yields no token exactly when the text is nothing but spaces |
| Tokens.Join | app.py:27 | joining tokens gives text with no leading, trailing or doubled spaces, and it is empty only for an empty token list |
| Tokens.SplitJoin | app.py:25-27 | splitting the joined tokens gives the tokens back |
| Tokens.JoinSplit | app.py:25-27 | joining the tokens of text with no leading, trailing or doubled spaces gives the text back |
| Tokens.JoinSplitShorter | app.py:25-27 | re-joining the tokens of a text never makes it longer |
| Tokens.RemoveStopWords | app.py:26 | a token is kept exactly when it is in the input and not a stop word, and every copy of a kept token survives: each non-stop token occurs as often in the result as in the input. The result is no longer than the input |
| Tokens.RemoveStopWordsConcat | app.py:26 | the filter works token by token, so it distributes over concatenation of token lists |
| Tokens.RemoveStopWordsKeepsOrder | app.py:26 | the kept tokens are a subsequence of the input: their relative order is preserved |
| Tokens.RemoveStopWordsShorter | app.py:26-27 | dropping tokens never makes the joined text longer |
| Tokens.SplitWithin | app.py:25 | every character of every token comes from the allowed alphabet of the text |
| Tokens.JoinWithin | app.py:27 | joining adds nothing but spaces |
| Clean.ContentWords | app.py:25-26 | the surviving tokens are non-empty and free of spaces, and a word is among them exactly when it is a token of the normalised text and not a stop word |
| Clean.CleanText | app.py:20-27 | the cleaned text contains only `a`-`z` and spaces and is never longer than the input |
| Clean.CleanTextTokens | app.py:25-27 | when some token survives, the output's tokens are exactly the surviving tokens. None of them is a stop word, and they keep their original order. They are separated by single spaces, with no space at either end |
| Clean.CleanTextFallback | app.py:27 | when every token is a stop word, the output is the lower-cased, filtered text verbatim, spacing included |
| Clean.FallbackExactly | app.py:26-27 | no token survives exactly when every token of the filtered text is a stop word |
| Clean.NoLetters | app.py:23-27 | input with no letters left after filtering (empty, blank or punctuation only) comes back as its spaces, not as `""` |
| Clean.StopWordsOnly | app.py:22-27 | lower-case text without "http" whose every token is a stop word comes back verbatim, not as `""`. For example, `"the a an"` with those three stop words cleans to `"the a an"` |
| Clean.NormalizePlain | app.py:22-24 | text of ASCII letters and spaces without "http" is only lower-cased before tokenising |
| Clean.LowerConcat | app.py:24 | lower-casing works character by character, so it distributes over concatenation |
| Clean.NormalizeAtSpace | app.py:22-24 | the text before tokenising is computed independently on the two sides of a space, and the space is kept |
| Clean.ContentWordsAtSpace | app.py:22-26 | the surviving tokens of two texts joined by a space are those of the first text followed by those of the second |
| Clean.StopWordDropped | app.py:24-26 | a word of ASCII letters without "http" whose lower-case form is a stop word leaves no token, whatever its capitalisation |
| Clean.CapitalisedStopWord | app.py:24-26 | stop words are matched after lower-casing. A word whose lower-case form is a stop word (`"The"` when `"the"` is one) is dropped whatever its capitalisation, whether it is at the start, in the middle or at the end of the text. The surviving tokens are those of the text without it, and so is the cleaned text whenever some token survives |
| Clean.UrlWordDeleted | app.py:22-27 | a lower-case word that starts with "http" followed by a letter is a URL and cleans to `""` |
| Clean.UpperHttpKept | app.py:22-27 | a word of ASCII letters that starts with upper-case "HTTP", has no lower-case "http" and is not a stop word escapes the URL pattern and cleans to its lower-case form |
| Clean.NotIdempotent | app.py:22-24 | cleaning is not idempotent. A word of ASCII letters that starts with upper-case "HTTP", such as `"HTTPx"`, and has no lower-case "http" and is not a stop word cleans to its non-empty lower-case form (`"httpx"`), and that cleans to `""` |
| Respond.Message | app.py:39-40 | the mapping is total and always gives one of the three replies. Label 0 alone gives "Sorry for that". Label 1 alone gives "Thanks for such sweet review". Every other label, 2 included, gives "Thank you" |
| Respond.Predict | app.py:30-40 | the reply is one of the three texts. English input is cleaned and classified as given; other input is translated first |

## Left out

- Flask, routing, JSON parsing and `jsonify` (app.py:1, 9, 29-32, 40, 42-43): HTTP plumbing. `Respond.Predict` takes the review string and returns the reply text.
- Pickle loading of the model and vectorizer (app.py:12-15): file I/O over opaque artifacts. `vectorizer.transform` plus `model.predict` is the `classify` parameter.
- googletrans detection and translation (app.py:3, 17, 33-35): an external network service. It enters as the `detect` and `translate` parameters; its failures and timeouts are not modelled.
- NLTK download and the English stop-word corpus (app.py:5-7, 18): the stop-word set is a parameter.
- `str(text)` coercion (app.py:21): the input is modelled as a Dafny `string`, so non-string inputs are not covered.
- Python's `str.lower()` on non-ASCII text: it is never reached, because the filter at app.py:23 leaves only ASCII letters and spaces. `LowerAscii` lower-cases `A`-`Z` only.
- `\s` follows the whitespace set of recent CPython releases: TAB to CR, FS to US, space, U+0085, U+00A0, U+1680, U+2000 to U+200A, U+2028, U+2029, U+202F, U+205F and U+3000. Differences between Unicode versions are not modelled.
- Urls.UrlDeleted: stated only for a URL with whitespace or a text edge on both sides. A URL glued to the word before it (`"xhttpfoo"`) is also deleted, but the general law fails at such a boundary: `"http" + "httpx"` is one URL, not two pieces.
- Urls.HttpSurvives: stated only for a whitespace-delimited "http", because an "http" inside an earlier URL's run is deleted with that URL.
- The storage tag and the review store (the "bad"/"good"/"neutral" tags and the reviews table) are not part of app.py, so they are not part of this model.
