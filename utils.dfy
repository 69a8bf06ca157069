/**
 * The link and text utilities of the crawler: the link validator
 * `is_valid_link`, the token estimate `count_tokens` and the word counter
 * `word_counter`, together with the pieces of Python's string library and of
 * `urlparse` that they depend on.
 */
module Utils {

  // ---------------------------------------------------------------------
  // Characters and the string operations of Python's `str`
  // ---------------------------------------------------------------------

  /** The characters for which Python's `str.isspace()` holds; `str.strip()`
      and `str.split()` (without arguments) treat exactly these as whitespace:
      tab to carriage return, the four separators U+001C to U+001F, space,
      U+0085, U+00A0, U+1680, U+2000 to U+200A, U+2028, U+2029, U+202F,
      U+205F and U+3000. */
  predicate IsSpace(c: char) {
    || ('\t' <= c <= '\r')
    || ('\U{1C}' <= c <= ' ')
    || c == '\U{85}' || c == '\U{A0}' || c == '\U{1680}'
    || ('\U{2000}' <= c <= '\U{200A}')
    || c == '\U{2028}' || c == '\U{2029}' || c == '\U{202F}' || c == '\U{205F}' || c == '\U{3000}'
  }

  predicate AllSpace(s: string) {
    forall i :: 0 <= i < |s| ==> IsSpace(s[i])
  }

  /** `str.lstrip()`: drops the leading whitespace. */
  function StripLeft(s: string): (r: string)
    ensures |r| <= |s| && r == s[|s| - |r|..]
    ensures r == [] || !IsSpace(r[0])
    ensures AllSpace(s[..|s| - |r|])
  {
    if s != [] && IsSpace(s[0]) then
      var r := StripLeft(s[1..]);
      assert s[..|s| - |r|] == [s[0]] + s[1..][..|s| - 1 - |r|];
      r
    else s
  }

  /** `str.rstrip()`: drops the trailing whitespace. */
  function StripRight(s: string): (r: string)
    ensures |r| <= |s| && r == s[..|r|]
    ensures r == [] || !IsSpace(r[|r| - 1])
    ensures AllSpace(s[|r|..])
  {
    if s != [] && IsSpace(s[|s| - 1]) then
      var r := StripRight(s[..|s| - 1]);
      assert s[|r|..] == s[..|s| - 1][|r|..] + [s[|s| - 1]];
      r
    else s
  }

  /** `str.strip()`: a piece of `s` that neither starts nor ends with
      whitespace. */
  function Strip(s: string): (r: string)
    ensures |r| <= |s|
    ensures r == [] || (!IsSpace(r[0]) && !IsSpace(r[|r| - 1]))
  {
    StripRight(StripLeft(s))
  }

  /** Python's `str.lower()` on one character, for the characters whose lower
      case is an ASCII letter: `A`-`Z` and U+212A KELVIN SIGN (lower case `k`).
      Every other character is left as it is (see README, "Left out"). */
  function LowerChar(c: char): char {
    if 'A' <= c <= 'Z' then (c as int + 32) as char
    else if c == '\U{212A}' then 'k'
    else c
  }

  /** `str.lower()`, character by character. */
  function Lower(s: string): (r: string)
    ensures |r| == |s|
  {
    if s == [] then [] else [LowerChar(s[0])] + Lower(s[1..])
  }

  /** `str.startswith(p)`. */
  predicate StartsWith(s: string, p: string) {
    |p| <= |s| && s[..|p|] == p
  }

  // ---------------------------------------------------------------------
  // The scheme rule of `urllib.parse.urlsplit` (and so of `urlparse`)
  // ---------------------------------------------------------------------

  /** Letters, digits and `+-.`: the characters a URL scheme may hold. */
  predicate IsSchemeChar(c: char) {
    ('a' <= c <= 'z') || ('A' <= c <= 'Z') || ('0' <= c <= '9') || c == '+' || c == '-' || c == '.'
  }

  predicate IsAsciiAlpha(c: char) {
    ('a' <= c <= 'z') || ('A' <= c <= 'Z')
  }

  /** Drops the leading C0 control characters and spaces (U+0000 to U+0020),
      as urlsplit does before anything else. */
  function StripC0Left(s: string): (r: string)
    ensures |r| <= |s|
  {
    if s != [] && s[0] <= ' ' then StripC0Left(s[1..]) else s
  }

  /** Removes every tab, carriage return and line feed, as urlsplit does. */
  function RemoveUnsafe(s: string): (r: string)
    ensures |r| <= |s|
  {
    if s == [] then []
    else if s[0] in {'\t', '\r', '\n'} then RemoveUnsafe(s[1..])
    else [s[0]] + RemoveUnsafe(s[1..])
  }

  /** `str.find(c)`, except that a missing character gives `|s|` instead of -1. */
  function IndexOf(s: string, c: char): (i: nat)
    ensures i <= |s|
    ensures i < |s| ==> s[i] == c
    ensures forall k :: 0 <= k < i ==> s[k] != c
  {
    if s == [] then 0 else if s[0] == c then 0 else 1 + IndexOf(s[1..], c)
  }

  /** The `scheme` component `urlparse(url)` reports: after sanitising, the text
      before the first `:`, lower-cased, provided it is non-empty, starts with an
      ASCII letter and holds only scheme characters; otherwise the empty string. */
  function UrlScheme(url: string): string {
    SanitisedScheme(RemoveUnsafe(StripC0Left(url)))
  }

  /** The scheme rule on an already sanitised URL. */
  function SanitisedScheme(u: string): string {
    var i := IndexOf(u, ':');
    if 0 < i < |u| && IsAsciiAlpha(u[0]) && (forall k :: 0 <= k < i ==> IsSchemeChar(u[k]))
    then Lower(u[..i])
    else ""
  }

  // ---------------------------------------------------------------------
  // is_valid_link
  // ---------------------------------------------------------------------

  /** The trimmed and lower-cased literals that are never links. */
  const Nones: set<string> := {"", "#", "/", "about:blank", "about:", "./", ".", ".."}

  /** The prefixes (of the trimmed, lower-cased text) that are never links. */
  const RejectedPrefixes: seq<string> := ["#", "javascript:", "mailto:", "tel:", "data:", "void(", "ftp:"]

  predicate HasRejectedPrefix(h: string) {
    exists i :: 0 <= i < |RejectedPrefixes| && StartsWith(h, RejectedPrefixes[i])
  }

  /** The verdict on an already trimmed and lower-cased href, once the
      protocol-relative branch is known never to reject. */
  predicate Accepts(h: string) {
    h !in Nones && !HasRejectedPrefix(h)
  }

  /** `href.strip().lower()` */
  function Normalize(href: string): string {
    Lower(Strip(href))
  }

  /** `is_valid_link`: whether a raw or resolved href may be followed. */
  function IsValidLink(href: string): bool {
    if href == [] then false
    else
      var h := Normalize(href);
      if h in Nones then false
      else if HasRejectedPrefix(h) then false
      else if StartsWith(h, "//") && UrlScheme("http:" + h) !in {"http", "https"} then false
      else true
  }

  // ---------------------------------------------------------------------
  // count_tokens and word_counter
  // ---------------------------------------------------------------------

  /** `count_tokens`: a quarter of the length, rounded down. */
  function CountTokens(text: string): (c: nat)
    ensures 4 * c <= |text| < 4 * c + 4
  {
    |text| / 4
  }

  /** The longest prefix of `t` without whitespace. */
  function LeadingWord(t: string): (w: string)
    ensures |w| <= |t| && w == t[..|w|]
    ensures forall i :: 0 <= i < |w| ==> !IsSpace(w[i])
    ensures |w| == |t| || IsSpace(t[|w|])
  {
    if t == [] || IsSpace(t[0]) then [] else [t[0]] + LeadingWord(t[1..])
  }

  /** A non-empty string without whitespace. */
  predicate IsWord(w: string) {
    w != [] && forall i :: 0 <= i < |w| ==> !IsSpace(w[i])
  }

  /** `str.split()` without arguments: the maximal runs of non-whitespace. */
  function Split(s: string): seq<string>
    decreases |s|
  {
    var t := StripLeft(s);
    if t == [] then []
    else
      var w := LeadingWord(t);
      assert w != [];
      [w] + Split(t[|w|..])
  }

  /** `word_counter`. */
  function WordCounter(text: string): nat {
    |Split(text)|
  }

  /** An independent count of the words of `s`: a left-to-right scan that
      counts the non-whitespace characters that follow whitespace (or the
      start, when `afterSpace` holds initially). */
  function RunStarts(s: string, afterSpace: bool): nat {
    if s == [] then 0
    else (if afterSpace && !IsSpace(s[0]) then 1 else 0) + RunStarts(s[1..], IsSpace(s[0]))
  }

  // ---------------------------------------------------------------------
  // Lemmas: Strip and Lower
  // ---------------------------------------------------------------------

  lemma {:induction false} StripLeftOfStripped(s: string)
    requires s == [] || !IsSpace(s[0])
    ensures StripLeft(s) == s
  {
  }

  lemma {:induction false} StripRightOfStripped(s: string)
    requires s == [] || !IsSpace(s[|s| - 1])
    ensures StripRight(s) == s
  {
  }

  /** A stripped string starts and ends with non-whitespace. */
  lemma StripEnds(s: string)
    ensures var r := Strip(s); r == [] || (!IsSpace(r[0]) && !IsSpace(r[|r| - 1]))
  {
    var l := StripLeft(s);
    var r := StripRight(l);
    if r != [] {
      assert r[0] == l[0];
    }
  }

  /** Stripping is empty exactly for whitespace-only text. */
  lemma StripEmptyIffBlank(s: string)
    ensures Strip(s) == [] <==> AllSpace(s)
  {
    var l := StripLeft(s);
    assert s == s[..|s| - |l|] + l;
    if l != [] {
      assert !IsSpace(s[|s| - |l|]);
    } else {
      assert AllSpace(s[..|s|]);
      assert s[..|s|] == s;
    }
  }

  lemma StripIdempotent(s: string)
    ensures Strip(Strip(s)) == Strip(s)
  {
    var r := Strip(s);
    StripEnds(s);
    StripLeftOfStripped(r);
    StripRightOfStripped(r);
  }

  lemma LowerPreservesSpace(c: char)
    ensures IsSpace(LowerChar(c)) <==> IsSpace(c)
  {
  }

  lemma {:induction false} StripLeftLower(s: string)
    ensures StripLeft(Lower(s)) == Lower(StripLeft(s))
    decreases |s|
  {
    if s != [] {
      LowerPreservesSpace(s[0]);
      assert Lower(s)[1..] == Lower(s[1..]);
      if IsSpace(s[0]) {
        StripLeftLower(s[1..]);
      }
    }
  }

  lemma {:induction false} StripRightLower(s: string)
    ensures StripRight(Lower(s)) == Lower(StripRight(s))
    decreases |s|
  {
    if s != [] {
      LowerPreservesSpace(s[|s| - 1]);
      assert s == s[..|s| - 1] + [s[|s| - 1]];
      LowerAppend(s[..|s| - 1], [s[|s| - 1]]);
      assert Lower(s)[..|s| - 1] == Lower(s[..|s| - 1]);
      if IsSpace(s[|s| - 1]) {
        StripRightLower(s[..|s| - 1]);
      }
    }
  }

  /** Stripping and lower-casing commute. */
  lemma StripLower(s: string)
    ensures Strip(Lower(s)) == Lower(Strip(s))
  {
    StripLeftLower(s);
    StripRightLower(StripLeft(s));
  }

  lemma {:induction false} LowerIdempotent(s: string)
    ensures Lower(Lower(s)) == Lower(s)
  {
    if s != [] {
      LowerIdempotent(s[1..]);
    }
  }

  lemma {:induction false} LowerAppend(a: string, b: string)
    ensures Lower(a + b) == Lower(a) + Lower(b)
  {
    if a == [] {
      assert a + b == b;
    } else {
      assert (a + b)[1..] == a[1..] + b;
      LowerAppend(a[1..], b);
    }
  }

  // ---------------------------------------------------------------------
  // Lemmas: the scheme rule and is_valid_link
  // ---------------------------------------------------------------------

  lemma {:induction false} RemoveUnsafeAppend(a: string, b: string)
    ensures RemoveUnsafe(a + b) == RemoveUnsafe(a) + RemoveUnsafe(b)
    decreases |a|
  {
    if a != [] {
      assert (a + b)[0] == a[0];
      assert (a + b)[1..] == a[1..] + b;
      RemoveUnsafeAppend(a[1..], b);
    } else {
      assert a + b == b;
    }
  }

  lemma {:induction false} IndexOfAppend(a: string, b: string, c: char)
    requires IndexOf(a, c) < |a|
    ensures IndexOf(a + b, c) == IndexOf(a, c)
    decreases |a|
  {
    if a[0] != c {
      assert (a + b)[1..] == a[1..] + b;
      IndexOfAppend(a[1..], b, c);
    }
  }

  /** Whatever follows it, a URL that starts with `http:` has scheme `http`. */
  lemma HttpPrefixScheme(h: string)
    ensures UrlScheme("http:" + h) == "http"
  {
    var url := "http:" + h;
    assert url[0] == 'h';
    assert StripC0Left(url) == url;
    RemoveUnsafeAppend("http:", h);
    assert RemoveUnsafe("http:") == "http:";
    var u := RemoveUnsafe(url);
    assert u == "http:" + RemoveUnsafe(h);
    assert IndexOf("http:", ':') == 4;
    IndexOfAppend("http:", RemoveUnsafe(h), ':');
    assert u[..4] == "http";
    assert Lower("http") == "http";
  }

  /** The protocol-relative branch of is_valid_link never rejects: the check
      `urlparse("http:" + h).scheme in ("http", "https")` always succeeds. */
  lemma ProtocolRelativeNeverRejects(h: string)
    requires StartsWith(h, "//")
    ensures UrlScheme("http:" + h) in {"http", "https"}
  {
    HttpPrefixScheme(h);
  }

  /** What is_valid_link decides, without its dead branch: a link is valid
      exactly when its trimmed, lower-cased form is neither one of the
      literals nor starts with one of the prefixes. */
  lemma IsValidLinkIff(href: string)
    ensures IsValidLink(href) == Accepts(Normalize(href))
  {
    var h := Normalize(href);
    if href == [] {
      assert Strip(href) == [];
      assert h == "";
    }
    HttpPrefixScheme(h);
  }

  /** Empty and whitespace-only strings are never valid links. */
  lemma BlankRejected(href: string)
    requires AllSpace(href)
    ensures !IsValidLink(href)
  {
    StripEmptyIffBlank(href);
    assert Normalize(href) == "";
    IsValidLinkIff(href);
  }

  lemma NormalizeOfStripLower(href: string)
    ensures Normalize(Strip(Lower(href))) == Normalize(href)
  {
    StripLower(href);
    StripIdempotent(Strip(href));
    StripLower(Strip(href));
    LowerIdempotent(Strip(href));
  }

  /** Case and surrounding whitespace do not matter. */
  lemma IsValidLinkNormalized(href: string)
    ensures IsValidLink(href) == IsValidLink(Strip(Lower(href)))
  {
    NormalizeOfStripLower(href);
    IsValidLinkIff(href);
    IsValidLinkIff(Strip(Lower(href)));
  }

  /** A string without capitals is its own lower case. */
  lemma {:induction false} LowerOfLowercase(s: string)
    requires forall i :: 0 <= i < |s| ==> !('A' <= s[i] <= 'Z') && s[i] != '\U{212A}'
    ensures Lower(s) == s
  {
    if s != [] {
      LowerOfLowercase(s[1..]);
    }
  }

  /** None of the rejected prefixes starts with any other character than
      `#`, `j`, `m`, `t`, `d`, `v` or `f`. */
  lemma NoRejectedPrefixByFirstChar(h: string)
    requires h != [] && h[0] !in {'#', 'j', 'm', 't', 'd', 'v', 'f'}
    ensures !HasRejectedPrefix(h)
  {
    forall i | 0 <= i < |RejectedPrefixes|
      ensures !StartsWith(h, RejectedPrefixes[i])
    {
      var p := RejectedPrefixes[i];
      assert p[0] in {'#', 'j', 'm', 't', 'd', 'v', 'f'};
      assert |p| > 0 && h[0] != p[0];
    }
  }

  /** Text that has no surrounding whitespace and no capitals is already
      normalised. */
  lemma NormalizeOfPlain(s: string)
    requires s != [] && !IsSpace(s[0]) && !IsSpace(s[|s| - 1])
    requires forall i :: 0 <= i < |s| ==> !('A' <= s[i] <= 'Z') && s[i] != '\U{212A}'
    ensures Normalize(s) == s
  {
    StripLeftOfStripped(s);
    StripRightOfStripped(s);
    LowerOfLowercase(s);
  }

  lemma {:induction false} LowerAt(s: string, i: nat)
    requires i < |s|
    ensures Lower(s)[i] == LowerChar(s[i])
  {
    if i > 0 {
      LowerAt(s[1..], i - 1);
    }
  }

  /** A link whose normalised form starts with a rejected prefix is invalid. */
  lemma RejectedByPrefix(href: string, i: nat)
    requires i < |RejectedPrefixes| && StartsWith(Normalize(href), RejectedPrefixes[i])
    ensures !IsValidLink(href)
  {
    IsValidLinkIff(href);
  }

  /** A link whose normalised form is one of the literals is invalid. */
  lemma RejectedAsNone(href: string)
    requires Normalize(href) in Nones
    ensures !IsValidLink(href)
  {
    IsValidLinkIff(href);
  }

  // The samples below each name their input in a precondition, so that the
  // proofs reason about the one string rather than evaluating the validator
  // on a literal.

  /** A bare `#` is rejected. */
  lemma IsValidLinkRejectsHash(href: string)
    requires href == "#"
    ensures !IsValidLink(href)
  {
    NormalizeOfPlain(href);
    RejectedAsNone(href);
  }

  /** A bare `/` is rejected. */
  lemma IsValidLinkRejectsSlash(href: string)
    requires href == "/"
    ensures !IsValidLink(href)
  {
    NormalizeOfPlain(href);
    RejectedAsNone(href);
  }

  lemma NormalizeScript(href: string)
    requires href == "JavaScript:alert(1)"
    ensures StartsWith(Normalize(href), "javascript:")
  {
    StripLeftOfStripped(href);
    StripRightOfStripped(href);
    forall i | 0 <= i < 11
      ensures Lower(href)[i] == "javascript:"[i]
    {
      LowerAt(href, i);
    }
  }

  /** A `javascript:` link is rejected whatever its case. */
  lemma IsValidLinkRejectsScript(href: string)
    requires href == "JavaScript:alert(1)"
    ensures !IsValidLink(href)
  {
    NormalizeScript(href);
    RejectedByPrefix(href, 1);
  }

  /** A `mailto:` link is rejected. */
  lemma IsValidLinkRejectsMail(href: string)
    requires href == "mailto:a@b.com"
    ensures !IsValidLink(href)
  {
    NormalizeOfPlain(href);
    RejectedByPrefix(href, 2);
  }

  /** An absolute https URL is accepted. */
  lemma IsValidLinkAcceptsAbsolute(href: string)
    requires href == "https://example.com/page"
    ensures IsValidLink(href)
  {
    NormalizeOfPlain(href);
    NoRejectedPrefixByFirstChar(href);
    IsValidLinkIff(href);
  }

  /** A relative path is accepted. */
  lemma IsValidLinkAcceptsRelative(href: string)
    requires href == "/relative/path"
    ensures IsValidLink(href)
  {
    NormalizeOfPlain(href);
    NoRejectedPrefixByFirstChar(href);
    IsValidLinkIff(href);
  }

  /** A protocol-relative URL is accepted: its branch never rejects. */
  lemma IsValidLinkAcceptsProtocolRelative(href: string)
    requires href == "//example.com/x"
    ensures IsValidLink(href)
  {
    NormalizeOfPlain(href);
    NoRejectedPrefixByFirstChar(href);
    IsValidLinkIff(href);
  }

  // ---------------------------------------------------------------------
  // Lemmas: count_tokens and word_counter
  // ---------------------------------------------------------------------

  lemma {:induction false} RunStartsSkipsSpaces(s: string, k: nat, b: bool)
    requires 0 < k <= |s| && AllSpace(s[..k])
    ensures RunStarts(s, b) == RunStarts(s[k..], true)
    decreases k
  {
    assert IsSpace(s[..k][0]);
    if k > 1 {
      assert s[1..][..k - 1] == s[..k][1..];
      RunStartsSkipsSpaces(s[1..], k - 1, true);
      assert s[1..][k - 1..] == s[k..];
    }
  }

  lemma {:induction false} RunStartsSkipsWord(s: string, k: nat, b: bool)
    requires 0 < k <= |s| && forall i :: 0 <= i < k ==> !IsSpace(s[i])
    ensures RunStarts(s, b) == (if b then 1 else 0) + RunStarts(s[k..], false)
    decreases k
  {
    if k > 1 {
      RunStartsSkipsWord(s[1..], k - 1, false);
      assert s[1..][k - 1..] == s[k..];
    }
  }

  /** After a word, the scan's flag does not matter when the rest is empty or
      begins with whitespace. */
  lemma RunStartsFlag(s: string)
    requires s == [] || IsSpace(s[0])
    ensures RunStarts(s, false) == RunStarts(s, true)
  {
  }

  /** word_counter counts the maximal non-whitespace runs of the text. */
  lemma {:induction false} WordCounterCountsRuns(text: string)
    ensures WordCounter(text) == RunStarts(text, true)
    decreases |text|
  {
    var t := StripLeft(text);
    var k := |text| - |t|;
    if k > 0 {
      RunStartsSkipsSpaces(text, k, true);
    } else {
      assert text[k..] == text;
    }
    if t != [] {
      var w := LeadingWord(t);
      var rest := t[|w|..];
      RunStartsSkipsWord(t, |w|, true);
      RunStartsFlag(rest);
      WordCounterCountsRuns(rest);
    } else {
      assert RunStarts(t, true) == 0;
    }
  }

  /** Every piece split off is a non-empty run of non-whitespace. */
  lemma {:induction false} SplitYieldsWords(s: string)
    ensures forall k :: 0 <= k < |Split(s)| ==> IsWord(Split(s)[k])
    decreases |s|
  {
    var t := StripLeft(s);
    if t != [] {
      var w := LeadingWord(t);
      var rest := t[|w|..];
      var words := Split(rest);
      SplitYieldsWords(rest);
      assert Split(s) == [w] + words;
      forall k | 0 <= k < |Split(s)|
        ensures IsWord(Split(s)[k])
      {
        if k > 0 {
          assert Split(s)[k] == words[k - 1];
        }
      }
    }
  }

  /** The word count is zero exactly for text without non-whitespace. */
  lemma WordCounterZeroIffBlank(text: string)
    ensures WordCounter(text) == 0 <==> AllSpace(text)
  {
    var t := StripLeft(text);
    assert text == text[..|text| - |t|] + t;
    if t != [] {
      assert !IsSpace(text[|text| - |t|]);
    } else {
      assert text[..|text|] == text;
    }
  }

  lemma {:induction false} SplitBound(s: string)
    ensures 2 * |Split(s)| <= |s| + 1
    ensures s != [] && IsSpace(s[0]) ==> 2 * |Split(s)| <= |s|
    decreases |s|
  {
    var t := StripLeft(s);
    if t != [] {
      var w := LeadingWord(t);
      var rest := t[|w|..];
      assert Split(s) == [w] + Split(rest);
      assert 1 <= |w| && |rest| == |t| - |w|;
      SplitBound(rest);
      if rest != [] {
        assert IsSpace(rest[0]);
        assert 2 * |Split(rest)| <= |rest|;
      }
      assert 2 * |Split(s)| <= |t| + 1;
      if s != [] && IsSpace(s[0]) {
        assert |t| < |s|;
      }
    }
  }

  /** There are never more words than half the text's length, rounded up. */
  lemma WordCounterBound(text: string)
    ensures WordCounter(text) <= (|text| + 1) / 2
  {
    SplitBound(text);
  }
}
