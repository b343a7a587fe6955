/**
 * Header normalisation: the `norm` helper of the app, which every header match goes
 * through. A header is rewritten in seven steps:
 *   1. a missing value becomes the empty string;
 *   2. surrounding whitespace is stripped and the text is lower-cased;
 *   3. a trailing "- en-us" locale tag (with its variants) is cut off;
 *   4. the three Unicode dashes become '-';
 *   5. every run of '.', '_', '/', '\' and '-' becomes one space;
 *   6. every run of characters other than 0-9, a-z and whitespace becomes one space;
 *   7. every run of whitespace becomes one space and the result is stripped.
 */
module Normalize {
  import opened Wrappers

  // ---------------------------------------------------------------------------
  // Character classes
  // ---------------------------------------------------------------------------

  /** Python's `str.isspace()`, which both `str.strip()` and the regex class `\s` use. */
  predicate IsSpace(c: char) {
    || c == ' '
    || '\t' <= c <= '\r'
    || '\U{1C}' <= c <= '\U{1F}'
    || c == '\U{85}' || c == '\U{A0}' || c == '\U{1680}'
    || '\U{2000}' <= c <= '\U{200A}'
    || c == '\U{2028}' || c == '\U{2029}' || c == '\U{202F}' || c == '\U{205F}' || c == '\U{3000}'
  }

  /** The characters kept as they are by step 6: `[0-9a-z]`. */
  predicate IsWordChar(c: char) {
    '0' <= c <= '9' || 'a' <= c <= 'z'
  }

  /** The class `[._/\\-]` of step 5. */
  predicate IsSeparator(c: char) {
    c == '.' || c == '_' || c == '/' || c == '\\' || c == '-'
  }

  /** The character classes whose runs steps 5, 6 and 7 replace by a single space. */
  datatype RunClass = Separators | Others | Whitespace

  predicate InClass(k: RunClass, c: char) {
    match k
    case Separators => IsSeparator(c)
    case Others => !IsWordChar(c) && !IsSpace(c)
    case Whitespace => IsSpace(c)
  }

  predicate AllSpace(w: string) {
    forall i :: 0 <= i < |w| ==> IsSpace(w[i])
  }

  // ---------------------------------------------------------------------------
  // Step 2: strip and lower
  // ---------------------------------------------------------------------------

  /** `s.rstrip()`: the longest prefix of `s` that does not end in whitespace. */
  function TrimEnd(s: string): (r: string)
    ensures |r| <= |s|
    ensures forall i :: |r| <= i < |s| ==> IsSpace(s[i])
    ensures r == [] || !IsSpace(r[|r| - 1])
  {
    if s == [] || !IsSpace(s[|s| - 1]) then s else TrimEnd(s[..|s| - 1])
  }

  /** `s.lstrip()`: the longest suffix of `s` that does not start with whitespace. */
  function TrimStart(s: string): (r: string)
    ensures |r| <= |s|
    ensures forall i :: 0 <= i < |s| - |r| ==> IsSpace(s[i])
    ensures r == [] || !IsSpace(r[0])
  {
    if s == [] || !IsSpace(s[0]) then s else TrimStart(s[1..])
  }

  /** `s.strip()`: `s` without its leading and trailing whitespace. */
  function Strip(s: string): (r: string)
    ensures r == [] || (!IsSpace(r[0]) && !IsSpace(r[|r| - 1]))
  {
    var t := TrimEnd(s);
    TrimStartIsSuffix(t);
    TrimStart(t)
  }

  function LowerChar(c: char): char {
    if 'A' <= c <= 'Z' then (c as int - 'A' as int + 'a' as int) as char else c
  }

  /** `s.lower()`, restricted to the ASCII letters. */
  function LowerText(s: string): (r: string)
    ensures |r| == |s|
    ensures forall i :: 0 <= i < |s| ==> r[i] == LowerChar(s[i])
  {
    seq(|s|, i requires 0 <= i < |s| => LowerChar(s[i]))
  }

  // ---------------------------------------------------------------------------
  // Step 3: the locale tag `\s*-\s*en\s*[-_ ]\s*us\s*$`
  // ---------------------------------------------------------------------------

  predicate EndsWith(s: string, t: string) {
    |t| <= |s| && s[|s| - |t|..] == t
  }

  /** The text `w1-w2en` + `mid` + `us` + `w5` that one match of the pattern covers. */
  function LocaleText(w1: string, w2: string, mid: string, w5: string): string {
    w1 + "-" + w2 + "en" + mid + "us" + w5
  }

  /**
   * The pattern `\s*-\s*en\s*[-_ ]\s*us\s*` matches the whole of `t`: `t` splits into
   * runs of whitespace, the literal pieces and a separator run.
   */
  ghost predicate LocaleSuffix(t: string) {
    exists w1, w2, mid, w5 ::
      && AllSpace(w1) && AllSpace(w2) && SeparatorRun(mid) && AllSpace(w5)
      && t == LocaleText(w1, w2, mid, w5)
  }

  /** The middle `\s*[-_ ]\s*` of the pattern, between "en" and "us", matched against all of `mid`. */
  ghost predicate SeparatorRun(mid: string) {
    || (AllSpace(mid) && ' ' in mid)
    || (exists j :: 0 <= j < |mid| && (mid[j] == '-' || mid[j] == '_') && AllSpace(mid[..j]) && AllSpace(mid[j + 1..]))
  }

  /** When `s` ends with `w` followed by whitespace: what comes before `w`. */
  function CutWord(s: string, w: string): (r: Option<string>)
    ensures r.Some? ==> |r.value| + |w| <= |s| && s == r.value + w + s[|r.value| + |w|..]
    ensures r.Some? ==> AllSpace(s[|r.value| + |w|..])
  {
    var a := TrimEnd(s);
    TrimEndIsPrefix(s);
    if EndsWith(a, w) then
      var q := a[..|a| - |w|];
      assert s == a + s[|a|..] && a == q + w;
      Some(q)
    else None
  }

  /**
   * When `b` ends with a separator '-', '_' or ' ' followed by whitespace: what comes
   * before it. Whitespace before a '-' or '_' is left in place for the next step to trim.
   */
  function CutSeparator(b: string): (r: Option<string>)
    ensures r.Some? ==> |r.value| <= |b| && b == r.value + b[|r.value|..] && SeparatorRun(b[|r.value|..])
  {
    var c := TrimEnd(b);
    TrimEndIsPrefix(b);
    if |c| >= 1 && (c[|c| - 1] == '-' || c[|c| - 1] == '_') then
      var d := c[..|c| - 1];
      var mid := b[|d|..];
      assert mid[0] == c[|c| - 1] && mid[..0] == [] && mid[1..] == b[|c|..];
      Some(d)
    else if ' ' in b[|c|..] then Some(c)
    else None
  }

  /**
   * Step 3, read from the right: cut "us" with the whitespace after it, the separator,
   * "en" with the whitespace after it, '-' with the whitespace after it, and the
   * whitespace before the '-'. When any piece is missing the text is returned unchanged.
   */
  function StripLocale(x: string): (r: string)
    ensures |r| <= |x| && r == x[..|r|]
  {
    match CutWord(x, "us")
    case None => x
    case Some(b) =>
      match CutSeparator(b)
      case None => x
      case Some(d) =>
        match CutWord(d, "en")
        case None => x
        case Some(e) =>
          match CutWord(e, "-")
          case None => x
          case Some(f) => TrimEndIsPrefix(f); TrimEnd(f)
  }

  // ---------------------------------------------------------------------------
  // Steps 4 to 7
  // ---------------------------------------------------------------------------

  /** The en dash, the em dash and the minus sign become '-'. */
  function FoldDashChar(c: char): char {
    if c == '\U{2013}' || c == '\U{2014}' || c == '\U{2212}' then '-' else c
  }

  function FoldDashes(s: string): (r: string)
    ensures |r| == |s|
    ensures forall i :: 0 <= i < |s| ==> r[i] == FoldDashChar(s[i])
  {
    seq(|s|, i requires 0 <= i < |s| => FoldDashChar(s[i]))
  }

  predicate NoDoubleSpace(s: string) {
    forall i :: 0 <= i < |s| - 1 && s[i] == ' ' ==> s[i + 1] != ' '
  }

  /**
   * `re.sub(r"[k]+", " ", s)`: every maximal run of characters of class `k` becomes one
   * space. `inRun` says whether the character just before `s` was of class `k`, so that
   * the run it started is already represented by a space.
   */
  function ReplaceRuns(s: string, k: RunClass, inRun: bool): (r: string)
    ensures forall i :: 0 <= i < |r| ==> r[i] == ' ' || (r[i] in s && !InClass(k, r[i]))
    ensures InClass(k, ' ') ==> NoDoubleSpace(r)
    ensures InClass(k, ' ') && inRun ==> r == [] || r[0] != ' '
    decreases |s|
  {
    if s == [] then []
    else if InClass(k, s[0]) then (if inRun then [] else [' ']) + ReplaceRuns(s[1..], k, true)
    else [s[0]] + ReplaceRuns(s[1..], k, false)
  }

  /** Steps 4 to 7, applied to the text left after the locale tag is cut. */
  function Separate(x: string): string {
    var x4 := FoldDashes(x);
    var x5 := ReplaceRuns(x4, Separators, false);
    var x6 := ReplaceRuns(x5, Others, false);
    Strip(ReplaceRuns(x6, Whitespace, false))
  }

  /** The text after steps 1 to 3. */
  function Unsuffixed(s: string): string {
    StripLocale(LowerText(Strip(s)))
  }

  /**
   * A normalised header: only 0-9, a-z and single spaces, with no space at either end.
   */
  predicate IsNormal(t: string) {
    && (forall i :: 0 <= i < |t| ==> IsWordChar(t[i]) || t[i] == ' ')
    && NoDoubleSpace(t)
    && (t == [] || (t[0] != ' ' && t[|t| - 1] != ' '))
  }

  /** `norm(s)` of the app. */
  function Norm(s: Option<string>): (r: string)
    ensures s.None? ==> r == ""
    ensures IsNormal(r)
  {
    match s
    case None => ""
    case Some(t) => SeparateIsNormal(Unsuffixed(t)); Separate(Unsuffixed(t))
  }

  // ---------------------------------------------------------------------------
  // Steps 4 to 7 produce a normal header, keep every letter and digit, and leave a
  // normal header as it is
  // ---------------------------------------------------------------------------

  lemma SeparateIsNormal(x: string)
    ensures IsNormal(Separate(x))
  {
    var x6 := ReplaceRuns(ReplaceRuns(FoldDashes(x), Separators, false), Others, false);
    var x7 := ReplaceRuns(x6, Whitespace, false);
    assert forall i :: 0 <= i < |x7| ==> IsWordChar(x7[i]) || x7[i] == ' ';
    forall i | 0 <= i < |Strip(x7)| {
      StripAt(x7, i);
    }
    StripKeepsNoDoubleSpace(x7);
  }

  /** `s.strip()` is the slice of `s` between its leading and its trailing whitespace. */
  /** Character `i` of `s.strip()` is the character of `s` it was cut from. */
  lemma StripAt(s: string, i: nat)
    requires i < |Strip(s)|
    ensures |Strip(s)| <= |TrimEnd(s)| <= |s|
    ensures Strip(s)[i] == s[|TrimEnd(s)| - |Strip(s)| + i]
  {
    var t := TrimEnd(s);
    TrimStartAt(t, i);
    TrimEndAt(s, |t| - |Strip(s)| + i);
  }

  lemma TrimEndAt(s: string, i: nat)
    requires i < |TrimEnd(s)|
    ensures i < |s| && TrimEnd(s)[i] == s[i]
  {
    if s != [] && IsSpace(s[|s| - 1]) {
      TrimEndAt(s[..|s| - 1], i);
    }
  }

  /** `s.rstrip()` is a prefix of `s`. */
  lemma TrimEndIsPrefix(s: string)
    ensures TrimEnd(s) == s[..|TrimEnd(s)|]
  {
    forall i | 0 <= i < |TrimEnd(s)| {
      TrimEndAt(s, i);
    }
  }

  lemma TrimStartAt(s: string, i: nat)
    requires i < |TrimStart(s)|
    ensures |TrimStart(s)| <= |s| && TrimStart(s)[i] == s[|s| - |TrimStart(s)| + i]
  {
    if s != [] && IsSpace(s[0]) {
      TrimStartAt(s[1..], i);
    }
  }

  /** `s.lstrip()` is a suffix of `s`. */
  lemma TrimStartIsSuffix(s: string)
    ensures TrimStart(s) == s[|s| - |TrimStart(s)|..]
  {
    forall i | 0 <= i < |TrimStart(s)| {
      TrimStartAt(s, i);
    }
  }

  lemma StripKeepsNoDoubleSpace(s: string)
    requires NoDoubleSpace(s)
    ensures NoDoubleSpace(Strip(s))
  {
    var r := Strip(s);
    forall i | 0 <= i < |r| - 1 && r[i] == ' '
      ensures r[i + 1] != ' '
    {
      StripAt(s, i);
      StripAt(s, i + 1);
    }
  }

  /** The letters and digits of `s`, in order. */
  function WordChars(s: string): string {
    if s == [] then []
    else (if IsWordChar(s[0]) then [s[0]] else []) + WordChars(s[1..])
  }

  lemma {:induction false} WordCharsAppend(a: string, b: string)
    ensures WordChars(a + b) == WordChars(a) + WordChars(b)
  {
    if a == [] {
      assert a + b == b;
    } else {
      var ab := a + b;
      var head := if IsWordChar(a[0]) then [a[0]] else [];
      assert ab[0] == a[0];
      assert ab[1..] == a[1..] + b;
      assert WordChars(ab) == head + WordChars(a[1..] + b);
      WordCharsAppend(a[1..], b);
      ConcatAssoc(head, WordChars(a[1..]), WordChars(b));
    }
  }

  lemma {:induction false} WordCharsOfSpaces(w: string)
    requires AllSpace(w)
    ensures WordChars(w) == []
  {
    if w != [] {
      WordCharsOfSpaces(w[1..]);
    }
  }

  lemma TrimEndKeepsWordChars(s: string)
    ensures WordChars(TrimEnd(s)) == WordChars(s)
  {
    var t := TrimEnd(s);
    TrimEndIsPrefix(s);
    var w := s[|t|..];
    assert s == t + w;
    assert AllSpace(w) by {
      forall j | 0 <= j < |w| ensures IsSpace(w[j]) {
        assert w[j] == s[|t| + j];
      }
    }
    WordCharsAppend(t, w);
    WordCharsOfSpaces(w);
  }

  lemma {:induction false} TrimStartKeepsWordChars(s: string)
    ensures WordChars(TrimStart(s)) == WordChars(s)
  {
    if s != [] && IsSpace(s[0]) {
      assert !IsWordChar(s[0]);
      assert WordChars(s) == [] + WordChars(s[1..]);
      TrimStartKeepsWordChars(s[1..]);
    }
  }

  lemma StripKeepsWordChars(s: string)
    ensures WordChars(Strip(s)) == WordChars(s)
  {
    TrimEndKeepsWordChars(s);
    TrimStartKeepsWordChars(TrimEnd(s));
  }

  lemma {:induction false} FoldDashesKeepsWordChars(s: string)
    ensures WordChars(FoldDashes(s)) == WordChars(s)
  {
    if s != [] {
      assert FoldDashes(s)[1..] == FoldDashes(s[1..]);
      FoldDashesKeepsWordChars(s[1..]);
    }
  }

  lemma {:induction false} ReplaceRunsKeepsWordChars(s: string, k: RunClass, inRun: bool)
    requires k != Others
    ensures WordChars(ReplaceRuns(s, k, inRun)) == WordChars(s)
    decreases |s|
  {
    if s != [] {
      var rest := ReplaceRuns(s[1..], k, InClass(k, s[0]));
      ReplaceRunsKeepsWordChars(s[1..], k, InClass(k, s[0]));
      if InClass(k, s[0]) {
        WordCharsAppend(if inRun then [] else [' '], rest);
      } else {
        WordCharsAppend([s[0]], rest);
      }
    }
  }

  lemma {:induction false} ReplaceOthersKeepsWordChars(s: string, inRun: bool)
    ensures WordChars(ReplaceRuns(s, Others, inRun)) == WordChars(s)
    decreases |s|
  {
    if s != [] {
      var rest := ReplaceRuns(s[1..], Others, InClass(Others, s[0]));
      ReplaceOthersKeepsWordChars(s[1..], InClass(Others, s[0]));
      if InClass(Others, s[0]) {
        WordCharsAppend(if inRun then [] else [' '], rest);
      } else {
        WordCharsAppend([s[0]], rest);
      }
    }
  }

  /** Steps 4 to 7 neither drop nor reorder a letter or a digit. */
  lemma SeparateKeepsWordChars(x: string)
    ensures WordChars(Separate(x)) == WordChars(x)
  {
    var x4 := FoldDashes(x);
    var x5 := ReplaceRuns(x4, Separators, false);
    var x6 := ReplaceRuns(x5, Others, false);
    var x7 := ReplaceRuns(x6, Whitespace, false);
    FoldDashesKeepsWordChars(x);
    ReplaceRunsKeepsWordChars(x4, Separators, false);
    ReplaceOthersKeepsWordChars(x5, false);
    ReplaceRunsKeepsWordChars(x6, Whitespace, false);
    StripKeepsWordChars(x7);
  }

  lemma {:induction false} ReplaceRunsOutsideClass(s: string, k: RunClass, inRun: bool)
    requires forall i :: 0 <= i < |s| ==> !InClass(k, s[i])
    ensures ReplaceRuns(s, k, inRun) == s
    decreases |s|
  {
    if s != [] {
      ReplaceRunsOutsideClass(s[1..], k, false);
    }
  }

  lemma {:induction false} ReplaceSingleSpaces(s: string, inRun: bool)
    requires forall i :: 0 <= i < |s| ==> IsWordChar(s[i]) || s[i] == ' '
    requires NoDoubleSpace(s)
    requires inRun ==> s == [] || s[0] != ' '
    ensures ReplaceRuns(s, Whitespace, inRun) == s
    decreases |s|
  {
    if s != [] {
      ReplaceSingleSpaces(s[1..], s[0] == ' ');
    }
  }

  lemma StripOfNormal(t: string)
    requires IsNormal(t)
    ensures Strip(t) == t
  {
    if t != [] {
      assert !IsSpace(t[|t| - 1]) && !IsSpace(t[0]);
    }
    TrimEndOfNonSpaceEnd(t);
    TrimStartOfNonSpaceStart(t);
  }

  lemma TrimStartOfNonSpaceStart(y: string)
    requires y == [] || !IsSpace(y[0])
    ensures TrimStart(y) == y
  {
  }

  lemma LocaleTextNested(w1: string, w2: string, mid: string, w5: string)
    ensures LocaleText(w1, w2, mid, w5) == w1 + ("-" + (w2 + ("en" + (mid + ("us" + w5)))))
  {
  }

  /** Every match of the locale pattern contains a '-'. */
  lemma LocaleSuffixHasDash(t: string)
    ensures LocaleSuffix(t) ==> '-' in t
  {
    if LocaleSuffix(t) {
      var w1, w2, mid, w5 :| t == LocaleText(w1, w2, mid, w5);
      LocaleTextNested(w1, w2, mid, w5);
      assert t[|w1|] == '-';
    }
  }

  lemma StripLocaleWithoutDash(x: string)
    requires '-' !in x
    ensures StripLocale(x) == x
  {
    var r := StripLocale(x);
    LocaleSuffixHasDash(x[|r|..]);
    StripLocaleSound(x);
  }

  /** A normal header passes through every step unchanged. */
  lemma NormalIsFixed(t: string)
    requires IsNormal(t)
    ensures Unsuffixed(t) == t
    ensures Separate(t) == t
  {
    StripOfNormal(t);
    assert LowerText(t) == t;
    assert '-' !in t;
    StripLocaleWithoutDash(t);
    assert FoldDashes(t) == t;
    ReplaceRunsOutsideClass(t, Separators, false);
    ReplaceRunsOutsideClass(t, Others, false);
    ReplaceSingleSpaces(t, false);
    StripOfNormal(t);
  }

  /** `norm` is idempotent. */
  lemma NormIdempotent(s: Option<string>)
    ensures Norm(Some(Norm(s))) == Norm(s)
  {
    NormalIsFixed(Norm(s));
  }

  /** `norm` keeps every letter and digit of the text left after the locale tag is cut. */
  lemma NormKeepsWordChars(s: string)
    ensures WordChars(Norm(Some(s))) == WordChars(Unsuffixed(s))
  {
    SeparateKeepsWordChars(Unsuffixed(s));
  }

  // ---------------------------------------------------------------------------
  // Step 3 cuts exactly the leftmost match of the locale pattern
  // ---------------------------------------------------------------------------

  lemma {:induction false} TrimStartAfterSpaces(w: string, y: string)
    requires AllSpace(w)
    requires y == [] || !IsSpace(y[0])
    ensures TrimStart(w + y) == y
    decreases |w|
  {
    if w != [] {
      assert (w + y)[1..] == w[1..] + y;
      TrimStartAfterSpaces(w[1..], y);
    } else {
      assert w + y == y;
    }
  }

  lemma {:induction false} TrimEndOverSpaces(y: string, w: string)
    requires AllSpace(w)
    ensures TrimEnd(y + w) == TrimEnd(y)
    decreases |w|
  {
    if w == [] {
      assert y + w == y;
    } else {
      var w' := w[..|w| - 1];
      assert (y + w)[..|y + w| - 1] == y + w';
      TrimEndOverSpaces(y, w');
    }
  }

  lemma TrimEndOfNonSpaceEnd(y: string)
    requires y == [] || !IsSpace(y[|y| - 1])
    ensures TrimEnd(y) == y
  {
  }

  lemma SeparatorRunAfterSpaces(sp: string, mid: string)
    requires AllSpace(sp) && SeparatorRun(mid)
    ensures SeparatorRun(sp + mid)
  {
    var m := sp + mid;
    if AllSpace(mid) && ' ' in mid {
      AllSpaceConcat(sp, mid);
      var k :| 0 <= k < |mid| && mid[k] == ' ';
      assert m[|sp| + k] == ' ';
    } else {
      var j :| 0 <= j < |mid| && (mid[j] == '-' || mid[j] == '_') && AllSpace(mid[..j]) && AllSpace(mid[j + 1..]);
      SeparatorAt(sp, mid, j);
    }
  }

  lemma SeparatorAt(sp: string, mid: string, j: nat)
    requires AllSpace(sp) && j < |mid| && (mid[j] == '-' || mid[j] == '_')
    requires AllSpace(mid[..j]) && AllSpace(mid[j + 1..])
    ensures SeparatorRun(sp + mid)
  {
    var m := sp + mid;
    var j' := |sp| + j;
    AllSpaceConcat(sp, mid[..j]);
    assert m[..j'] == sp + mid[..j];
    assert m[j' + 1..] == mid[j + 1..];
    assert m[j'] == mid[j];
  }

  lemma AllSpaceConcat(a: string, b: string)
    requires AllSpace(a) && AllSpace(b)
    ensures AllSpace(a + b)
  {
    forall i | 0 <= i < |a + b| ensures IsSpace((a + b)[i]) {
      if i < |a| {
        assert (a + b)[i] == a[i];
      } else {
        assert (a + b)[i] == b[i - |a|];
      }
    }
  }

  lemma CutWordOf(q: string, w: string, sp: string)
    requires |w| > 0 && !IsSpace(w[|w| - 1]) && AllSpace(sp)
    ensures CutWord(q + w + sp, w) == Some(q)
  {
    TrimEndOverSpaces(q + w, sp);
    TrimEndOfNonSpaceEnd(q + w);
    var a := q + w;
    assert a[|a| - |w|..] == w && a[..|a| - |w|] == q;
  }

  lemma CutWordAfterTrim(s: string, w: string)
    ensures CutWord(s, w) == CutWord(TrimEnd(s), w)
  {
    TrimEndOfNonSpaceEnd(TrimEnd(s));
  }

  lemma CutSeparatorAtSpace(q: string, mid: string)
    requires AllSpace(mid) && ' ' in mid
    requires q == [] || (!IsSpace(q[|q| - 1]) && q[|q| - 1] != '-' && q[|q| - 1] != '_')
    ensures CutSeparator(q + mid) == Some(q)
  {
    TrimEndOverSpaces(q, mid);
    TrimEndOfNonSpaceEnd(q);
    assert (q + mid)[|q|..] == mid;
  }

  lemma CutSeparatorAtDash(d: string, ch: char, m2: string)
    requires (ch == '-' || ch == '_') && AllSpace(m2)
    ensures CutSeparator(d + [ch] + m2) == Some(d)
  {
    var upto := d + [ch];
    TrimEndOverSpaces(upto, m2);
    TrimEndOfNonSpaceEnd(upto);
    assert upto[..|upto| - 1] == d;
  }

  lemma ConcatAssoc(a: string, b: string, c: string)
    ensures a + (b + c) == a + b + c
  {
  }

  lemma CutSeparatorAtDashIn(q: string, mid: string, j: nat)
    requires j < |mid| && (mid[j] == '-' || mid[j] == '_') && AllSpace(mid[..j]) && AllSpace(mid[j + 1..])
    requires q == [] || !IsSpace(q[|q| - 1])
    ensures CutSeparator(q + mid).Some? && TrimEnd(CutSeparator(q + mid).value) == q
  {
    var m1, m2 := mid[..j], mid[j + 1..];
    assert mid == m1 + [mid[j]] + m2;
    ConcatAssoc(q, m1 + [mid[j]], m2);
    ConcatAssoc(q, m1, [mid[j]]);
    CutSeparatorAtDash(q + m1, mid[j], m2);
    TrimEndOverSpaces(q, m1);
    TrimEndOfNonSpaceEnd(q);
  }

  lemma CutSeparatorOf(q: string, mid: string)
    requires SeparatorRun(mid)
    requires q == [] || (!IsSpace(q[|q| - 1]) && q[|q| - 1] != '-' && q[|q| - 1] != '_')
    ensures CutSeparator(q + mid).Some? && TrimEnd(CutSeparator(q + mid).value) == q
  {
    if AllSpace(mid) && ' ' in mid {
      CutSeparatorAtSpace(q, mid);
      TrimEndOfNonSpaceEnd(q);
    } else {
      var j :| 0 <= j < |mid| && (mid[j] == '-' || mid[j] == '_') && AllSpace(mid[..j]) && AllSpace(mid[j + 1..]);
      CutSeparatorAtDashIn(q, mid, j);
    }
  }

  /** Reading from the right, step 3 takes apart a text that ends in a match of the pattern. */
  lemma StripLocaleSteps(x: string, b: string, d: string, e: string, f: string)
    requires CutWord(x, "us") == Some(b) && CutSeparator(b) == Some(d)
    requires CutWord(d, "en") == Some(e) && CutWord(e, "-") == Some(f)
    ensures StripLocale(x) == TrimEnd(f)
  {
  }

  lemma LocaleTextAfter(p: string, w1: string, w2: string, mid: string, w5: string)
    ensures p + LocaleText(w1, w2, mid, w5) == p + w1 + "-" + w2 + "en" + mid + "us" + w5
  {
  }

  lemma CutEnOfMatch(beforeEn: string, d: string)
    requires TrimEnd(d) == beforeEn + "en"
    ensures CutWord(d, "en") == Some(beforeEn)
  {
    CutWordAfterTrim(d, "en");
    assert beforeEn + "en" + [] == beforeEn + "en";
    CutWordOf(beforeEn, "en", []);
  }

  lemma StripLocaleOfMatch(p: string, w1: string, w2: string, mid: string, w5: string)
    requires AllSpace(w1) && AllSpace(w2) && SeparatorRun(mid) && AllSpace(w5)
    ensures StripLocale(p + LocaleText(w1, w2, mid, w5)) == TrimEnd(p)
  {
    StripLocaleOfMatchAt(p + w1, w2, mid, w5);
    LocaleTextAfter(p, w1, w2, mid, w5);
    TrimEndOverSpaces(p, w1);
  }

  lemma StripLocaleOfMatchAt(q: string, w2: string, mid: string, w5: string)
    requires AllSpace(w2) && SeparatorRun(mid) && AllSpace(w5)
    ensures StripLocale(q + "-" + w2 + "en" + mid + "us" + w5) == TrimEnd(q)
  {
    var beforeEn := q + "-" + w2;
    CutWordOf(beforeEn + "en" + mid, "us", w5);
    var d := CutEnAfterSeparator(beforeEn, mid);
    CutWordOf(q, "-", w2);
    StripLocaleSteps(beforeEn + "en" + mid + "us" + w5, beforeEn + "en" + mid, d, beforeEn, q);
  }

  lemma CutEnAfterSeparator(beforeEn: string, mid: string) returns (d: string)
    requires SeparatorRun(mid)
    ensures CutSeparator(beforeEn + "en" + mid) == Some(d)
    ensures CutWord(d, "en") == Some(beforeEn)
  {
    var pre := beforeEn + "en";
    assert pre[|pre| - 1] == 'n';
    CutSeparatorOf(pre, mid);
    d := CutSeparator(pre + mid).value;
    CutEnOfMatch(beforeEn, d);
  }

  lemma CutWordParts(s: string, w: string) returns (sp: string)
    requires CutWord(s, w).Some?
    ensures AllSpace(sp) && s == CutWord(s, w).value + w + sp
  {
    sp := s[|CutWord(s, w).value| + |w|..];
  }

  lemma CutSeparatorParts(b: string) returns (mid: string)
    requires CutSeparator(b).Some?
    ensures SeparatorRun(mid) && b == CutSeparator(b).value + mid
  {
    mid := b[|CutSeparator(b).value|..];
  }

  lemma TrailingSpaces(f: string) returns (sp: string)
    ensures AllSpace(sp) && f == TrimEnd(f) + sp
  {
    TrimEndIsPrefix(f);
    sp := f[|TrimEnd(f)|..];
  }

  lemma AssembleLocale(r: string, sp1: string, sp2: string, sp3: string, midB: string, sp5: string)
    ensures r + sp1 + "-" + sp2 + "en" + sp3 + midB + "us" + sp5 == r + LocaleText(sp1, sp2, sp3 + midB, sp5)
  {
  }

  /** When step 3 cuts something off, what it cuts off matches the locale pattern. */
  lemma StripLocaleSound(x: string)
    ensures StripLocale(x) == x || LocaleSuffix(x[|StripLocale(x)|..])
  {
    var r := StripLocale(x);
    if r != x {
      var b := CutWord(x, "us").value;
      var d := CutSeparator(b).value;
      var e := CutWord(d, "en").value;
      var f := CutWord(e, "-").value;
      var sp5 := CutWordParts(x, "us");
      var midB := CutSeparatorParts(b);
      var sp3 := CutWordParts(d, "en");
      var sp2 := CutWordParts(e, "-");
      var sp1 := TrailingSpaces(f);
      SeparatorRunAfterSpaces(sp3, midB);
      AssembleLocale(r, sp1, sp2, sp3, midB, sp5);
      assert x[|r|..] == LocaleText(sp1, sp2, sp3 + midB, sp5);
    }
  }

  /** Given any match of the locale pattern, step 3 cuts just before the whitespace that precedes it. */
  lemma StripLocaleAtMatch(x: string, i: nat)
    requires i <= |x| && LocaleSuffix(x[i..])
    ensures StripLocale(x) == TrimEnd(x[..i])
  {
    var w1, w2, mid, w5 :|
      && AllSpace(w1) && AllSpace(w2) && SeparatorRun(mid) && AllSpace(w5)
      && x[i..] == LocaleText(w1, w2, mid, w5);
    assert x == x[..i] + LocaleText(w1, w2, mid, w5);
    StripLocaleOfMatch(x[..i], w1, w2, mid, w5);
  }

  /**
   * Step 3 is `re.sub` of the locale pattern anchored at the end: the text is cut at the
   * leftmost position from which the rest matches, and left alone when there is none.
   */
  lemma StripLocaleCutsLeftmostMatch(x: string)
    ensures StripLocale(x) == x <==> forall i :: 0 <= i <= |x| ==> !LocaleSuffix(x[i..])
    ensures StripLocale(x) != x ==>
      && LocaleSuffix(x[|StripLocale(x)|..])
      && forall i :: 0 <= i < |StripLocale(x)| ==> !LocaleSuffix(x[i..])
  {
    var r := StripLocale(x);
    StripLocaleSound(x);
    forall i | 0 <= i <= |x| && LocaleSuffix(x[i..])
      ensures r != x && i >= |r|
    {
      StripLocaleAtMatch(x, i);
      assert x[i..] != [];
    }
  }

  predicate IsAsciiAlnum(c: char) {
    '0' <= c <= '9' || 'a' <= c <= 'z' || 'A' <= c <= 'Z'
  }

  lemma {:induction false} TrimStartBeforeText(s: string, tag: string)
    requires exists i :: 0 <= i < |s| && !IsSpace(s[i])
    ensures TrimStart(s + tag) == TrimStart(s) + tag
  {
    if IsSpace(s[0]) {
      assert (s + tag)[1..] == s[1..] + tag;
      var i :| 0 <= i < |s| && !IsSpace(s[i]);
      assert !IsSpace(s[1..][i - 1]);
      TrimStartBeforeText(s[1..], tag);
    }
  }

  lemma LowerTextAppend(a: string, b: string)
    ensures LowerText(a + b) == LowerText(a) + LowerText(b)
  {
  }

  lemma StripBeforeTag(s: string, tag: string)
    requires |s| > 0 && !IsSpace(s[|s| - 1])
    requires |tag| > 0 && !IsSpace(tag[|tag| - 1])
    ensures Strip(s + tag) == Strip(s) + tag
  {
    TrimEndOfNonSpaceEnd(s + tag);
    TrimEndOfNonSpaceEnd(s);
    TrimStartBeforeText(s, tag);
  }

  /**
   * A header followed by a locale tag such as " - en-US" normalises like the header alone,
   * when the header ends in a letter or digit and has no '-' of its own.
   */
  lemma LocaleTagIgnored(s: string, tag: string)
    requires |s| > 0 && IsAsciiAlnum(s[|s| - 1]) && '-' !in s
    requires |tag| > 0 && !IsSpace(tag[|tag| - 1]) && LocaleSuffix(LowerText(tag))
    ensures Norm(Some(s + tag)) == Norm(Some(s))
  {
    UnsuffixedIgnoresTag(s, tag);
  }

  /**
   * A header that ends in a letter or digit, followed by a locale tag, normalises like the
   * header with the tag cut off and steps 1 and 2 applied; the header may hold '-' itself.
   */
  lemma TaggedHeaderNorm(s: string, tag: string)
    requires |s| > 0 && IsAsciiAlnum(s[|s| - 1])
    requires |tag| > 0 && !IsSpace(tag[|tag| - 1]) && LocaleSuffix(LowerText(tag))
    ensures Norm(Some(s + tag)) == Separate(LowerText(Strip(s)))
  {
    UnsuffixedDropsTag(s, tag);
  }

  lemma StripEndsLike(s: string)
    requires |s| > 0 && !IsSpace(s[|s| - 1])
    ensures |Strip(s)| > 0 && Strip(s)[|Strip(s)| - 1] == s[|s| - 1]
  {
    TrimEndOfNonSpaceEnd(s);
    StripAt(s, |Strip(s)| - 1);
  }

  lemma LowerAlnumIsNotSpace(c: char)
    requires IsAsciiAlnum(c)
    ensures !IsSpace(LowerChar(c))
  {
  }

  lemma StripKeepsNoDash(s: string)
    requires '-' !in s
    ensures '-' !in Strip(s)
  {
    var t := Strip(s);
    forall i | 0 <= i < |t|
      ensures t[i] != '-'
    {
      StripAt(s, i);
    }
  }

  lemma LowerKeepsNoDash(t: string)
    requires '-' !in t
    ensures '-' !in LowerText(t)
  {
    forall i | 0 <= i < |t|
      ensures LowerText(t)[i] != '-'
    {
      assert t[i] != '-';
    }
  }

  lemma LoweredHeaderEnd(s: string)
    requires |s| > 0 && IsAsciiAlnum(s[|s| - 1]) && '-' !in s
    ensures var y := LowerText(Strip(s)); |y| > 0 && !IsSpace(y[|y| - 1]) && '-' !in y
  {
    StripEndsLike(s);
    StripKeepsNoDash(s);
    LowerKeepsNoDash(Strip(s));
    LowerAlnumIsNotSpace(s[|s| - 1]);
  }

  /**
   * Steps 1 to 3 on a header that ends in a letter or digit, followed by a locale tag: the
   * tag and the whitespace before it are cut, whatever the header holds.
   */
  lemma UnsuffixedDropsTag(s: string, tag: string)
    requires |s| > 0 && IsAsciiAlnum(s[|s| - 1])
    requires |tag| > 0 && !IsSpace(tag[|tag| - 1]) && LocaleSuffix(LowerText(tag))
    ensures Unsuffixed(s + tag) == LowerText(Strip(s))
  {
    StripBeforeTag(s, tag);
    LowerTextAppend(Strip(s), tag);
    StripEndsLike(s);
    LowerAlnumIsNotSpace(s[|s| - 1]);
    var y := LowerText(Strip(s));
    var x := y + LowerText(tag);
    assert x[|y|..] == LowerText(tag);
    StripLocaleAtMatch(x, |y|);
    assert x[..|y|] == y;
    TrimEndOfNonSpaceEnd(y);
  }

  /** With no '-' in the header, steps 1 to 3 give the same text with or without the tag. */
  lemma UnsuffixedIgnoresTag(s: string, tag: string)
    requires |s| > 0 && IsAsciiAlnum(s[|s| - 1]) && '-' !in s
    requires |tag| > 0 && !IsSpace(tag[|tag| - 1]) && LocaleSuffix(LowerText(tag))
    ensures Unsuffixed(s + tag) == Unsuffixed(s)
  {
    UnsuffixedDropsTag(s, tag);
    LoweredHeaderEnd(s);
    StripLocaleWithoutDash(LowerText(Strip(s)));
  }

  /** The tag " - en-US" of the app's instructions matches the locale pattern once lowered. */
  lemma EnUsTagMatches()
    ensures LowerText(" - en-US") == " - en-us"
    ensures LocaleSuffix(LowerText(" - en-US"))
  {
    assert LowerText(" - en-US") == " - en-us";
    assert SeparatorRun("-") by {
      assert "-"[0] == '-' && AllSpace("-"[..0]) && AllSpace("-"[1..]);
    }
    assert AllSpace(" ") && AllSpace("");
    assert LocaleText(" ", " ", "-", "") == " - en-us";
  }

  /** The example of the app's instructions: "Walmart Brand Name - en-US" matches "Walmart Brand Name". */
  lemma WalmartBrandNameExample()
    ensures Norm(Some("Walmart Brand Name - en-US")) == Norm(Some("Walmart Brand Name"))
  {
    EnUsTagMatches();
    assert "Walmart Brand Name" + " - en-US" == "Walmart Brand Name - en-US";
    LocaleTagIgnored("Walmart Brand Name", " - en-US");
  }

  /** Steps 1 to 3 on "E-Mail": it is stripped and lowered, and has no tag to cut. */
  lemma EMailUnsuffixed()
    ensures LowerText(Strip("E-Mail")) == "e-mail"
    ensures Unsuffixed("E-Mail") == "e-mail"
  {
    assert Strip("E-Mail") == "E-Mail" by {
      TrimEndOfNonSpaceEnd("E-Mail");
      TrimStartOfNonSpaceStart("E-Mail");
    }
    assert LowerText("E-Mail") == "e-mail";
    TrimEndOfNonSpaceEnd("e-mail");
    assert !EndsWith("e-mail", "us");
  }

  /** A hyphenated header keeps its own '-' and loses its locale tag. */
  lemma HyphenatedHeaderExample()
    ensures Norm(Some("E-Mail - en-US")) == Norm(Some("E-Mail"))
  {
    EnUsTagMatches();
    EMailUnsuffixed();
    var tagged := "E-Mail" + " - en-US";
    assert tagged == "E-Mail - en-US";
    TaggedHeaderNorm("E-Mail", " - en-US");
    assert Norm(Some(tagged)) == Separate("e-mail");
    assert Norm(Some("E-Mail")) == Separate(Unsuffixed("E-Mail"));
  }
}
