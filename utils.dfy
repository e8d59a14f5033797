/** The text and number helpers: an e-mail syntax check, "MM:SS" duration
    formatting, URL slug generation and the release-year range check.
    Character classes are ASCII (`\w` is `[A-Za-z0-9_]`), the current year is a
    parameter, and every function is total. */
module Utils {
  import opened Options
  import opened Strings

  // ----------------------------------------------------------------- e-mail

  /** `\w` on ASCII: letters, digits and underscore. */
  predicate IsWordChar(c: char) { IsLower(c) || IsUpper(c) || IsDigit(c) || c == '_' }

  /** The bracket class `[\w.-]` of the local part and the domain. */
  predicate IsAddressChar(c: char) { IsWordChar(c) || c == '.' || c == '-' }

  predicate AllWordChars(s: string) { forall i :: 0 <= i < |s| ==> IsWordChar(s[i]) }

  predicate AllAddressChars(s: string) { forall i :: 0 <= i < |s| ==> IsAddressChar(s[i]) }

  /** The three pieces an accepted address splits into: a local part and a
      domain body over `[\w.-]+`, and a top-level label over `\w+`. */
  predicate EmailParts(local: string, domain: string, tld: string) {
    && |local| > 0 && AllAddressChars(local)
    && |domain| > 0 && AllAddressChars(domain)
    && |tld| > 0 && AllWordChars(tld)
  }

  /** The language of `[\w.-]+@[\w.-]+\.\w+`, stated by decomposition. */
  ghost predicate EmailShape(s: string) {
    exists local, domain, tld :: EmailParts(local, domain, tld) && s == local + "@" + domain + "." + tld
  }

  /** Index of the first `c` in `s`, or `|s|` when there is none. */
  function IndexOf(s: string, c: char): (i: nat)
    ensures i <= |s|
    ensures i < |s| ==> s[i] == c
    ensures forall k :: 0 <= k < i ==> s[k] != c
  {
    if s == [] || s[0] == c then 0 else 1 + IndexOf(s[1..], c)
  }

  /** Index of the last `c` in `s`, or -1 when there is none. */
  function LastIndexOf(s: string, c: char): (i: int)
    ensures -1 <= i < |s|
    ensures 0 <= i ==> s[i] == c
    ensures forall k :: i < k < |s| ==> s[k] != c
  {
    if s == [] then -1
    else if s[|s| - 1] == c then |s| - 1
    else LastIndexOf(s[..|s| - 1], c)
  }

  /** Whole-string match of the address pattern. Since `@` is outside
      `[\w.-]`, the local part ends at the first `@`; since `.` is outside
      `\w`, the top-level label starts after the last `.`. */
  predicate MatchesEmailPattern(s: string) {
    var at := IndexOf(s, '@');
    && 0 < at < |s|
    && AllAddressChars(s[..at])
    && var rest := s[at + 1..];
       var dot := LastIndexOf(rest, '.');
       && AllAddressChars(rest)
       && 0 < dot < |rest| - 1
       && AllWordChars(rest[dot + 1..])
  }

  /** `validar_correo`: `re.match` of `^[\w\.-]+@[\w\.-]+\.\w+$`. Python's `$`
      also matches just before a newline that ends the string, so one trailing
      "\n" is accepted after an otherwise matching address. */
  predicate ValidEmail(s: string) {
    || MatchesEmailPattern(s)
    || (|s| > 0 && s[|s| - 1] == '\n' && MatchesEmailPattern(s[..|s| - 1]))
  }

  /** The matcher accepts exactly the strings of the form local@domain.tld. */
  lemma EmailPatternCharacterised(s: string)
    ensures MatchesEmailPattern(s) <==> EmailShape(s)
  {
    if MatchesEmailPattern(s) {
      MatchSplits(s);
    }
    if EmailShape(s) {
      var local, domain, tld :| EmailParts(local, domain, tld) && s == local + "@" + domain + "." + tld;
      PartsMatch(local, domain, tld);
    }
  }

  lemma MatchSplits(s: string)
    requires MatchesEmailPattern(s)
    ensures EmailShape(s)
  {
    var at := IndexOf(s, '@');
    var rest := s[at + 1..];
    var dot := LastIndexOf(rest, '.');
    var local, domain, tld := s[..at], rest[..dot], rest[dot + 1..];
    assert s == local + "@" + domain + "." + tld;
    assert EmailParts(local, domain, tld);
  }

  lemma PartsMatch(local: string, domain: string, tld: string)
    requires EmailParts(local, domain, tld)
    ensures MatchesEmailPattern(local + "@" + domain + "." + tld)
  {
    var rest := domain + "." + tld;
    RestShape(domain, tld);
    var s := local + "@" + domain + "." + tld;
    assert s == local + ['@'] + rest;
    var at := |local|;
    assert IndexOf(s, '@') == at by {
      assert s[at] == '@';
      forall k | 0 <= k < at ensures s[k] != '@' {
        assert s[k] == local[k];
      }
    }
    assert s[..at] == local;
    assert s[at + 1..] == rest;
  }

  lemma RestShape(domain: string, tld: string)
    requires |domain| > 0 && AllAddressChars(domain) && |tld| > 0 && AllWordChars(tld)
    ensures var rest := domain + "." + tld;
      AllAddressChars(rest) && LastIndexOf(rest, '.') == |domain| && rest[|domain| + 1..] == tld
  {
    var rest := domain + "." + tld;
    assert rest[|domain|] == '.';
    forall k | |domain| < k < |rest| ensures rest[k] != '.' {
      assert rest[k] == tld[k - |domain| - 1];
    }
    assert rest[|domain| + 1..] == tld;
    forall k | 0 <= k < |rest| ensures IsAddressChar(rest[k]) {
      if k < |domain| { assert rest[k] == domain[k]; }
      else if k > |domain| { assert rest[k] == tld[k - |domain| - 1]; }
    }
  }

  /** On a string without newlines `validar_correo` accepts exactly the
      strings local@domain.tld. */
  lemma ValidEmailCharacterised(s: string)
    requires '\n' !in s
    ensures ValidEmail(s) <==> EmailShape(s)
  {
    EmailPatternCharacterised(s);
  }

  /** An accepted address holds exactly one `@`: none, or two or more, is rejected. */
  lemma ValidEmailHasOneAt(s: string)
    ensures ValidEmail(s) ==> multiset(s)['@'] == 1
  {
    if MatchesEmailPattern(s) {
      MatchHasOneAt(s);
    } else if ValidEmail(s) {
      var t := s[..|s| - 1];
      MatchHasOneAt(t);
      assert s == t + "\n";
    }
  }

  lemma MatchHasOneAt(s: string)
    requires MatchesEmailPattern(s)
    ensures multiset(s)['@'] == 1
  {
    var at := IndexOf(s, '@');
    var rest := s[at + 1..];
    assert s == s[..at] + "@" + rest;
    assert '@' !in s[..at] by {
      forall k | 0 <= k < at ensures s[..at][k] != '@' { }
    }
    assert '@' !in rest by {
      forall k | 0 <= k < |rest| ensures rest[k] != '@' {
        assert IsAddressChar(rest[k]);
      }
    }
  }

  /** As written, a trailing newline slips through the `$` anchor. */
  lemma ValidEmailAcceptsTrailingNewline()
    ensures ValidEmail("a@b.c\n") && !MatchesEmailPattern("a@b.c\n")
  {
    var s := "a@b.c\n";
    assert IndexOf(s, '@') == 1;
    assert s[..5] == "a@b.c";
    assert IndexOf(s[..5], '@') == 1;
    assert s[..5][2..] == "b.c";
    assert LastIndexOf("b.c", '.') == 1;
    assert s[2..] == "b.c\n";
    assert !IsAddressChar(s[2..][3]);
  }

  // --------------------------------------------------------------- duration

  /** Decimal digits of `n`, most significant first, without leading zeros. */
  function Digits(n: nat): (r: string)
    ensures |r| > 0 && AllDigits(r)
    ensures n < 10 <==> |r| == 1
    ensures n > 0 ==> r[0] != '0'
  {
    if n < 10 then [DigitChar(n)] else Digits(n / 10) + [DigitChar(n % 10)]
  }

  /** Python's `format(n, "02")`: zero-padded to width two, the sign counting
      towards the width, so -1 gives "-1" and 7 gives "07". */
  function ZeroPad2(n: int): string {
    if n < 0 then "-" + Digits(-n)
    else if n < 10 then "0" + Digits(n)
    else Digits(n)
  }

  /** `formatear_duracion`: minutes, a colon and the remaining seconds. Python's
      `//` and `%` round towards minus infinity; for the positive divisor 60
      they agree with Dafny's Euclidean `/` and `%`. */
  function FormatDuration(seconds: int): (r: string)
    ensures |r| >= 5 && r[|r| - 3] == ':'
    ensures IsDigit(r[|r| - 2]) && r[|r| - 2] <= '5' && IsDigit(r[|r| - 1])
    ensures seconds >= 0 ==> AllDigits(r[..|r| - 3])
    ensures 0 <= seconds < 600 ==> |r| == 5
    ensures seconds >= 0 && |r| > 5 ==> r[0] != '0'
  {
    var minutes, rest := seconds / 60, seconds % 60;
    assert rest >= 10 ==> Digits(rest) == [DigitChar(rest / 10), DigitChar(rest % 10)];
    ZeroPad2(minutes) + ":" + ZeroPad2(rest)
  }

  /** The value of a string of decimal digits. */
  function NumberValue(s: string): nat
    requires AllDigits(s)
  {
    if s == [] then 0 else 10 * NumberValue(s[..|s| - 1]) + DigitValue(s[|s| - 1])
  }

  /** Reads a formatted duration back: a minutes field of digits, optionally
      after a minus sign, a colon, and a two-digit seconds field. */
  function ParseDuration(t: string): Option<int> {
    if |t| < 4 || t[|t| - 3] != ':' || !AllDigits(t[|t| - 2..]) then None
    else
      var minutes, secs := t[..|t| - 3], NumberValue(t[|t| - 2..]);
      if |minutes| > 0 && AllDigits(minutes) then Some(60 * NumberValue(minutes) + secs)
      else if |minutes| > 1 && minutes[0] == '-' && AllDigits(minutes[1..]) then Some(-60 * NumberValue(minutes[1..]) + secs)
      else None
  }

  lemma {:induction false} DigitsValue(n: nat)
    ensures NumberValue(Digits(n)) == n
  {
    if n >= 10 {
      DigitsValue(n / 10);
      var d := Digits(n);
      assert d[..|d| - 1] == Digits(n / 10);
    }
  }

  lemma {:induction false} LeadingZeroValue(s: string)
    requires AllDigits(s)
    ensures AllDigits("0" + s) && NumberValue("0" + s) == NumberValue(s)
  {
    if s != [] {
      LeadingZeroValue(s[..|s| - 1]);
      assert ("0" + s)[..|s|] == "0" + s[..|s| - 1];
    }
  }

  lemma ZeroPad2Value(n: nat)
    ensures AllDigits(ZeroPad2(n)) && NumberValue(ZeroPad2(n)) == n
  {
    DigitsValue(n);
    if n < 10 {
      LeadingZeroValue(Digits(n));
    }
  }

  /** Reading the two fields of `FormatDuration(s)` back as numbers m and r
      gives 60 * m + r == s, for every integer s. */
  lemma FormatDurationRoundTrip(seconds: int)
    ensures ParseDuration(FormatDuration(seconds)) == Some(seconds)
  {
    var minutes, rest := seconds / 60, seconds % 60;
    var m, r := ZeroPad2(minutes), ZeroPad2(rest);
    SecondsField(rest);
    assert FormatDuration(seconds) == m + ":" + r;
    if minutes >= 0 {
      ZeroPad2Value(minutes);
      ParseNonNegative(m, r);
    } else {
      DigitsValue(-minutes);
      assert m[1..] == Digits(-minutes);
      ParseNegative(m, r);
    }
  }

  lemma SecondsField(rest: int)
    requires 0 <= rest < 60
    ensures |ZeroPad2(rest)| == 2 && AllDigits(ZeroPad2(rest)) && NumberValue(ZeroPad2(rest)) == rest
  {
    ZeroPad2Value(rest);
    assert rest >= 10 ==> Digits(rest) == [DigitChar(rest / 10), DigitChar(rest % 10)];
  }

  lemma SplitFields(m: string, r: string)
    requires |r| == 2
    ensures var t := m + ":" + r; |t| == |m| + 3 && t[|t| - 3] == ':' && t[|t| - 2..] == r && t[..|t| - 3] == m
  {
    var t := m + ":" + r;
    assert t[|t| - 2] == r[0] && t[|t| - 1] == r[1];
  }

  lemma ParseNonNegative(m: string, r: string)
    requires |r| == 2 && AllDigits(r) && |m| > 0 && AllDigits(m)
    ensures ParseDuration(m + ":" + r) == Some(60 * NumberValue(m) + NumberValue(r))
  {
    SplitFields(m, r);
  }

  lemma ParseNegative(m: string, r: string)
    requires |r| == 2 && AllDigits(r) && |m| > 1 && m[0] == '-' && AllDigits(m[1..])
    ensures ParseDuration(m + ":" + r) == Some(-60 * NumberValue(m[1..]) + NumberValue(r))
  {
    SplitFields(m, r);
    assert !IsDigit(m[0]);
  }

  /** Minutes are not clamped to two digits. */
  lemma FormatDurationExamples()
    ensures FormatDuration(180) == "03:00"
    ensures FormatDuration(6000) == "100:00"
    ensures FormatDuration(-1) == "-1:59"
  {
    assert Digits(100) == Digits(10) + "0";
    assert Digits(59) == "59";
  }

  // ------------------------------------------------------------------- slug

  /** Python's `\s` on `str`: the ASCII controls tab to carriage return, the
      separators 0x1C to 0x1F, space, and the Unicode spaces. */
  predicate IsSpace(c: char) {
    || '\t' <= c <= '\r'
    || '\U{1C}' <= c <= ' '
    || c == '\U{85}' || c == '\U{A0}' || c == '\U{1680}'
    || '\U{2000}' <= c <= '\U{200A}'
    || c == '\U{2028}' || c == '\U{2029}' || c == '\U{202F}' || c == '\U{205F}' || c == '\U{3000}'
  }

  /** The class `[a-z0-9-]` a slug is made of. */
  predicate IsSlugChar(c: char) { IsLower(c) || IsDigit(c) || c == '-' }

  predicate AllSlugChars(s: string) { forall i :: 0 <= i < |s| ==> IsSlugChar(s[i]) }

  predicate NoDoubleHyphen(s: string) {
    forall i :: 0 <= i < |s| - 1 ==> !(s[i] == '-' && s[i + 1] == '-')
  }

  /** A finished slug: only `[a-z0-9-]`, no "--", no hyphen at either end. */
  predicate IsSlug(s: string) {
    && AllSlugChars(s)
    && NoDoubleHyphen(s)
    && (s != [] ==> s[0] != '-' && s[|s| - 1] != '-')
  }

  /** `re.sub(r'\s+', '-', s)`: every maximal run of whitespace becomes one
      hyphen (the last character of a run yields it, the others vanish). */
  function HyphenateSpaces(s: string): string {
    if s == [] then []
    else if !IsSpace(s[0]) then [s[0]] + HyphenateSpaces(s[1..])
    else if |s| > 1 && IsSpace(s[1]) then HyphenateSpaces(s[1..])
    else "-" + HyphenateSpaces(s[1..])
  }

  /** `re.sub(r'[^a-z0-9-]', '', s)`. */
  function KeepSlugChars(s: string): (r: string)
    ensures AllSlugChars(r)
  {
    if s == [] then []
    else if IsSlugChar(s[0]) then [s[0]] + KeepSlugChars(s[1..])
    else KeepSlugChars(s[1..])
  }

  /** `re.sub(r'-{2,}', '-', s)`: every maximal run of hyphens becomes one. */
  function CollapseHyphens(s: string): (r: string)
    ensures s == [] <==> r == []
    ensures s != [] ==> r[0] == s[0]
    ensures NoDoubleHyphen(r)
    ensures AllSlugChars(s) ==> AllSlugChars(r)
  {
    if s == [] then []
    else if s[0] == '-' && |s| > 1 && s[1] == '-' then CollapseHyphens(s[1..])
    else [s[0]] + CollapseHyphens(s[1..])
  }

  /** `s.lstrip('-')`. */
  function TrimLeading(s: string): (r: string)
    ensures |r| <= |s| && r == s[|s| - |r|..]
    ensures r != [] ==> r[0] != '-'
  {
    if s != [] && s[0] == '-' then TrimLeading(s[1..]) else s
  }

  /** `s.rstrip('-')`. */
  function TrimTrailing(s: string): (r: string)
    ensures |r| <= |s| && r == s[..|r|]
    ensures r != [] ==> r[|r| - 1] != '-'
  {
    if s != [] && s[|s| - 1] == '-' then TrimTrailing(s[..|s| - 1]) else s
  }

  /** `s.strip('-')`. */
  function TrimHyphens(s: string): string {
    TrimTrailing(TrimLeading(s))
  }

  /** `generar_slug`: lower-case, whitespace runs to "-", drop everything
      outside `[a-z0-9-]`, collapse hyphen runs, trim hyphens. */
  function Slug(text: string): (r: string)
    ensures IsSlug(r)
  {
    var collapsed := CollapseHyphens(KeepSlugChars(HyphenateSpaces(ToLower(text))));
    var r := TrimHyphens(collapsed);
    SubstringKeepsShape(collapsed, TrimLeading(collapsed), |collapsed| - |TrimLeading(collapsed)|);
    SubstringKeepsShape(TrimLeading(collapsed), r, 0);
    r
  }

  lemma SubstringKeepsShape(s: string, t: string, k: nat)
    requires AllSlugChars(s) && NoDoubleHyphen(s)
    requires k + |t| <= |s| && t == s[k..k + |t|]
    ensures AllSlugChars(t) && NoDoubleHyphen(t)
  {
    forall i | 0 <= i < |t| ensures IsSlugChar(t[i]) {
      assert t[i] == s[k + i];
    }
    forall i | 0 <= i < |t| - 1 ensures !(t[i] == '-' && t[i + 1] == '-') {
      assert t[i] == s[k + i] && t[i + 1] == s[k + i + 1];
    }
  }

  lemma {:induction false} HyphenateWithoutSpaces(s: string)
    requires forall i :: 0 <= i < |s| ==> !IsSpace(s[i])
    ensures HyphenateSpaces(s) == s
  {
    if s != [] {
      HyphenateWithoutSpaces(s[1..]);
    }
  }

  lemma {:induction false} KeepSlugCharsOfSlugChars(s: string)
    requires AllSlugChars(s)
    ensures KeepSlugChars(s) == s
  {
    if s != [] {
      KeepSlugCharsOfSlugChars(s[1..]);
    }
  }

  lemma {:induction false} CollapseWithoutRuns(s: string)
    requires NoDoubleHyphen(s)
    ensures CollapseHyphens(s) == s
  {
    if s != [] {
      CollapseWithoutRuns(s[1..]);
    }
  }

  /** A slug is a fixed point of the pipeline. */
  lemma SlugOfSlug(s: string)
    requires IsSlug(s)
    ensures Slug(s) == s
  {
    assert ToLower(s) == s by {
      forall i | 0 <= i < |s| ensures ToLower(s)[i] == s[i] {
        assert IsSlugChar(s[i]);
      }
    }
    forall i | 0 <= i < |s| ensures !IsSpace(s[i]) {
      assert IsSlugChar(s[i]);
    }
    HyphenateWithoutSpaces(s);
    KeepSlugCharsOfSlugChars(s);
    CollapseWithoutRuns(s);
    assert CollapseHyphens(KeepSlugChars(HyphenateSpaces(ToLower(s)))) == s;
    assert TrimLeading(s) == s && TrimTrailing(s) == s;
  }

  /** `generar_slug(generar_slug(t)) == generar_slug(t)`. */
  lemma SlugIdempotent(text: string)
    ensures Slug(Slug(text)) == Slug(text)
  {
    SlugOfSlug(Slug(text));
  }

  /** A word a slug can keep as it is: lower-case letters and digits only. */
  predicate AllLowerAlphanumeric(s: string) {
    forall i :: 0 <= i < |s| ==> IsLower(s[i]) || IsDigit(s[i])
  }

  lemma {:induction false} HyphenateAfterWord(a: string, t: string)
    requires forall i :: 0 <= i < |a| ==> !IsSpace(a[i])
    ensures HyphenateSpaces(a + t) == a + HyphenateSpaces(t)
  {
    if a != [] {
      var s := a + t;
      assert s[0] == a[0] && s[1..] == a[1..] + t;
      assert !IsSpace(s[0]);
      assert HyphenateSpaces(s) == [a[0]] + HyphenateSpaces(a[1..] + t);
      HyphenateAfterWord(a[1..], t);
      assert a == [a[0]] + a[1..];
    } else {
      assert a + t == t;
    }
  }

  /** The whitespace rewrite works piecewise when no whitespace run
      straddles the cut. */
  lemma {:induction false} HyphenateSplit(x: string, y: string)
    requires y == [] || !IsSpace(y[0])
    ensures HyphenateSpaces(x + y) == HyphenateSpaces(x) + HyphenateSpaces(y)
  {
    if x == [] {
      assert x + y == y;
    } else {
      var s := x + y;
      assert s[0] == x[0] && s[1..] == x[1..] + y;
      HyphenateSplit(x[1..], y);
      if !IsSpace(x[0]) {
        assert HyphenateSpaces(s) == [x[0]] + HyphenateSpaces(x[1..] + y);
      } else if |x| == 1 {
        assert x[1..] + y == y;
        assert HyphenateSpaces(x) == "-";
        if y != [] {
          assert HyphenateSpaces(s) == "-" + HyphenateSpaces(y);
        }
      } else if IsSpace(x[1]) {
        assert s[1] == x[1];
        assert HyphenateSpaces(s) == HyphenateSpaces(x[1..] + y);
      } else {
        assert s[1] == x[1];
        assert HyphenateSpaces(s) == "-" + HyphenateSpaces(x[1..] + y);
      }
    }
  }

  /** A non-empty run of whitespace rewrites to exactly one hyphen; with
      `HyphenateSplit` this pins the rewrite of every maximal run. */
  lemma {:induction false} HyphenateRun(w: string)
    requires |w| > 0 && forall i :: 0 <= i < |w| ==> IsSpace(w[i])
    ensures HyphenateSpaces(w) == "-"
  {
    if |w| > 1 {
      assert IsSpace(w[1]);
      HyphenateRun(w[1..]);
    }
  }

  /** A character that may separate words: whitespace or a hyphen. */
  predicate IsGapChar(c: char) { IsSpace(c) || c == '-' }

  /** A non-empty gap of whitespace and hyphens rewrites to hyphens only. */
  lemma {:induction false} HyphenateGap(gap: string)
    requires |gap| > 0 && forall i :: 0 <= i < |gap| ==> IsGapChar(gap[i])
    ensures |HyphenateSpaces(gap)| > 0
    ensures forall i :: 0 <= i < |HyphenateSpaces(gap)| ==> HyphenateSpaces(gap)[i] == '-'
  {
    if |gap| > 1 {
      HyphenateGap(gap[1..]);
    }
  }

  /** `re.sub(r'[^a-z0-9-]', '', s)` works piecewise. */
  lemma {:induction false} KeepSlugCharsAppend(a: string, b: string)
    ensures KeepSlugChars(a + b) == KeepSlugChars(a) + KeepSlugChars(b)
  {
    if a == [] {
      assert a + b == b;
    } else {
      assert (a + b)[0] == a[0] && (a + b)[1..] == a[1..] + b;
      KeepSlugCharsAppend(a[1..], b);
    }
  }

  /** The filter removes every character outside `[a-z0-9-]`. */
  lemma {:induction false} KeepSlugCharsDropsOthers(s: string)
    requires forall i :: 0 <= i < |s| ==> !IsSlugChar(s[i])
    ensures KeepSlugChars(s) == []
  {
    if s != [] {
      KeepSlugCharsDropsOthers(s[1..]);
    }
  }

  /** The hyphen collapse copies a hyphen-free prefix unchanged. */
  lemma {:induction false} CollapseAfterWord(a: string, t: string)
    requires forall i :: 0 <= i < |a| ==> a[i] != '-'
    ensures CollapseHyphens(a + t) == a + CollapseHyphens(t)
  {
    if a == [] {
      assert a + t == t;
    } else {
      var s := a + t;
      assert s[0] == a[0] && s[1..] == a[1..] + t;
      assert CollapseHyphens(s) == [a[0]] + CollapseHyphens(a[1..] + t);
      CollapseAfterWord(a[1..], t);
      assert a == [a[0]] + a[1..];
    }
  }

  /** A non-empty run of hyphens, not followed by another, becomes one. */
  lemma {:induction false} CollapseRun(h: string, b: string)
    requires |h| > 0 && forall i :: 0 <= i < |h| ==> h[i] == '-'
    requires b == [] || b[0] != '-'
    ensures CollapseHyphens(h + b) == "-" + CollapseHyphens(b)
  {
    var s := h + b;
    assert s[0] == '-' && s[1..] == h[1..] + b;
    if |h| == 1 {
      assert s[1..] == b;
    } else {
      assert s[1] == '-';
      CollapseRun(h[1..], b);
    }
  }

  lemma JoinedWordsLower(a: string, gap: string, b: string)
    requires AllLowerAlphanumeric(a) && AllLowerAlphanumeric(b)
    requires forall i :: 0 <= i < |gap| ==> IsGapChar(gap[i])
    ensures ToLower(a + gap + b) == a + gap + b
  {
    var text := a + gap + b;
    forall i | 0 <= i < |text| ensures !IsUpper(text[i]) {
      if i < |a| {
        assert text[i] == a[i];
      } else if i < |a| + |gap| {
        assert text[i] == gap[i - |a|];
      } else {
        assert text[i] == b[i - |a| - |gap|];
      }
    }
  }

  lemma HyphenateJoin(a: string, gap: string, b: string)
    requires |a| > 0 && AllLowerAlphanumeric(a)
    requires |gap| > 0 && forall i :: 0 <= i < |gap| ==> IsGapChar(gap[i])
    requires |b| > 0 && AllLowerAlphanumeric(b)
    ensures HyphenateSpaces(a + gap + b) == a + HyphenateSpaces(gap) + b
  {
    forall i | 0 <= i < |a| ensures !IsSpace(a[i]) {
      assert IsLower(a[i]) || IsDigit(a[i]);
    }
    forall i | 0 <= i < |b| ensures !IsSpace(b[i]) {
      assert IsLower(b[i]) || IsDigit(b[i]);
    }
    assert a + gap + b == a + (gap + b);
    HyphenateAfterWord(a, gap + b);
    HyphenateSplit(gap, b);
    HyphenateWithoutSpaces(b);
  }

  lemma CollapseJoin(a: string, g: string, b: string)
    requires |a| > 0 && AllLowerAlphanumeric(a)
    requires |g| > 0 && forall i :: 0 <= i < |g| ==> g[i] == '-'
    requires |b| > 0 && AllLowerAlphanumeric(b)
    ensures CollapseHyphens(a + g + b) == a + "-" + b
  {
    forall i | 0 <= i < |a| ensures a[i] != '-' {
      assert IsLower(a[i]) || IsDigit(a[i]);
    }
    forall i | 0 <= i < |b| ensures b[i] != '-' {
      assert IsLower(b[i]) || IsDigit(b[i]);
    }
    CollapseWithoutRuns(b);
    CollapseRun(g, b);
    assert CollapseHyphens(g + b) == "-" + b;
    assert a + g + b == a + (g + b);
    CollapseAfterWord(a, g + b);
    assert a + ("-" + b) == a + "-" + b;
  }

  lemma KeepJoin(a: string, g: string, b: string)
    requires AllLowerAlphanumeric(a) && AllLowerAlphanumeric(b)
    requires forall i :: 0 <= i < |g| ==> g[i] == '-'
    ensures KeepSlugChars(a + g + b) == a + g + b
  {
    assert a + g + b == a + (g + b);
    KeepSlugCharsAppend(a, g + b);
    KeepSlugCharsAppend(g, b);
    KeepSlugCharsOfSlugChars(a);
    KeepSlugCharsOfSlugChars(g);
    KeepSlugCharsOfSlugChars(b);
  }

  lemma JoinedIsSlug(a: string, b: string)
    requires |a| > 0 && AllLowerAlphanumeric(a)
    requires |b| > 0 && AllLowerAlphanumeric(b)
    ensures IsSlug(a + "-" + b)
  {
    var h := a + "-" + b;
    forall i | 0 <= i < |h| ensures IsSlugChar(h[i]) && (h[i] == '-' <==> i == |a|) {
      if i < |a| {
        assert h[i] == a[i];
      } else if i > |a| {
        assert h[i] == b[i - |a| - 1];
      }
    }
  }

  /** Any non-empty gap of whitespace and hyphens between two words becomes
      exactly one hyphen: "rock - pop" gives "rock-pop". */
  lemma SlugJoinsWords(a: string, gap: string, b: string)
    requires |a| > 0 && AllLowerAlphanumeric(a)
    requires |gap| > 0 && forall i :: 0 <= i < |gap| ==> IsGapChar(gap[i])
    requires |b| > 0 && AllLowerAlphanumeric(b)
    ensures Slug(a + gap + b) == a + "-" + b
  {
    var h := a + "-" + b;
    JoinedWordsLower(a, gap, b);
    HyphenateJoin(a, gap, b);
    HyphenateGap(gap);
    KeepJoin(a, HyphenateSpaces(gap), b);
    CollapseJoin(a, HyphenateSpaces(gap), b);
    JoinedIsSlug(a, b);
    assert TrimLeading(h) == h && TrimTrailing(h) == h;
  }

  /** The string without its hyphens. */
  function RemoveHyphens(s: string): (r: string)
    ensures '-' !in r
  {
    if s == [] then []
    else if s[0] == '-' then RemoveHyphens(s[1..])
    else [s[0]] + RemoveHyphens(s[1..])
  }

  /** The letters `a-z` and digits of the string, in order. */
  function KeepAlphanumerics(s: string): string {
    if s == [] then []
    else if IsLower(s[0]) || IsDigit(s[0]) then [s[0]] + KeepAlphanumerics(s[1..])
    else KeepAlphanumerics(s[1..])
  }

  lemma {:induction false} RemoveHyphensAppend(a: string, b: string)
    ensures RemoveHyphens(a + b) == RemoveHyphens(a) + RemoveHyphens(b)
  {
    if a != [] {
      RemoveHyphensAppend(a[1..], b);
      assert (a + b)[0] == a[0] && (a + b)[1..] == a[1..] + b;
    } else {
      assert a + b == b;
    }
  }

  lemma {:induction false} TrimLeadingKeepsLetters(s: string)
    ensures RemoveHyphens(TrimLeading(s)) == RemoveHyphens(s)
  {
    if s != [] && s[0] == '-' {
      TrimLeadingKeepsLetters(s[1..]);
    }
  }

  lemma {:induction false} TrimTrailingKeepsLetters(s: string)
    ensures RemoveHyphens(TrimTrailing(s)) == RemoveHyphens(s)
  {
    if s != [] && s[|s| - 1] == '-' {
      var init := s[..|s| - 1];
      TrimTrailingKeepsLetters(init);
      assert s == init + "-";
      RemoveHyphensAppend(init, "-");
    }
  }

  lemma {:induction false} CollapseKeepsLetters(s: string)
    ensures RemoveHyphens(CollapseHyphens(s)) == RemoveHyphens(s)
  {
    if s != [] {
      CollapseKeepsLetters(s[1..]);
    }
  }

  lemma {:induction false} KeepSlugCharsLetters(s: string)
    ensures RemoveHyphens(KeepSlugChars(s)) == KeepAlphanumerics(s)
  {
    if s != [] {
      KeepSlugCharsLetters(s[1..]);
    }
  }

  lemma {:induction false} HyphenateKeepsAlphanumerics(s: string)
    ensures KeepAlphanumerics(HyphenateSpaces(s)) == KeepAlphanumerics(s)
  {
    if s != [] {
      HyphenateKeepsAlphanumerics(s[1..]);
    }
  }

  /** Deleting the hyphens of a slug gives the lower-cased text filtered to
      `[a-z0-9]`, in the same order: nothing else is kept, nothing reordered. */
  lemma SlugLetters(text: string)
    ensures RemoveHyphens(Slug(text)) == KeepAlphanumerics(ToLower(text))
  {
    var lowered := ToLower(text);
    var spaced := HyphenateSpaces(lowered);
    var kept := KeepSlugChars(spaced);
    var collapsed := CollapseHyphens(kept);
    TrimLeadingKeepsLetters(collapsed);
    TrimTrailingKeepsLetters(TrimLeading(collapsed));
    CollapseKeepsLetters(kept);
    KeepSlugCharsLetters(spaced);
    HyphenateKeepsAlphanumerics(lowered);
  }

  /** The slug is empty exactly when the text has no ASCII letter or digit. */
  lemma SlugEmptyIff(text: string)
    ensures Slug(text) == [] <==> KeepAlphanumerics(ToLower(text)) == []
  {
    var r := Slug(text);
    SlugLetters(text);
    if r != [] {
      assert r[0] != '-';
      assert RemoveHyphens(r) == [r[0]] + RemoveHyphens(r[1..]);
    }
  }

  // ------------------------------------------------------------------- year

  /** `validar_año`, with the clock's current year passed in. */
  predicate ValidYear(year: int, currentYear: int) {
    1900 <= year <= currentYear
  }

  /** Both ends of the window are inclusive, the next year is never valid, and
      a year accepted now stays accepted as the clock moves on. */
  lemma ValidYearWindow(currentYear: int)
    ensures currentYear >= 1900 ==> ValidYear(1900, currentYear) && ValidYear(currentYear, currentYear)
    ensures !ValidYear(1899, currentYear) && !ValidYear(currentYear + 1, currentYear)
    ensures forall year :: ValidYear(year, currentYear) ==> ValidYear(year, currentYear + 1)
  {
  }
}
